/** The 4.4BSD scheduler's arithmetic: 17.14 fixed-point numbers in 32-bit words. */
module Mlfqs {

  const F := 16384
  const TIMER_FREQ := 100
  const NICE_MIN := -20
  const NICE_MAX := 20
  const PRI_MIN := 0
  const PRI_MAX := 63

  /** A result stored in an int32_t, wrapping around */
  function Wrap(x: int): (r: int)
    ensures Int32(r)
    ensures Int32(x) ==> r == x
  {
    (x + 0x8000_0000) % 0x1_0000_0000 - 0x8000_0000
  }

  predicate Int32(x: int)
  {
    -0x8000_0000 <= x < 0x8000_0000
  }

  /** Division as in C, toward zero */
  function Quot(a: int, b: int): (q: int)
    requires b > 0
  {
    if a >= 0 then a / b else -((-a) / b)
  }

  /* ----- fixed_point.h ----- */

  function ToFixed(n: int): (x: int) { Wrap(n * F) }
  function AddFixed(x: int, y: int): (r: int) { Wrap(x + y) }
  function AddInt(x: int, n: int): (r: int) { Wrap(x + Wrap(n * F)) }
  function SubFixed(x: int, y: int): (r: int) { Wrap(x - y) }
  function MulFixed(x: int, y: int): (r: int) { Wrap(Quot(x * y, F)) }
  function MulInt(x: int, n: int): (r: int) { Wrap(x * n) }
  function DivFixed(x: int, y: int): (r: int) requires y > 0 { Wrap(Quot(x * F, y)) }
  function DivInt(x: int, n: int): (r: int) requires n > 0 { Quot(x, n) }

  /* ----- thread.c ----- */

  /** thread_calculate_load_avg() */
  function LoadAvg(load: int, ready: int): (r: int)
  {
    AddFixed(MulFixed(DivInt(ToFixed(59), 60), load), MulInt(DivInt(ToFixed(1), 60), ready))
  }

  /** thread_calculate_recent_cpu(); a load average of 0 or more keeps the divisor positive. */
  function RecentCpu(load: int, recent: int, nice: int): (r: int)
  {
    var twice := MulInt(load, 2);
    var sum := AddInt(twice, 1);
    var coefficient := if sum > 0 then DivFixed(twice, sum) else 0;
    AddInt(MulFixed(coefficient, recent), nice)
  }

  /** thread_calculate_bsd_priority() */
  function Priority(recent: int, nice: int): (p: int)
  {
    var result := SubFixed(SubFixed(ToFixed(PRI_MAX), DivInt(recent, 4)), ToFixed(Wrap(nice * 2)));
    var p := Quot(result, F);
    if p < PRI_MIN then PRI_MIN else if p > PRI_MAX then PRI_MAX else p
  }

  /* ----- The same in unbounded integers ----- */

  function ExactLoadAvg(load: int, ready: int): (r: int)
  {
    Quot(59 * F / 60 * load, F) + F / 60 * ready
  }

  function Coefficient(load: int): (c: int)
    requires load >= 0
  {
    2 * load * F / (2 * load + F)
  }

  function ExactRecentCpu(load: int, recent: int, nice: int): (r: int)
    requires load >= 0
  {
    Quot(Coefficient(load) * recent, F) + nice * F
  }

  /* ----- Bounds ----- */

  /** With at most `n` threads ready, and `k` ticks since the last full second */
  predicate LoadOk(load: int, n: nat)
  {
    0 <= load <= n * F
  }

  predicate RecentOk(recent: int, n: nat, k: int)
  {
    -20 * (2 * n + 1) * F <= recent <= (240 * n + 20 + k) * F
  }

  predicate NiceOk(nice: int)
  {
    NICE_MIN <= nice <= NICE_MAX
  }

  const MOST_READY := 545

  lemma MulMono(a: int, b: int, c: int)
    requires a <= b && c >= 0
    ensures a * c <= b * c
  {
  }

  lemma QuotBounds(a: int, b: int, lo: int, hi: int)
    requires b > 0 && lo <= 0 <= hi && lo * b <= a <= hi * b
    ensures lo <= Quot(a, b) <= hi
  {
    if a >= 0 { DivAtMost(a, b, hi); } else { DivAtMost(-a, b, -lo); }
  }

  lemma DivAtMost(a: int, b: int, c: int)
    requires b > 0 && 0 <= a <= c * b
    ensures 0 <= a / b <= c
  {
    if a / b > c { MulMono(c + 1, a / b, b); }
  }

  /** load_avg stays between 0 and n. */
  lemma LoadStays(load: int, ready: int, n: nat)
    requires LoadOk(load, n) && 0 <= ready <= n
    ensures LoadOk(ExactLoadAvg(load, ready), n)
  {
    assert 59 * F / 60 == 16110 && F / 60 == 273;
    QuotBounds(16110 * load, F, 0, 16110 * n);
  }

  /** The decay of recent_cpu is at most 2n / (2n + 1). */
  lemma CoefficientAtMost(load: int, n: nat)
    requires LoadOk(load, n)
    ensures 0 <= Coefficient(load) < F && Coefficient(load) * (2 * n + 1) <= 2 * n * F
  {
    var x, c := 2 * load, Coefficient(load);
    Remainder(x * F, x + F);
    assert c * (x + F) <= x * F;
    assert c * F <= x * (F - c);
    if c >= F { MulMono(F, c, x + F); }
    MulMono(x, 2 * n * F, F - c);
    assert c * F <= (2 * n * (F - c)) * F;
  }

  lemma Remainder(a: int, b: int)
    requires a >= 0 && b > 0
    ensures a / b >= 0 && (a / b) * b <= a
  {
  }

  /** recent_cpu at a full second: a hundred ticks later it is back within its bounds. */
  lemma RecentStays(load: int, recent: int, nice: int, n: nat)
    requires LoadOk(load, n) && RecentOk(recent, n, TIMER_FREQ) && NiceOk(nice)
    ensures RecentOk(ExactRecentCpu(load, recent, nice), n, 0)
  {
    var c, t := Coefficient(load), 2 * n + 1;
    CoefficientAtMost(load, n);
    Scaled(c, recent, t);
    QuotBounds(c * recent, F, -20 * (c * t), 120 * (c * t));
  }

  lemma Scaled(c: int, recent: int, t: int)
    requires 0 <= c && t >= 0 && -20 * t * F <= recent <= 120 * t * F
    ensures -20 * (c * t) * F <= c * recent <= 120 * (c * t) * F
    ensures c * t >= 0
  {
    MulMono(-20 * t * F, recent, c);
    MulMono(recent, 120 * t * F, c);
    assert (-20 * t * F) * c == -20 * (c * t) * F;
    assert (120 * t * F) * c == 120 * (c * t) * F;
  }

  /* ----- No wrap-around ----- */

  /** Every intermediate result of thread_calculate_load_avg() fits in an int32_t. */
  predicate LoadFits(load: int, ready: int)
  {
    && Int32(59 * F) && Int32(Quot(59 * F / 60 * load, F)) && Int32(F / 60 * ready)
    && Int32(ExactLoadAvg(load, ready)) && LoadAvg(load, ready) == ExactLoadAvg(load, ready)
  }

  /** The same for thread_calculate_recent_cpu() */
  predicate RecentFits(load: int, recent: int, nice: int)
    requires load >= 0
  {
    && Int32(2 * load) && Int32(2 * load + F) && Int32(Coefficient(load))
    && Int32(Quot(Coefficient(load) * recent, F)) && Int32(nice * F)
    && Int32(ExactRecentCpu(load, recent, nice)) && RecentCpu(load, recent, nice) == ExactRecentCpu(load, recent, nice)
  }

  lemma LoadAvgExact(load: int, ready: int, n: nat)
    requires n <= MOST_READY && LoadOk(load, n) && 0 <= ready <= n
    ensures LoadFits(load, ready)
  {
    LoadStays(load, ready, n);
    assert 59 * F / 60 == 16110 && F / 60 == 273;
    QuotBounds(16110 * load, F, 0, 16110 * n);
  }

  lemma RecentCpuExact(load: int, recent: int, nice: int, n: nat)
    requires n <= MOST_READY && LoadOk(load, n) && RecentOk(recent, n, TIMER_FREQ) && NiceOk(nice)
    ensures RecentFits(load, recent, nice)
  {
    var c, t := Coefficient(load), 2 * n + 1;
    CoefficientAtMost(load, n);
    RecentStays(load, recent, nice, n);
    Scaled(c, recent, t);
    QuotBounds(c * recent, F, -20 * (c * t), 120 * (c * t));
    assert DivFixed(2 * load, 2 * load + F) == c;
  }

  lemma TickExact(recent: int, n: nat, k: nat)
    requires n <= MOST_READY && RecentOk(recent, n, k) && k < TIMER_FREQ
    ensures Int32(recent + F) && AddInt(recent, 1) == recent + F && RecentOk(recent + F, n, k + 1)
  {
  }

  /** The priority is the formula's value brought into range; nothing wraps on the way. */
  lemma PriorityExact(recent: int, nice: int, n: nat, k: nat)
    requires n <= MOST_READY && RecentOk(recent, n, k) && k <= TIMER_FREQ && NiceOk(nice)
    ensures Int32(Quot(recent, 4)) && Int32(2 * nice * F) && Int32(PRI_MAX * F - Quot(recent, 4))
    ensures Int32(PRI_MAX * F - Quot(recent, 4) - 2 * nice * F)
    ensures var p := Quot(PRI_MAX * F - Quot(recent, 4) - 2 * nice * F, F);
            Priority(recent, nice) == if p < PRI_MIN then PRI_MIN else if p > PRI_MAX then PRI_MAX else p
  {
    assert -0x8000_0000 <= recent < 0x8000_0000;
    QuotBounds(recent, 4, -0x2000_0000, 0x2000_0000);
  }

  /* ----- Runs ----- */

  /** load_avg, each thread's recent_cpu and nice, and the ticks so far */
  datatype Bsd = Bsd(loadAvg: int, recent: map<int, int>, nice: map<int, int>, ticks: nat)

  datatype Event = Tick(running: set<int>, ready: nat) | SetNice(thread: int, nice: int) | Create(thread: int) | Exit(thread: int)

  /** A tick finds one thread or only the idle thread running; a full second finds at most `n` ready. */
  predicate Possible(s: Bsd, e: Event, n: nat)
  {
    match e
    case Tick(running, ready) => |running| <= 1 && running <= s.recent.Keys && ((s.ticks + 1) % TIMER_FREQ == 0 ==> ready <= n)
    case SetNice(t, nice) => t in s.nice && NiceOk(nice)
    case Create(t) => t !in s.recent
    case Exit(t) => true
  }

  /** The increment of thread_recalculate_bsd_variables() */
  function Counted(s: Bsd, running: set<int>): (s': Bsd)
  {
    s.(ticks := s.ticks + 1, recent := map t | t in s.recent :: if t in running then AddInt(s.recent[t], 1) else s.recent[t])
  }

  function NiceOf(s: Bsd, t: int): (n: int)
  {
    if t in s.nice then s.nice[t] else 0
  }

  /** Its update at a full second: the load average first, then every thread */
  function Decayed(s: Bsd, ready: nat): (s': Bsd)
  {
    var load := LoadAvg(s.loadAvg, ready);
    s.(loadAvg := load, recent := map t | t in s.recent :: RecentCpu(load, s.recent[t], NiceOf(s, t)))
  }

  function Step(s: Bsd, e: Event): (s': Bsd)
  {
    match e
    case Tick(running, ready) =>
      var s1 := Counted(s, running);
      if s1.ticks % TIMER_FREQ == 0 then Decayed(s1, ready) else s1
    case SetNice(t, nice) => s.(nice := s.nice[t := nice])
    case Create(t) => s.(recent := s.recent[t := 0], nice := s.nice[t := 0])
    case Exit(t) => s.(recent := s.recent - {t}, nice := s.nice - {t})
  }

  predicate IsRun(s: Bsd, es: seq<Event>, n: nat)
    decreases |es|
  {
    es == [] || (Possible(s, es[0], n) && IsRun(Step(s, es[0]), es[1..], n))
  }

  function After(s: Bsd, es: seq<Event>): (s': Bsd)
    decreases |es|
  {
    if es == [] then s else After(Step(s, es[0]), es[1..])
  }

  predicate BoundsOk(s: Bsd, n: nat, k: int)
  {
    && LoadOk(s.loadAvg, n)
    && (forall t | t in s.recent :: RecentOk(s.recent[t], n, k))
    && (forall t | t in s.nice :: NiceOk(s.nice[t]))
  }

  /** Between ticks, with the ticks since the last full second */
  predicate Bounded(s: Bsd, n: nat)
  {
    BoundsOk(s, n, s.ticks % TIMER_FREQ)
  }

  /** The tick's arithmetic does not wrap. */
  predicate Exact(s: Bsd, e: Event)
  {
    match e
    case Tick(running, ready) =>
      && (forall t | t in running && t in s.recent :: Int32(s.recent[t] + F))
      && var s1 := Counted(s, running);
         s1.ticks % TIMER_FREQ == 0 ==> DecayFits(s1, ready)
    case _ => true
  }

  predicate DecayFits(s: Bsd, ready: nat)
  {
    && LoadFits(s.loadAvg, ready) && LoadAvg(s.loadAvg, ready) >= 0
    && forall t | t in s.recent :: RecentFits(LoadAvg(s.loadAvg, ready), s.recent[t], NiceOf(s, t))
  }

  lemma CountedBounded(s: Bsd, running: set<int>, n: nat)
    requires n <= MOST_READY && Bounded(s, n)
    ensures BoundsOk(Counted(s, running), n, s.ticks % TIMER_FREQ + 1)
    ensures forall t | t in running && t in s.recent :: Int32(s.recent[t] + F)
  {
    var k := s.ticks % TIMER_FREQ;
    forall t | t in s.recent
      ensures Int32(s.recent[t] + F) && AddInt(s.recent[t], 1) == s.recent[t] + F && RecentOk(s.recent[t] + F, n, k + 1)
      ensures RecentOk(s.recent[t], n, k + 1)
    {
      TickExact(s.recent[t], n, k);
    }
  }

  lemma DecayedBounded(s: Bsd, ready: nat, n: nat)
    requires n <= MOST_READY && BoundsOk(s, n, TIMER_FREQ) && ready <= n
    ensures BoundsOk(Decayed(s, ready), n, 0) && DecayFits(s, ready)
  {
    var load := LoadAvg(s.loadAvg, ready);
    LoadAvgExact(s.loadAvg, ready, n);
    LoadStays(s.loadAvg, ready, n);
    forall t | t in s.recent
      ensures RecentFits(load, s.recent[t], NiceOf(s, t))
      ensures RecentOk(RecentCpu(load, s.recent[t], NiceOf(s, t)), n, 0)
    {
      RecentCpuExact(load, s.recent[t], NiceOf(s, t), n);
      RecentStays(load, s.recent[t], NiceOf(s, t), n);
    }
  }

  lemma StepBounded(s: Bsd, e: Event, n: nat)
    requires n <= MOST_READY && Bounded(s, n) && Possible(s, e, n)
    ensures Bounded(Step(s, e), n) && Exact(s, e)
  {
    match e
    case Tick(running, ready) =>
      var s1 := Counted(s, running);
      CountedBounded(s, running, n);
      if s1.ticks % TIMER_FREQ == 0 { DecayedBounded(s1, ready, n); }
    case SetNice(_, _) =>
    case Create(_) =>
    case Exit(_) =>
  }

  /* ----- What an event does ----- */

  function AbsOf(x: int): (a: nat)
  {
    if x < 0 then -x else x
  }

  /** load' is (59 * load + F * ready) / 60, less a rounding error below one unit, 56 / 60 units for each
      whole unit of load and 4 / 60 for each ready thread. */
  predicate LoadDecays(load: int, load': int, ready: int)
  {
    0 <= F * (59 * load + F * ready - 60 * load') < 56 * load + (4 * ready + 60) * F
  }

  /** recent' is 2 * load * recent / (2 * load + F) + F * nice, nearer to zero by less than one unit and one
      for each whole unit of recent. */
  predicate RecentDecays(load: int, recent: int, recent': int, nice: int)
  {
    var d, kept := 2 * load + F, recent' - F * nice;
    && d * AbsOf(kept) <= 2 * load * AbsOf(recent)
    && F * AbsOf(d * kept - 2 * load * recent) < d * (AbsOf(recent) + F)
  }

  lemma LoadAvgDecays(load: int, ready: int, n: nat)
    requires n <= MOST_READY && LoadOk(load, n) && 0 <= ready <= n
    ensures LoadDecays(load, LoadAvg(load, ready), ready)
  {
    LoadAvgExact(load, ready, n);
    DivRemainder(16110 * load, F);
    LoadShort(load, ready, 16110 * load / F);
  }

  lemma LoadShort(load: int, ready: int, q: int)
    requires load >= 0 && 0 <= 16110 * load - q * F < F && ready >= 0
    ensures LoadDecays(load, q + 273 * ready, ready)
  {
  }

  lemma RecentCpuDecays(load: int, recent: int, nice: int, n: nat)
    requires n <= MOST_READY && LoadOk(load, n) && RecentOk(recent, n, TIMER_FREQ) && NiceOk(nice)
    ensures RecentDecays(load, recent, RecentCpu(load, recent, nice), nice)
  {
    var c := CoefficientIs(load);
    var q := Quot(c * recent, F);
    assert RecentCpu(load, recent, nice) == q + F * nice by { RecentCpuExact(load, recent, nice, n); }
    ScaledDown(2 * load, 2 * load + F, c, recent, q);
  }

  lemma CoefficientIs(load: int) returns (c: int)
    requires load >= 0
    ensures c == Coefficient(load) && c >= 0 && 0 <= 2 * load * F - c * (2 * load + F) < 2 * load + F
  {
    c := Coefficient(load);
    DivRemainder(2 * load * F, 2 * load + F);
  }

  lemma DivRemainder(a: int, b: int)
    requires a >= 0 && b > 0
    ensures 0 <= a - (a / b) * b < b
  {
  }

  /** A coefficient c / F rounded down from x / d, and a product rounded toward zero */
  lemma ScaledDown(x: int, d: int, c: int, r: int, q: int)
    requires x >= 0 && d > 0 && c >= 0 && 0 <= x * F - c * d < d && q == Quot(c * r, F)
    ensures d * AbsOf(q) <= x * AbsOf(r)
    ensures F * AbsOf(d * q - x * r) < d * (AbsOf(r) + F)
  {
    var a, b := AbsOf(r), AbsOf(q);
    assert c * r == (if r < 0 then -(c * a) else c * a) && c * a >= 0;
    assert b == (c * a) / F;
    DivRemainder(c * a, F);
    Short(x, d, c, a, b);
    if r >= 0 {
      assert d * q - x * r == d * b - x * a;
    } else {
      assert d * q - x * r == -(d * b - x * a);
    }
  }

  lemma Short(x: int, d: int, c: int, a: int, b: int)
    requires x >= 0 && d > 0 && a >= 0 && 0 <= x * F - c * d < d && 0 <= c * a - b * F < F
    ensures d * b <= x * a && F * (x * a - d * b) < d * (a + F)
  {
    var e, f := x * F - c * d, c * a - b * F;
    assert F * (x * a - d * b) == e * a + d * f by {
      assert (x * F) * a == (c * d + e) * a;
      assert d * (b * F) == d * (c * a - f);
    }
    MulMono(0, e, a);
    MulMono(e, d, a);
    MulMono(0, f, d);
    MulLess(f, F, d);
  }

  lemma MulLess(a: int, b: int, c: int)
    requires a < b && c > 0
    ensures a * c < b * c
  {
  }

  /** A tick: the running thread is charged one unit.  At a full second the load average and then, with
      the new one, every thread's recent_cpu decay; at any other tick nothing else changes. */
  predicate Ticked(s: Bsd, s': Bsd, running: set<int>, ready: nat)
  {
    && s'.ticks == s.ticks + 1 && s'.nice == s.nice && s'.recent.Keys == s.recent.Keys
    && if (s.ticks + 1) % TIMER_FREQ == 0 then
         && LoadDecays(s.loadAvg, s'.loadAvg, ready)
         && forall t | t in s.recent :: RecentDecays(s'.loadAvg, Charged(s, running, t), s'.recent[t], NiceOf(s, t))
       else
         && s'.loadAvg == s.loadAvg
         && forall t | t in s.recent :: s'.recent[t] == Charged(s, running, t)
  }

  function Charged(s: Bsd, running: set<int>, t: int): (r: int)
    requires t in s.recent
  {
    s.recent[t] + if t in running then F else 0
  }

  /** What every event leaves behind */
  lemma StepDoes(s: Bsd, e: Event, n: nat)
    requires n <= MOST_READY && Bounded(s, n) && Possible(s, e, n)
    ensures var s' := Step(s, e);
            match e
            case Tick(running, ready) => Ticked(s, s', running, ready)
            case SetNice(t, nice) => s' == s.(nice := s.nice[t := nice])
            case Create(t) => s' == s.(recent := s.recent[t := 0], nice := s.nice[t := 0])
            case Exit(t) => s' == s.(recent := s.recent - {t}, nice := s.nice - {t})
  {
    if e.Tick? { TickDoes(s, e.running, e.ready, n); }
  }

  lemma TickDoes(s: Bsd, running: set<int>, ready: nat, n: nat)
    requires n <= MOST_READY && Bounded(s, n) && Possible(s, Tick(running, ready), n)
    ensures Ticked(s, Step(s, Tick(running, ready)), running, ready)
  {
    var s1 := Counted(s, running);
    CountedBounded(s, running, n);
    forall t | t in s.recent ensures s1.recent[t] == Charged(s, running, t) {}
    if s1.ticks % TIMER_FREQ == 0 {
      DecayDoes(s1, ready, n);
    }
  }

  lemma DecayDoes(s: Bsd, ready: nat, n: nat)
    requires n <= MOST_READY && BoundsOk(s, n, TIMER_FREQ) && ready <= n
    ensures var s' := Decayed(s, ready);
            && LoadDecays(s.loadAvg, s'.loadAvg, ready) && s'.nice == s.nice && s'.ticks == s.ticks
            && s'.recent.Keys == s.recent.Keys
            && forall t | t in s.recent :: RecentDecays(s'.loadAvg, s.recent[t], s'.recent[t], NiceOf(s, t))
  {
    var load := LoadAvg(s.loadAvg, ready);
    LoadAvgDecays(s.loadAvg, ready, n);
    LoadAvgExact(s.loadAvg, ready, n);
    LoadStays(s.loadAvg, ready, n);
    forall t | t in s.recent
      ensures RecentDecays(load, s.recent[t], RecentCpu(load, s.recent[t], NiceOf(s, t)), NiceOf(s, t))
    {
      RecentCpuDecays(load, s.recent[t], NiceOf(s, t), n);
    }
  }

  /** thread_init(): one thread, nothing counted yet */
  function Boot(thread: int): (s: Bsd)
  {
    Bsd(0, map[thread := 0], map[thread := 0], 0)
  }

  /** With at most `n` <= 545 threads ready or running at each full second, in every run: load_avg is
      between 0 and n, every recent_cpu within its bounds, and no update wraps around. */
  lemma {:induction false} RunBounded(s: Bsd, es: seq<Event>, n: nat)
    requires n <= MOST_READY && Bounded(s, n) && IsRun(s, es, n)
    ensures Bounded(After(s, es), n)
    ensures forall k | 0 <= k < |es| :: Exact(After(s, es[..k]), es[k])
    decreases |es|
  {
    if es != [] {
      var s1, rest := Step(s, es[0]), es[1..];
      StepBounded(s, es[0], n);
      RunBounded(s1, rest, n);
      forall k | 0 <= k < |es|
        ensures Exact(After(s, es[..k]), es[k])
      {
        if k > 0 {
          assert es[..k][1..] == rest[..k - 1] && es[..k][0] == es[0];
          assert Exact(After(s1, rest[..k - 1]), rest[k - 1]);
        }
      }
    }
  }

  lemma RunFromBoot(thread: int, es: seq<Event>, n: nat)
    requires n <= MOST_READY && IsRun(Boot(thread), es, n)
    ensures var s := After(Boot(thread), es);
            && 0 <= s.loadAvg <= n * F
            && forall t | t in s.recent :: -20 * (2 * n + 1) * F <= s.recent[t] <= (240 * n + 120) * F
    ensures forall k | 0 <= k < |es| :: Exact(After(Boot(thread), es[..k]), es[k])
  {
    RunBounded(Boot(thread), es, n);
    var s := After(Boot(thread), es);
    forall t | t in s.recent ensures RecentOk(s.recent[t], n, TIMER_FREQ) { assert RecentOk(s.recent[t], n, s.ticks % TIMER_FREQ); }
  }
}
