/** First come, first served: of two ready threads the one in front runs first, and exactly
    which priority donations change that. */
module SchedFifo {
  import opened SchedState
  import opened SchedQueue
  import opened SchedDonation
  import opened SchedInvariant
  import opened SchedAcquire
  import opened SchedRuns
  import opened SchedTheorems

  ghost predicate Before(xs: seq<Tid>, a: Tid, b: Tid)
  {
    exists i, j :: 0 <= i < j < |xs| && xs[i] == a && xs[j] == b
  }

  lemma InsertKeepsOrder(xs: seq<Tid>, t: Tid, pri: map<Tid, int>, a: Tid, b: Tid)
    requires Before(xs, a, b)
    ensures Before(InsertOrdered(xs, t, pri), a, b)
  {
    var i, j :| 0 <= i < j < |xs| && xs[i] == a && xs[j] == b;
    var p, r := InsertPos(xs, Num(pri, t), pri), InsertOrdered(xs, t, pri);
    assert r[if i < p then i else i + 1] == a && r[if j < p then j else j + 1] == b;
  }

  /** A newcomer goes behind every thread of at least its priority. */
  lemma InsertGoesBehind(xs: seq<Tid>, t: Tid, pri: map<Tid, int>, a: Tid)
    requires Sorted(xs, pri) && a in xs && Num(pri, a) >= Num(pri, t)
    ensures Before(InsertOrdered(xs, t, pri), a, t)
  {
    var i :| 0 <= i < |xs| && xs[i] == a;
    var p, r := InsertPos(xs, Num(pri, t), pri), InsertOrdered(xs, t, pri);
    assert r[i] == a && r[p] == t;
  }

  lemma {:induction false} WithoutKeepsOrder(xs: seq<Tid>, t: Tid, a: Tid, b: Tid)
    requires Before(xs, a, b) && a != t && b != t
    ensures Before(Without(xs, t), a, b)
  {
    var i, j :| 0 <= i < j < |xs| && xs[i] == a && xs[j] == b;
    if xs[0] == t {
      assert xs[1..][i - 1] == a && xs[1..][j - 1] == b;
    } else {
      var rest := Without(xs[1..], t);
      if i == 0 {
        assert xs[1..][j - 1] == b;
        WithoutHas(xs[1..], t, b);
        var k :| 0 <= k < |rest| && rest[k] == b;
        assert ([xs[0]] + rest)[0] == a && ([xs[0]] + rest)[k + 1] == b;
      } else {
        assert xs[1..][i - 1] == a && xs[1..][j - 1] == b;
        WithoutKeepsOrder(xs[1..], t, a, b);
        var k, m :| 0 <= k < m < |rest| && rest[k] == a && rest[m] == b;
        assert ([xs[0]] + rest)[k + 1] == a && ([xs[0]] + rest)[m + 1] == b;
      }
    }
  }

  lemma {:induction false} WithoutHas(xs: seq<Tid>, t: Tid, a: Tid)
    requires a in xs && a != t
    ensures a in Without(xs, t)
  {
    if xs[0] != a {
      WithoutHas(xs[1..], t, a);
    }
  }

  /** As long as the one in front stays on the list, so does the other, behind it. */
  ghost predicate OrderKept(q: RunQueue, q': RunQueue, a: Tid, b: Tid)
  {
    Before(q.ready, a, b) && a in q'.ready ==> Before(q'.ready, a, b)
  }

  lemma ScheduleOrder(q: RunQueue, a: Tid, b: Tid)
    requires Distinct(q.ready)
    ensures OrderKept(q, Schedule(q), a, b)
  {
    var xs := q.ready;
    if Before(xs, a, b) && a in Schedule(q).ready {
      var i, j :| 0 <= i < j < |xs| && xs[i] == a && xs[j] == b;
      assert i > 0;
      assert xs[1..][i - 1] == a && xs[1..][j - 1] == b;
    }
  }

  lemma BlockOrder(q: RunQueue, a: Tid, b: Tid)
    requires Distinct(q.ready)
    ensures OrderKept(q, Block(q), a, b)
  {
    ScheduleOrder(q.(status := q.status[q.current := Blocked]), a, b);
  }

  lemma YieldOrder(q: RunQueue, pri: map<Tid, int>, a: Tid, b: Tid)
    requires RunOk(q)
    ensures OrderKept(q, Yield(q, pri), a, b) && OrderKept(q, MaxYield(q, pri), a, b)
  {
    var c := q.current;
    if Before(q.ready, a, b) {
      var ready' := if c != q.idle then InsertOrdered(q.ready, c, pri) else q.ready;
      assert c !in q.ready;
      InsertDistinct(q.ready, c, pri);
      InsertKeepsOrder(q.ready, c, pri, a, b);
      ScheduleOrder(q.(status := q.status[c := Ready], ready := ready'), a, b);
    }
  }

  lemma UnblockOrder(q: RunQueue, t: Tid, pri: map<Tid, int>, a: Tid, b: Tid)
    ensures OrderKept(q, Unblock(q, t, pri), a, b)
  {
    if Before(q.ready, a, b) {
      InsertKeepsOrder(q.ready, t, pri, a, b);
    }
  }

  lemma ReinsertOrder(q: RunQueue, t: Tid, pri: map<Tid, int>, a: Tid, b: Tid)
    requires a != t && b != t && Before(q.ready, a, b)
    ensures Before(Reinsert(q, t, pri).ready, a, b)
  {
    if StatusOf(q.status, t) == Ready {
      WithoutKeepsOrder(q.ready, t, a, b);
      InsertKeepsOrder(Without(q.ready, t), t, pri, a, b);
    }
  }

  /* ----- Steps ----- */

  lemma SemaUpOrder(s: State, k: Sid, a: Tid, b: Tid)
    ensures OrderKept(s.run, WakeOne(s, k).run, a, b)
  {
    var ws, pri := List(s.sync.waiters, k), s.don.priority;
    if ws != [] { UnblockOrder(s.run, Highest(ws, pri), pri, a, b); }
  }

  lemma ReleaseOrder(s: State, l: Sid, a: Tid, b: Tid)
    requires Inv(s) && InUserCode(s) && Link(s.sync.holder, l) == Some(s.run.current)
    ensures OrderKept(s.run, SchedState.Release(s, l).run, a, b)
  {
    var s1 := Retract(s, l);
    SchedLocks.RetractRunOk(s, l);
    SchedLocks.RetractIsReady(s, l);
    SemaUpOrder(s1, l, a, b);
    SchedLocks.SemaUpKeepsInv(s1, l);
    YieldOrder(WakeOne(s1, l).run, s1.don.priority, a, b);
  }

  /* ----- A donation to a ready thread ----- */

  /** A newcomer goes in front of every thread of lower priority. */
  lemma InsertGoesBefore(xs: seq<Tid>, t: Tid, pri: map<Tid, int>, b: Tid)
    requires b in xs && Num(pri, t) > Num(pri, b)
    ensures Before(InsertOrdered(xs, t, pri), t, b)
  {
    var i :| 0 <= i < |xs| && xs[i] == b;
    var p, r := InsertPos(xs, Num(pri, t), pri), InsertOrdered(xs, t, pri);
    assert r[p] == t && r[i + 1] == b;
  }

  /** `e` is put back with priority `p`: it loses its place in front of `b`, or takes one
      in front of `a`. */
  predicate Flips(pri: map<Tid, int>, e: Tid, p: int, a: Tid, b: Tid)
  {
    (e == a && p <= Num(pri, b)) || (e == b && p > Num(pri, a))
  }

  lemma ReinsertFlips(q: RunQueue, e: Tid, pri: map<Tid, int>, pri': map<Tid, int>, a: Tid, b: Tid)
    requires RunOk(q) && Sorted(q.ready, pri) && Before(q.ready, a, b)
    requires Sorted(Without(q.ready, e), pri')
    requires forall u | u in q.ready && u != e :: Num(pri', u) == Num(pri, u)
    ensures var ready' := Reinsert(q, e, pri').ready;
            if Flips(pri, e, Num(pri', e), a, b) then Before(ready', b, a) else Before(ready', a, b)
  {
    assert a in q.ready && b in q.ready;
    WithoutElems(q.ready, e);
    var rest := Without(q.ready, e);
    if e == a {
      if Flips(pri, e, Num(pri', e), a, b) {
        InsertGoesBehind(rest, e, pri', b);
      } else {
        InsertGoesBefore(rest, e, pri', b);
      }
    } else if e == b {
      if Flips(pri, e, Num(pri', e), a, b) {
        InsertGoesBefore(rest, e, pri', a);
      } else {
        InsertGoesBehind(rest, e, pri', a);
      }
    } else {
      ReinsertOrder(q, e, pri', a, b);
    }
  }

  /** Nobody on the chain of `n` hops from `t` is ready, the last thread aside. */
  ghost predicate Quiet(y: Sync, q: RunQueue, t: Tid, n: nat)
    requires ChainEnds(y, t, n)
    decreases n
  {
    n == 0 || (StatusOf(q.status, t) != Ready && Quiet(y, q, HolderFor(y, t).value, n - 1))
  }

  /** What the walk does to the ready list: the last thread is put back, and no other has
      changed its priority. */
  lemma {:induction false} QuietWalk(s: State, t: Tid, n: nat, s': State, end: Tid, u: Tid)
    requires ChainEnds(s.sync, t, n) && Quiet(s.sync, s.run, t, n)
    requires s' == Donate(s, t, n) && end == WalkPos(s.sync, t, n)
    ensures s'.run == Reinsert(s.run, end, s'.don.priority)
    ensures StatusOf(s.run.status, u) == Ready && u != end ==> Num(s'.don.priority, u) == Num(s.don.priority, u)
    decreases n
  {
    if n > 0 {
      var s1 := QuietStep(s, t, n, u);
      QuietWalk(s1, WalkNext(s.sync, t), n - 1, s', end, u);
    }
  }

  lemma QuietStep(s: State, t: Tid, n: nat, u: Tid) returns (s1: State)
    requires ChainEnds(s.sync, t, n) && Quiet(s.sync, s.run, t, n) && n > 0
    ensures var h := WalkNext(s.sync, t);
            && s1.sync == s.sync && s1.run == s.run && ChainEnds(s.sync, h, n - 1) && Quiet(s.sync, s.run, h, n - 1)
            && Donate(s, t, n) == Donate(s1, h, n - 1) && WalkPos(s.sync, t, n) == WalkPos(s.sync, h, n - 1)
    ensures StatusOf(s.run.status, u) == Ready ==> Num(s1.don.priority, u) == Num(s.don.priority, u)
  {
    s1 := WalkState(s, t);
    DonateUnfolds(s, t, n);
  }

  lemma {:induction false} AsleepIsQuiet(s: State, y: Sync, c: Tid, i: nat, t: Tid, n: nat)
    requires RunOk(s.run) && SleepersWait(s.run, s.sync) && c == s.run.current && y.waiters == s.sync.waiters
    requires ChainAsleep(y, c) && OnChain(y, c, i, t) && ChainEnds(y, t, n)
    ensures Quiet(y, s.run, t, n)
    decreases n
  {
    if n > 0 {
      OnChainNext(y, c, i, t);
      AsleepIsQuiet(s, y, c, i + 1, HolderFor(y, t).value, n - 1);
      if t != c {
        assert t in List(s.sync.waiters, Link(y.required, t).value);
        assert Asleep(s.run, t);
      }
    }
  }

  /** The thread at the end of the chain of `n` holders gets the largest priority on it and
      is put back on the ready list. */
  ghost predicate OvertakesAlong(s: State, l: Sid, n: nat, a: Tid, b: Tid)
  {
    var y, c, pri := Require(s.sync, s.run.current, l), s.run.current, s.don.priority;
    ChainEnds(y, c, n) && Flips(pri, WalkPos(y, c, n), ChainTop(y, pri, c, n), a, b)
  }

  /** The one kind of step that changes the order of `a` and `b`: lock_acquire() on a held
      lock, when the chain of holders ends at one of them and, with the largest priority on
      the chain, that one does not belong where it was. */
  ghost predicate Overtakes(s: State, e: Event, a: Tid, b: Tid)
  {
    e.Acquire? && Link(s.sync.holder, e.l).Some? && exists n: nat :: OvertakesAlong(s, e.l, n, a, b)
  }

  /** What the walk of a contended lock_acquire() gives the end of the chain. */
  lemma AcquireRaises(s: State, l: Sid, n: nat)
    requires Contended(s, l, n)
    ensures var y, c, pri := Require(s.sync, s.run.current, l), s.run.current, s.don.priority;
            Num(Donate(s.(sync := y), c, n).don.priority, WalkPos(y, c, n)) == ChainTop(y, pri, c, n)
  {
    var y, c, pri := Require(s.sync, s.run.current, l), s.run.current, s.don.priority;
    RequireKeepsCoherent(s, l);
    RenewedIsOwn(s.don, c);
    ChainTopAtLeast(y, pri, c, n);
    WalkRaises(s.(sync := y), c, n, Donate(s.(sync := y), c, n).don, Num(pri, c), WalkPos(y, c, n), ChainTop(y, pri, c, n));
  }

  lemma ChainTopAtLeast(y: Sync, pri: map<Tid, int>, t: Tid, n: nat)
    requires ChainEnds(y, t, n)
    ensures Num(pri, t) <= ChainTop(y, pri, t, n)
  {
  }

  lemma BlockLosesOrder(q: RunQueue, a: Tid, b: Tid)
    requires Distinct(q.ready) && Before(q.ready, b, a)
    ensures a in Block(q).ready && !Before(Block(q).ready, a, b)
  {
    var i, j :| 0 <= i < j < |q.ready| && q.ready[i] == b && q.ready[j] == a;
    var rest := q.ready[1..];
    assert rest[j - 1] == a;
    forall k, m | 0 <= k < m < |rest|
      ensures !(rest[k] == a && rest[m] == b)
    {
      assert rest[k] == q.ready[k + 1] && rest[m] == q.ready[m + 1];
    }
  }

  lemma ContendedOrderIff(s: State, l: Sid, n: nat, a: Tid, b: Tid)
    requires Contended(s, l, n) && ChainAsleep(Require(s.sync, s.run.current, l), s.run.current)
    requires Before(s.run.ready, a, b)
    ensures OrderKept(s.run, SchedAcquire.Acquire(s, l, n).run, a, b) <==> !OvertakesAlong(s, l, n, a, b)
  {
    var y, c, pri := Require(s.sync, s.run.current, l), s.run.current, s.don.priority;
    var s1 := s.(sync := y);
    var s2, end := Donate(s1, c, n), WalkPos(y, c, n);
    assert LockFree(s.sync, l) || LockHeld(s.sync, l);
    AcquireRaises(s, l, n);
    assert OnChain(y, c, 0, c);
    AsleepIsQuiet(s, y, c, 0, c, n);
    forall u { QuietWalk(s1, c, n, s2, end, u); }
    DonateQueue(s1, c, n);
    RestSorted(s.run.ready, end, pri, s2.don.priority);
    ReinsertFlips(s.run, end, pri, s2.don.priority, a, b);
    assert SchedAcquire.Acquire(s, l, n).run == Block(s2.run);
    if OvertakesAlong(s, l, n, a, b) {
      BlockLosesOrder(s2.run, a, b);
    } else {
      BlockOrder(s2.run, a, b);
    }
  }

  lemma RestSorted(xs: seq<Tid>, e: Tid, pri: map<Tid, int>, pri': map<Tid, int>)
    requires Distinct(xs) && Sorted(xs, pri) && forall u | u in xs && u != e :: Num(pri', u) == Num(pri, u)
    ensures Sorted(Without(xs, e), pri')
  {
    WithoutSorted(xs, e, pri);
    WithoutElems(xs, e);
    var r := Without(xs, e);
    forall i, j | 0 <= i < j < |r|
      ensures Num(pri', r[i]) >= Num(pri', r[j])
    {
      assert r[i] in r && r[j] in r;
    }
  }

  lemma AcquireOrderIff(s: State, l: Sid, a: Tid, b: Tid)
    requires Inv(s) && Enabled(s, Event.Acquire(l)) && Before(s.run.ready, a, b)
    ensures OrderKept(s.run, AcquireStep(s, l).run, a, b) <==> !Overtakes(s, Event.Acquire(l), a, b)
  {
    assert LockFree(s.sync, l) || LockHeld(s.sync, l);
    if Link(s.sync.holder, l).Some? {
      var y, c := Require(s.sync, s.run.current, l), s.run.current;
      var n: nat :| ChainEnds(y, c, n) && AcquireStep(s, l) == SchedAcquire.Acquire(s, l, n);
      ContendedOrderIff(s, l, n, a, b);
      forall m: nat | OvertakesAlong(s, l, m, a, b)
        ensures m == n
      {
        ChainLengthUnique(y, c, m, n);
      }
    }
  }

  lemma OtherOrder(s: State, e: Event, a: Tid, b: Tid)
    requires RunOk(s.run) && Enabled(s, e)
    requires e.SemaInit? || e.LockInit? || e.Down? || e.TryDown? || e.TryAcquire? || e.Resume?
    ensures OrderKept(s.run, Step(s, e).run, a, b)
  {
    BlockOrder(s.run, a, b);
  }

  lemma ExitOrder(s: State, a: Tid, b: Tid)
    requires RunOk(s.run)
    ensures OrderKept(s.run, SchedState.Exit(s).run, a, b)
  {
    ScheduleOrder(s.run.(status := s.run.status - {s.run.current}), a, b);
  }

  /** A step keeps the order of two ready threads exactly if it does not overtake. */
  lemma StepKeepsOrder(s: State, e: Event, a: Tid, b: Tid)
    requires Inv(s) && Enabled(s, e) && Before(s.run.ready, a, b)
    ensures OrderKept(s.run, Step(s, e).run, a, b) <==> !Overtakes(s, e, a, b)
  {
    match e
    case Up(k) => SemaUpOrder(s, k, a, b);
    case Acquire(l) => AcquireOrderIff(s, l, a, b);
    case Release(l) => ReleaseOrder(s, l, a, b);
    case SetPriority(_) =>
    case Create(t, p) => UnblockOrder(s.run, t, s.don.priority[t := p], a, b);
    case Exit => ExitOrder(s, a, b);
    case Preempt => YieldOrder(s.run, s.don.priority, a, b);
    case Tick => YieldOrder(s.run, s.don.priority, a, b);
    case IdleBlock => BlockOrder(s.run, a, b);
    case _ => OtherOrder(s, e, a, b);
  }

  /* ----- Runs ----- */

  /** No step of the run overtakes. */
  ghost predicate NoOvertaking(s: State, es: seq<Event>, a: Tid, b: Tid)
    requires IsRun(s, es)
    decreases |es|
  {
    es == [] || (!Overtakes(s, es[0], a, b) && NoOvertaking(Step(s, es[0]), es[1..], a, b))
  }

  /** `t` is on the ready list from the start to the end of the run. */
  ghost predicate StaysReady(s: State, es: seq<Event>, t: Tid)
    requires IsRun(s, es)
    decreases |es|
  {
    t in s.run.ready && (es == [] || StaysReady(Step(s, es[0]), es[1..], t))
  }

  /** `a` is in front of `b` on the ready list from the start to the end of the run. */
  ghost predicate StaysAhead(s: State, es: seq<Event>, a: Tid, b: Tid)
    requires IsRun(s, es)
    decreases |es|
  {
    Before(s.run.ready, a, b) && (es == [] || StaysAhead(Step(s, es[0]), es[1..], a, b))
  }

  /** As long as the thread in front has not run, the one behind it does not, exactly if no
      step of the run overtakes. */
  lemma {:induction false} FirstComeFirstServed(s: State, es: seq<Event>, a: Tid, b: Tid)
    requires Inv(s) && IsRun(s, es) && Before(s.run.ready, a, b) && StaysReady(s, es, a)
    ensures StaysAhead(s, es, a, b) <==> NoOvertaking(s, es, a, b)
    decreases |es|
  {
    if es != [] {
      var s1 := Step(s, es[0]);
      StepKeepsInv(s, es[0]);
      StepKeepsOrder(s, es[0], a, b);
      if Before(s1.run.ready, a, b) {
        FirstComeFirstServed(s1, es[1..], a, b);
      }
    }
  }
}
