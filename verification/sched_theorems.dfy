/** What the invariant means for the users of the scheduler. */
module SchedTheorems {
  import opened SchedState
  import opened SchedQueue
  import opened SchedDonation
  import opened SchedInvariant
  import opened SchedLocks
  import opened SchedAcquire
  import opened SchedRuns

  /* ----- Effective priority over the whole donor tree ----- */

  /** `u` donates to `t` through `i` donations, one after the other. */
  ghost predicate GivesTo(d: Donations, u: Tid, i: nat, t: Tid)
    decreases i
  {
    if i == 0 then u == t
    else Link(d.donatedTo, u).Some? && GivesTo(d, Link(d.donatedTo, u).value, i - 1, t)
  }

  lemma {:induction false} GivesToOne(d: Donations, u: Tid, i: nat, v: Tid, t: Tid)
    requires GivesTo(d, u, i, v) && Link(d.donatedTo, v) == Some(t)
    ensures GivesTo(d, u, i + 1, t)
    decreases i
  {
    if i == 0 {
      assert GivesTo(d, t, 0, t);
    } else {
      GivesToOne(d, Link(d.donatedTo, u).value, i - 1, v, t);
    }
  }

  lemma {:induction false} GivesToBound(d: Donations, u: Tid, i: nat, t: Tid)
    requires LinksAgree(d) && Fixpoint(d) && GivesTo(d, u, i, t)
    ensures Num(d.priority, u) <= Num(d.priority, t)
    decreases i
  {
    if i > 0 {
      var h := Link(d.donatedTo, u).value;
      assert u in List(d.donors, h);
      assert Effective(d, h);
      GivesToBound(d, h, i - 1, t);
    }
  }

  lemma {:induction false} GroundedFrom(y: Sync, t: Tid, n: nat, i: nat, u: Tid)
    requires GroundedIn(y, t, n) && OnChain(y, t, i, u)
    ensures i <= n && GroundedIn(y, u, n - i)
    decreases n
  {
    if i > 0 {
      GroundedFrom(y, HolderFor(y, t).value, n - 1, i - 1, u);
    }
  }

  lemma {:induction false} GroundedUnique(y: Sync, t: Tid, m: nat, n: nat)
    requires GroundedIn(y, t, m) && GroundedIn(y, t, n)
    ensures m == n
    decreases m
  {
    if m > 0 && n > 0 {
      GroundedUnique(y, Next(y, t).value, m - 1, n - 1);
    }
  }

  lemma NoCycle(y: Sync, t: Tid, i: nat)
    requires NoDeadlock(y) && OnChain(y, t, i, t)
    ensures i == 0
  {
    assert Grounded(y, t);
    var n: nat :| GroundedIn(y, t, n);
    GroundedFrom(y, t, n, i, t);
    GroundedUnique(y, t, n, n - i);
  }

  ghost predicate Above(y: Sync, t: Tid, x: Tid)
  {
    exists j: nat :: OnChain(y, t, j, x)
  }

  /** Some thread of the donor tree below `t` has `t`'s priority as its base.  `seen` are
      the threads on the way down from where the search began. */
  lemma {:induction false} TreeMaxAttained(d: Donations, y: Sync, t: Tid, seen: set<Tid>)
    returns (u: Tid, i: nat)
    requires Coherent(d, y) && Fixpoint(d) && NoDeadlock(y)
    requires forall x | x in seen :: Above(y, t, x)
    ensures GivesTo(d, u, i, t) && Num(d.base, u) == Num(d.priority, t)
    decreases d.donatedTo.Keys - seen
  {
    assert Effective(d, t);
    if Num(d.priority, t) == Num(d.base, t) {
      return t, 0;
    }
    var v :| v in List(d.donors, t) && Num(d.priority, v) == Num(d.priority, t);
    assert Link(d.donatedTo, v) == Some(t);
    assert Requires(y, v) && HolderFor(y, v) == Some(t);
    forall x | x in seen
      ensures x != v && Above(y, v, x)
    {
      var j: nat :| OnChain(y, t, j, x);
      assert OnChain(y, v, j + 1, x);
      if x == v { NoCycle(y, v, j + 1); }
    }
    assert OnChain(y, v, 0, v);
    assert v in d.donatedTo.Keys - seen && v !in d.donatedTo.Keys - (seen + {v});
    u, i := TreeMaxAttained(d, y, v, seen + {v});
    GivesToOne(d, u, i, v, t);
    i := i + 1;
  }

  /** Effective priority is the largest base priority in the whole tree of donors. */
  lemma PriorityIsTreeMax(s: State, t: Tid)
    requires Inv(s)
    ensures forall u, i: nat | GivesTo(s.don, u, i, t) :: Num(s.don.base, u) <= Num(s.don.priority, t)
    ensures exists u, i: nat :: GivesTo(s.don, u, i, t) && Num(s.don.base, u) == Num(s.don.priority, t)
    ensures PRI_MIN <= Num(s.don.priority, t) <= PRI_MAX
  {
    forall u, i: nat | GivesTo(s.don, u, i, t)
      ensures Num(s.don.base, u) <= Num(s.don.priority, t)
    {
      GivesToBound(s.don, u, i, t);
      assert Effective(s.don, u);
    }
    var u, i := TreeMaxAttained(s.don, s.sync, t, {});
  }

  /* ----- Release ----- */

  lemma ReleaseDonations(s: State, l: Sid)
    requires Linked(s.don)
    ensures var d1, d' := RemoveDonations(s.don, List(s.sync.waiters, l)), SchedState.Release(s, l).don;
            && d'.donors == d1.donors && d'.donatedTo == d1.donatedTo
            && (forall t | t != s.run.current :: Num(d'.priority, t) == Num(s.don.priority, t))
  {
    RemoveDonationsEffect(s.don, List(s.sync.waiters, l));
  }

  lemma RetractedDonor(s: State, l: Sid, h: Tid, u: Tid)
    requires SyncOk(s.run, s.sync) && DonationOk(s.don, s.sync) && l in s.sync.holder
    ensures u in List(RemoveDonations(s.don, List(s.sync.waiters, l)).donors, h)
       <==> u in List(s.don.donors, h) && Link(s.sync.required, u) != Some(l)
  {
    var d, d1 := s.don, RemoveDonations(s.don, List(s.sync.waiters, l));
    RemoveDonationsEffect(d, List(s.sync.waiters, l));
    assert u in List(d1.donors, h) <==> Link(d1.donatedTo, u) == Some(h);
    assert u in List(d.donors, h) <==> Link(d.donatedTo, u) == Some(h);
    WaiterDonatesToHolder(s, l, u);
    assert Link(s.sync.required, u) == LockWaitedFor(s.sync, u);
  }

  lemma RetractedOthers(s: State, l: Sid, h: Tid)
    requires SyncOk(s.run, s.sync) && DonationOk(s.don, s.sync) && l in s.sync.holder
    requires Link(s.sync.holder, l) != Some(h)
    ensures List(RemoveDonations(s.don, List(s.sync.waiters, l)).donors, h) == List(s.don.donors, h)
  {
    var us, ws := List(s.don.donors, h), List(s.sync.waiters, l);
    forall i | 0 <= i < |us|
      ensures us[i] !in ws
    {
      assert us[i] in us;
      assert Link(s.don.donatedTo, us[i]) == Some(h);
      WaiterDonatesToHolder(s, l, us[i]);
    }
    KeepAll(us, ws);
    RemoveDonationsEffect(s.don, ws);
  }

  /** lock_release() takes exactly the donors that wait for this lock off the releasing
      thread's list, leaves the other lists alone, and drops its priority to the largest
      of its base and the remaining donors' priorities. */
  lemma ReleaseRetracts(s: State, l: Sid)
    requires Inv(s) && InUserCode(s) && Link(s.sync.holder, l) == Some(s.run.current)
    ensures var c, d, d' := s.run.current, s.don, SchedState.Release(s, l).don;
            && (forall u :: u in List(d'.donors, c) <==> u in List(d.donors, c) && Link(s.sync.required, u) != Some(l))
            && (forall h | h != c :: List(d'.donors, h) == List(d.donors, h))
            && (forall t | t != c :: Num(d'.priority, t) == Num(d.priority, t))
            && Effective(d', c)
  {
    var c, d, d' := s.run.current, s.don, SchedState.Release(s, l).don;
    ReleaseDonations(s, l);
    forall u
      ensures u in List(d'.donors, c) <==> u in List(d.donors, c) && Link(s.sync.required, u) != Some(l)
    {
      RetractedDonor(s, l, c, u);
    }
    forall h | h != c
      ensures List(d'.donors, h) == List(d.donors, h)
    {
      RetractedOthers(s, l, h);
    }
    assert Effective(d', c) by {
      ReleaseKeepsInv(s, l);
    }
  }

  /* ----- Semaphore values over a run ----- */

  ghost predicate Raises(e: Event, k: Sid)
  {
    e == Up(k) || e == Event.Release(k)
  }

  /** A down on `k` completes, at once or after a wake-up. */
  ghost predicate Completes(s: State, e: Event, k: Sid)
  {
    && Num(s.sync.value, k) > 0
    && (e == Down(k) || e == Event.TryDown(k) || e == Event.Acquire(k) || e == Event.TryAcquire(k)
        || (e == Resume && Link(s.sync.waitsFor, s.run.current) == Some(k)))
  }

  function One(b: bool): nat
  {
    if b then 1 else 0
  }

  ghost function Ups(es: seq<Event>, k: Sid): nat
  {
    if es == [] then 0 else One(Raises(es[0], k)) + Ups(es[1..], k)
  }

  ghost function Downs(s: State, es: seq<Event>, k: Sid): nat
    requires IsRun(s, es)
    decreases |es|
  {
    if es == [] then 0 else One(Completes(s, es[0], k)) + Downs(Step(s, es[0]), es[1..], k)
  }

  lemma {:induction false} DonateSync(s: State, t: Tid, n: nat)
    requires ChainEnds(s.sync, t, n)
    ensures Donate(s, t, n).sync == s.sync && Donate(s, t, n).run.current == s.run.current
    decreases n
  {
    if n > 0 {
      DonateSync(WalkState(s, t), WalkNext(s.sync, t), n - 1);
    }
  }

  lemma AcquireSync(s: State, l: Sid)
    requires Enabled(s, Event.Acquire(l)) && (LockFree(s.sync, l) || LockHeld(s.sync, l))
    ensures LockFree(s.sync, l) ==> AcquireStep(s, l).sync.value == s.sync.value[l := 0]
    ensures LockHeld(s.sync, l) ==> AcquireStep(s, l).sync.value == s.sync.value
    ensures AcquireStep(s, l).sync.holder.Keys == s.sync.holder.Keys
  {
    if Link(s.sync.holder, l).Some? {
      var y := Require(s.sync, s.run.current, l);
      var n: nat :| ChainEnds(y, s.run.current, n) && AcquireStep(s, l) == SchedAcquire.Acquire(s, l, n);
      var s2 := Donate(s.(sync := y), s.run.current, n);
      assert SchedAcquire.Acquire(s, l, n) == AcquireTurn(s2, l);
      DonateSync(s.(sync := y), s.run.current, n);
      SleepTurnSync(s2, l);
    } else {
      PassTurnSync(s, l);
    }
  }

  lemma SleepTurnSync(s: State, l: Sid)
    requires Num(s.sync.value, l) == 0
    ensures AcquireTurn(s, l).sync == SleepOn(s.sync, s.run.current, l)
  {
  }

  lemma PassTurnSync(s: State, l: Sid)
    requires Num(s.sync.value, l) == 1
    ensures AcquireTurn(s, l).sync.value == s.sync.value[l := 0]
    ensures AcquireTurn(s, l).sync.holder == s.sync.holder[l := Some(s.run.current)]
  {
  }

  lemma SemaUpSync(s: State, k: Sid)
    ensures WakeOne(s, k).sync.value == s.sync.value[k := Num(s.sync.value, k) + 1]
    ensures WakeOne(s, k).sync.holder == s.sync.holder
  {
  }

  lemma RetractSync(s: State, l: Sid)
    ensures Retract(s, l).sync == s.sync.(holder := s.sync.holder[l := None])
  {
  }

  lemma ReleaseParts(s: State, l: Sid, s': State) returns (r: State)
    requires s' == SchedState.Release(s, l)
    ensures r.sync == s.sync.(holder := s.sync.holder[l := None]) && s'.sync == WakeOne(r, l).sync
  {
    r := Retract(s, l);
    RetractSync(s, l);
  }

  lemma ReleaseSync(s: State, l: Sid)
    ensures SchedState.Release(s, l).sync.value == s.sync.value[l := Num(s.sync.value, l) + 1]
    ensures SchedState.Release(s, l).sync.holder == s.sync.holder[l := None]
  {
    var s' := SchedState.Release(s, l);
    var r := ReleaseParts(s, l, s');
    SemaUpSync(r, l);
  }

  /** The steps that go through none of a semaphore's operations. */
  lemma OtherStepSync(s: State, e: Event)
    requires Enabled(s, e) && (e.SetPriority? || e.Create? || e.Exit? || e.Preempt? || e.Tick? || e.IdleBlock?)
    ensures Step(s, e).sync.value == s.sync.value && Step(s, e).sync.holder == s.sync.holder
  {
  }

  lemma DownStepSync(s: State, e: Event)
    requires Enabled(s, e) && (e.Down? || e.TryDown? || e.TryAcquire?)
    requires var k := if e.TryAcquire? then e.l else e.k; Num(s.sync.value, k) >= 0
    ensures var k := if e.TryAcquire? then e.l else e.k;
            Step(s, e).sync.value
            == if Num(s.sync.value, k) > 0 then s.sync.value[k := Num(s.sync.value, k) - 1] else s.sync.value
    ensures Step(s, e).sync.holder.Keys == s.sync.holder.Keys
  {
  }

  lemma ResumeSync(s: State)
    requires Link(s.sync.waitsFor, s.run.current).Some?
    requires Num(s.sync.value, Link(s.sync.waitsFor, s.run.current).value) >= 0
    ensures var k := Link(s.sync.waitsFor, s.run.current).value;
            ResumeStep(s).sync.value
            == if Num(s.sync.value, k) > 0 then s.sync.value[k := Num(s.sync.value, k) - 1] else s.sync.value
    ensures ResumeStep(s).sync.holder.Keys == s.sync.holder.Keys
  {
  }

  /** `k`'s value in `v'` is its value in `v`, up by one if `up` and down by one if `down`. */
  ghost predicate Moves(v: map<Sid, int>, v': map<Sid, int>, k: Sid, up: bool, down: bool)
  {
    k in v' && Num(v', k) == Num(v, k) + One(up) - One(down)
  }

  lemma DownStepValue(s: State, e: Event, k: Sid)
    requires Enabled(s, e) && (e.Down? || e.TryDown? || e.TryAcquire?)
    requires NoLostWakeup(s.sync) && k in s.sync.value
    ensures Moves(s.sync.value, Step(s, e).sync.value, k, Raises(e, k), Completes(s, e, k))
  {
    DownStepSync(s, e);
  }

  lemma UpStepValue(s: State, e: Event, k: Sid)
    requires Enabled(s, e) && (e.Up? || e.Release?) && k in s.sync.value
    ensures Moves(s.sync.value, Step(s, e).sync.value, k, Raises(e, k), Completes(s, e, k))
  {
    if e.Up? { SemaUpSync(s, e.k); } else { ReleaseSync(s, e.l); }
  }

  lemma AcquireStepValue(s: State, l: Sid, k: Sid)
    requires Enabled(s, Event.Acquire(l)) && LocksOk(s.sync) && k in s.sync.value
    ensures Moves(s.sync.value, AcquireStep(s, l).sync.value, k, false, Num(s.sync.value, k) > 0 && k == l)
  {
    AcquireSync(s, l);
  }

  lemma StepValue(s: State, e: Event, k: Sid)
    requires LocksOk(s.sync) && NoLostWakeup(s.sync) && Enabled(s, e) && k in s.sync.value
    ensures Moves(s.sync.value, Step(s, e).sync.value, k, Raises(e, k), Completes(s, e, k))
  {
    match e
    case SemaInit(_, _) =>
    case LockInit(_) =>
    case Acquire(l) => AcquireStepValue(s, l, k);
    case Release(_) => UpStepValue(s, e, k);
    case Up(_) => UpStepValue(s, e, k);
    case Resume => ResumeSync(s);
    case Down(_) => DownStepValue(s, e, k);
    case TryDown(_) => DownStepValue(s, e, k);
    case TryAcquire(_) => DownStepValue(s, e, k);
    case _ => OtherStepSync(s, e);
  }

  /** A semaphore's value is what it was plus the ups less the completed downs. */
  lemma {:induction false} ValueConserved(s: State, es: seq<Event>, k: Sid)
    requires Inv(s) && IsRun(s, es) && k in s.sync.value
    ensures Num(After(s, es).sync.value, k) == Num(s.sync.value, k) + Ups(es, k) - Downs(s, es, k)
    decreases |es|
  {
    if es != [] {
      StepValue(s, es[0], k);
      StepKeepsInv(s, es[0]);
      ValueConserved(Step(s, es[0]), es[1..], k);
    }
  }

  /** Mutual exclusion over a run: a lock free at the start has been acquired as often as
      released, or once more, and then it has a holder. */
  lemma LockHeldIffUnreleased(s: State, es: seq<Event>, l: Sid)
    requires Inv(s) && IsRun(s, es) && l in s.sync.holder && LockFree(s.sync, l)
    ensures l in After(s, es).sync.holder
    ensures Downs(s, es, l) - Ups(es, l) == One(Link(After(s, es).sync.holder, l).Some?)
  {
    RunKeepsInv(s, es);
    ValueConserved(s, es, l);
    LockStays(s, es, l);
  }

  lemma {:induction false} LockStays(s: State, es: seq<Event>, l: Sid)
    requires Inv(s) && IsRun(s, es) && l in s.sync.holder
    ensures l in After(s, es).sync.holder
    decreases |es|
  {
    if es != [] {
      StepKeepsInv(s, es[0]);
      LockStaysStep(s, es[0], l);
      LockStays(Step(s, es[0]), es[1..], l);
    }
  }

  lemma LockStaysStep(s: State, e: Event, l: Sid)
    requires LocksOk(s.sync) && NoLostWakeup(s.sync) && Enabled(s, e) && l in s.sync.holder
    ensures l in Step(s, e).sync.holder
  {
    match e
    case SemaInit(_, _) =>
    case LockInit(_) =>
    case Acquire(k) => AcquireSync(s, k);
    case Release(k) => ReleaseSync(s, k);
    case Up(k) => SemaUpSync(s, k);
    case Resume => ResumeSync(s);
    case Down(_) => DownStepSync(s, e);
    case TryDown(_) => DownStepSync(s, e);
    case TryAcquire(_) => DownStepSync(s, e);
    case _ => OtherStepSync(s, e);
  }
}
