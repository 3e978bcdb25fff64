/** Whole runs of the scheduler: the steps, and what every run keeps. */
module SchedRuns {
  import opened SchedState
  import opened SchedQueue
  import opened SchedDonation
  import opened SchedInvariant
  import opened SchedSteps
  import opened SchedLocks
  import opened SchedAcquire

  /** One interrupts-off region.  Up, Preempt and Tick may also come from an interrupt
      handler, on top of any thread that has interrupts on; Resume is what a woken thread
      does first, before interrupts come on again: it tests the semaphore once more.
      sema_up(), thread_create() and thread_set_priority() turn interrupts on again before
      they call thread_max_yield(), so that call is a step of its own, Preempt. */
  datatype Event =
    | SemaInit(k: Sid, v: nat)
    | LockInit(l: Sid)
    | Down(k: Sid)
    | TryDown(k: Sid)
    | Up(k: Sid)
    | Acquire(l: Sid)
    | TryAcquire(l: Sid)
    | Release(l: Sid)
    | SetPriority(p: int)
    | Create(t: Tid, p: int)
    | Exit
    | Preempt
    | Tick
    | IdleBlock
    | Resume

  /** The chain precondition of a contended lock_acquire(): the chain of holders ends, and
      every thread on it that requires a lock sleeps on that lock. */
  ghost predicate ChainReady(s: State, l: Sid)
  {
    Link(s.sync.holder, l).Some? ==>
      && ChainFinite(Require(s.sync, s.run.current, l), s.run.current)
      && ChainAsleep(Require(s.sync, s.run.current, l), s.run.current)
  }

  ghost predicate IsSema(y: Sync, k: Sid)
  {
    k in y.value && k !in y.holder
  }

  /** When a step may be taken: the assertions of the source, and the contracts of locks
      and semaphores it takes for granted. */
  ghost predicate Enabled(s: State, e: Event)
  {
    var c, y := s.run.current, s.sync;
    if Link(y.waitsFor, c).Some? then e.Resume?
    else
      && !e.Resume?
      && (c == s.run.idle ==> e.Up? || e.Preempt? || e.Tick? || e.IdleBlock?)
      && match e
         case SemaInit(k, v) => k !in y.value
         case LockInit(l) => l !in y.value
         case Down(k) => IsSema(y, k)
         case TryDown(k) => IsSema(y, k)
         case Up(k) => IsSema(y, k)
         case Acquire(l) => l in y.holder && Link(y.holder, l) != Some(c) && ChainReady(s, l)
         case TryAcquire(l) => l in y.holder && Link(y.holder, l) != Some(c)
         case Release(l) => Link(y.holder, l) == Some(c)
         case SetPriority(p) => PRI_MIN <= p <= PRI_MAX
         case Create(t, p) => StatusOf(s.run.status, t) == NoThread && PRI_MIN <= p <= PRI_MAX
         case Exit => forall l :: Link(y.holder, l) != Some(c)
         case IdleBlock => c == s.run.idle
         case _ => true
  }

  ghost function AcquireStep(s: State, l: Sid): State
    requires ChainReady(s, l)
  {
    if Link(s.sync.holder, l).None? then SchedAcquire.Acquire(s, l, 0)
    else
      var n: nat :| ChainEnds(Require(s.sync, s.run.current, l), s.run.current, n);
      SchedAcquire.Acquire(s, l, n)
  }

  function InitSema(s: State, k: Sid, v: nat): State
  {
    s.(sync := s.sync.(value := s.sync.value[k := v], waiters := s.sync.waiters[k := []]))
  }

  function InitLock(s: State, l: Sid): State
  {
    var s1 := InitSema(s, l, 1);
    s1.(sync := s1.sync.(holder := s1.sync.holder[l := None]))
  }

  function ResumeStep(s: State): State
    requires Link(s.sync.waitsFor, s.run.current).Some?
  {
    var k := Link(s.sync.waitsFor, s.run.current).value;
    if k in s.sync.holder then AcquireTurn(s, k) else DownTurn(s, k)
  }

  ghost function Step(s: State, e: Event): (s': State)
    requires Enabled(s, e)
  {
    match e
    case SemaInit(k, v) => InitSema(s, k, v)
    case LockInit(l) => InitLock(s, l)
    case Down(k) => DownTurn(s, k)
    case TryDown(k) => SchedState.TryDown(s, k)
    case Up(k) => WakeOne(s, k)
    case Acquire(l) => AcquireStep(s, l)
    case TryAcquire(l) => SchedState.TryAcquire(s, l)
    case Release(l) => SchedState.Release(s, l)
    case SetPriority(p) => SetBase(s, p)
    case Create(t, p) => Spawn(s, t, p)
    case Exit => SchedState.Exit(s)
    case Preempt => SchedState.Preempt(s)
    case Tick => s.(run := Yield(s.run, s.don.priority))
    case IdleBlock => s.(run := Block(s.run))
    case Resume => ResumeStep(s)
  }

  /** The state once thread_start() is done: the initial thread runs, the idle thread has
      blocked itself. */
  function Boot(main: Tid, idle: Tid): State
  {
    State(RunQueue(map[main := Running, idle := Blocked], [], main, idle),
          Donations(map[main := 31, idle := 0], map[main := 31, idle := 0], map[], map[]),
          Sync(map[], map[], map[], map[], map[]))
  }

  lemma BootInv(main: Tid, idle: Tid)
    requires main != idle
    ensures Inv(Boot(main, idle))
  {
    var s := Boot(main, idle);
    forall t
      ensures Grounded(s.sync, t)
    {
      assert GroundedIn(s.sync, t, 0);
    }
  }

  /* ----- Initialisation of semaphores and locks ----- */

  function FrontOr(xs: seq<Tid>, t: Tid): Tid
  {
    if xs == [] then t else xs[0]
  }

  lemma EmptyIfNone(xs: seq<Tid>)
    requires forall x :: x !in xs
    ensures xs == []
  {
    assert xs == [] || FrontOr(xs, 0) in xs;
  }

  lemma InitKeepsSync(q: RunQueue, y: Sync, y': Sync, k: Sid)
    requires SyncOk(q, y) && k !in y.value
    requires y'.required == y.required && y'.waitsFor == y.waitsFor
    requires k in y'.value && y'.value == y.value[k := y'.value[k]] && y'.value[k] >= 0
    requires y'.waiters == y.waiters[k := []]
    requires y'.holder == y.holder || y'.holder == y.holder[k := None]
    ensures SyncOk(q, y')
  {
    assert forall t :: t in List(y.waiters, k) ==> Link(y.waitsFor, t) == Some(k);
    EmptyIfNone(List(y.waiters, k));
    assert forall x :: List(y'.waiters, x) == List(y.waiters, x);
    forall x
      ensures 0 <= Num(y'.value, x) && (List(y'.waiters, x) != [] ==> Num(y'.value, x) <= |Woken(y', x)|)
    {
      assert Woken(y', x) == Woken(y, x);
    }
    assert SemasOk(q, y');
    forall l
      ensures Link(y'.holder, l) == Link(y.holder, l)
    {
    }
    forall t
      ensures LockWaitedFor(y', t) == LockWaitedFor(y, t)
      ensures Next(y', t) == Next(y, t)
    {
    }
    assert NoDeadlock(y') by {
      assert Link(y.waitsFor, q.idle).None?;
      assert Link(y.required, q.idle) == LockWaitedFor(y, q.idle);
      NoDeadlockSink(y, y', q.idle);
    }
  }

  lemma InitKeepsInv(s: State, y': Sync, k: Sid)
    requires Inv(s) && k !in s.sync.value
    requires y'.required == s.sync.required && y'.waitsFor == s.sync.waitsFor
    requires k in y'.value && y'.value == s.sync.value[k := y'.value[k]] && y'.value[k] >= 0
    requires y'.waiters == s.sync.waiters[k := []]
    requires y'.holder == s.sync.holder || (y'.holder == s.sync.holder[k := None] && y'.value[k] == 1)
    ensures Inv(s.(sync := y'))
  {
    InitKeepsSync(s.run, s.sync, y', k);
    forall l | l in y'.holder
      ensures LockFree(y', l) || LockHeld(y', l)
    {
      if l in s.sync.holder { assert LockFree(s.sync, l) || LockHeld(s.sync, l); }
    }
    forall u | Link(s.don.donatedTo, u).Some?
      ensures u in List(y'.waiters, Link(s.sync.required, u).value)
    {
      assert Link(s.sync.required, u) == LockWaitedFor(s.sync, u);
    }
    DonationOkFrame(s.don, s.sync, y');
  }

  /* ----- Priorities, creation and exit ----- */

  lemma SetPriorityKeepsInv(s: State, p: int)
    requires Inv(s) && s.run.current != s.run.idle && PRI_MIN <= p <= PRI_MAX
    ensures Inv(SetBase(s, p))
  {
    var c := s.run.current;
    var d1 := s.don.(base := s.don.base[c := p]);
    var d2 := Renew(d1, c);
    AwakeIsNoDonor(s, c);
    assert forall t :: Num(d1.base, t) == if t == c then p else Num(s.don.base, t);
    assert Coherent(d1, s.sync);
    forall t | t != c
      ensures Effective(d1, t)
    {
      EffectiveFrame(s.don, d1, t);
    }
    RenewEndsDefect(d1, s.sync, c);
    ReinsertOk(s.run, c, s.don.priority, Num(d2.priority, c));
  }

  /** A thread that does not exist is on no list and has no donors. */
  lemma DeadIsUnused(s: State, t: Tid)
    requires Inv(s) && !Alive(s.run, t)
    ensures Link(s.don.donatedTo, t).None? && List(s.don.donors, t) == []
    ensures Link(s.sync.waitsFor, t).None? && Link(s.sync.required, t).None?
  {
    AwakeIsNoDonor(s, t);
    assert Link(s.sync.required, t) == LockWaitedFor(s.sync, t);
    assert forall u :: u in List(s.don.donors, t) ==> Link(s.don.donatedTo, u) == Some(t);
    EmptyIfNone(List(s.don.donors, t));
  }

  /** init_thread() on the donation members of a fresh thread */
  function FreshDonations(d: Donations, t: Tid, p: int): Donations
  {
    Donations(d.priority[t := p], d.base[t := p], d.donors[t := []], d.donatedTo[t := None])
  }

  lemma FreshSorted(xs: seq<Tid>, t: Tid, pri: map<Tid, int>, p: int)
    requires Sorted(xs, pri) && t !in xs
    ensures Sorted(xs, pri[t := p])
  {
    forall i | 0 <= i < |xs|
      ensures Num(pri[t := p], xs[i]) == Num(pri, xs[i])
    {
      assert xs[i] in xs;
    }
  }

  lemma CreateLinked(d: Donations, t: Tid, p: int)
    requires Linked(d) && Link(d.donatedTo, t).None? && List(d.donors, t) == []
    ensures Linked(FreshDonations(d, t, p))
  {
    var d' := FreshDonations(d, t, p);
    forall h
      ensures List(d'.donors, h) == List(d.donors, h)
      ensures Sorted(List(d'.donors, h), d'.priority) && Distinct(List(d'.donors, h))
    {
      assert Sorted(List(d.donors, h), d.priority) && Distinct(List(d.donors, h));
      assert t !in List(d.donors, h);
      FreshSorted(List(d.donors, h), t, d.priority, p);
    }
    forall h, u
      ensures u in List(d'.donors, h) <==> Link(d'.donatedTo, u) == Some(h)
    {
      assert u in List(d.donors, h) <==> Link(d.donatedTo, u) == Some(h);
    }
  }

  lemma CreateDonations(s: State, t: Tid, p: int)
    requires Inv(s) && !Alive(s.run, t) && PRI_MIN <= p <= PRI_MAX
    ensures DonationOk(FreshDonations(s.don, t, p), s.sync)
  {
    var d, d' := s.don, FreshDonations(s.don, t, p);
    DeadIsUnused(s, t);
    CreateLinked(d, t, p);
    assert forall u :: Link(d'.donatedTo, u) == Link(d.donatedTo, u);
    assert forall u :: Num(d'.base, u) == if u == t then p else Num(d.base, u);
    forall h
      ensures Effective(d', h)
    {
      if h != t {
        assert t !in List(d.donors, h);
        EffectiveFrame(d, d', h);
      }
    }
  }

  lemma CreateKeepsInv(s: State, t: Tid, p: int)
    requires Inv(s) && !Alive(s.run, t) && PRI_MIN <= p <= PRI_MAX
    ensures Inv(Spawn(s, t, p))
  {
    var d', y := FreshDonations(s.don, t, p), s.sync;
    var y' := y.(required := y.required[t := None], waitsFor := y.waitsFor[t := None]);
    var q' := Unblock(s.run, t, d'.priority);
    DeadIsUnused(s, t);
    CreateDonations(s, t, p);
    assert forall u :: Link(y'.waitsFor, u) == Link(y.waitsFor, u) && Link(y'.required, u) == Link(y.required, u);
    assert t !in s.run.ready;
    FreshSorted(s.run.ready, t, s.don.priority, p);
    UnblockOk(s.run, t, d'.priority);
    assert SyncOk(q', y') by { CreateSync(s.run, q', y, y'); }
    DonationOkFrame(d', y, y');
  }

  lemma CreateSync(q: RunQueue, q': RunQueue, y: Sync, y': Sync)
    requires SyncOk(q, y)
    requires forall u :: Link(y'.waitsFor, u) == Link(y.waitsFor, u) && Link(y'.required, u) == Link(y.required, u)
    requires y'.value == y.value && y'.waiters == y.waiters && y'.holder == y.holder
    requires q'.idle == q.idle && forall u :: Asleep(q', u) <==> Asleep(q, u)
    requires forall u | Alive(q, u) :: Alive(q', u)
    ensures SyncOk(q', y')
  {
    forall k
      ensures Woken(y', k) == Woken(y, k)
    {
      forall t
        ensures t in Woken(y', k) <==> t in Woken(y, k)
      {
        assert Link(y'.waitsFor, t) == Link(y.waitsFor, t);
      }
    }
    assert NoDeadlock(y') by {
      assert forall t :: Next(y', t) == Next(y, t);
      assert Link(y.waitsFor, q.idle).None?;
      assert Link(y.required, q.idle) == LockWaitedFor(y, q.idle);
      NoDeadlockSink(y, y', q.idle);
    }
  }

  lemma ExitKeepsInv(s: State)
    requires Inv(s) && InUserCode(s) && s.run.current != s.run.idle
    requires forall l :: Link(s.sync.holder, l) != Some(s.run.current)
    ensures Inv(SchedState.Exit(s))
  {
    ExitOk(s.run, s.don.priority);
  }

  /* ----- All steps ----- */

  lemma ResumeKeepsInv(s: State)
    requires Inv(s) && Link(s.sync.waitsFor, s.run.current).Some?
    ensures Inv(ResumeStep(s))
  {
    var k := Link(s.sync.waitsFor, s.run.current).value;
    if Num(s.sync.value, k) == 0 {
      DownTurnSleeps(s, k);
    } else if k in s.sync.holder {
      AcquireTurnPasses(s, k);
    } else {
      DownTurnPasses(s, k);
    }
  }

  lemma AcquireKeepsInv(s: State, l: Sid)
    requires Inv(s) && Enabled(s, Acquire(l))
    ensures Inv(AcquireStep(s, l))
  {
    if Link(s.sync.holder, l).None? {
      assert LockFree(s.sync, l) || LockHeld(s.sync, l);
      AcquireTurnPasses(s, l);
    } else {
      var y := Require(s.sync, s.run.current, l);
      var n: nat :| ChainEnds(y, s.run.current, n) && AcquireStep(s, l) == SchedAcquire.Acquire(s, l, n);
      AcquireSleeps(s, l, n);
    }
  }

  /** Every step that may be taken keeps the invariant. */
  lemma StepKeepsInv(s: State, e: Event)
    requires Inv(s) && Enabled(s, e)
    ensures Inv(Step(s, e))
  {
    match e
    case SemaInit(k, v) => InitKeepsInv(s, InitSema(s, k, v).sync, k);
    case LockInit(l) => InitKeepsInv(s, InitLock(s, l).sync, l);
    case Down(k) => if Num(s.sync.value, k) == 0 { DownTurnSleeps(s, k); } else { DownTurnPasses(s, k); }
    case TryDown(k) => TryDownKeepsInv(s, k);
    case Up(k) => UpIsReady(s, k); SemaUpKeepsInv(s, k);
    case Acquire(l) => AcquireKeepsInv(s, l);
    case TryAcquire(l) => TryAcquireKeepsInv(s, l);
    case Release(l) => ReleaseKeepsInv(s, l);
    case SetPriority(p) => SetPriorityKeepsInv(s, p);
    case Create(t, p) => CreateKeepsInv(s, t, p);
    case Exit => ExitKeepsInv(s);
    case Preempt => PreemptKeepsInv(s);
    case Tick => YieldKeepsInv(s);
    case IdleBlock => IdleBlockKeepsInv(s);
    case Resume => ResumeKeepsInv(s);
  }

  /* ----- Runs ----- */

  /** `es` can be taken one after the other from `s`. */
  ghost predicate IsRun(s: State, es: seq<Event>)
    decreases |es|
  {
    es == [] || (Enabled(s, es[0]) && IsRun(Step(s, es[0]), es[1..]))
  }

  ghost function After(s: State, es: seq<Event>): State
    requires IsRun(s, es)
    decreases |es|
  {
    if es == [] then s else After(Step(s, es[0]), es[1..])
  }

  /** Safety over whole runs. */
  lemma {:induction false} RunKeepsInv(s: State, es: seq<Event>)
    requires Inv(s) && IsRun(s, es)
    ensures Inv(After(s, es))
    decreases |es|
  {
    if es != [] {
      StepKeepsInv(s, es[0]);
      RunKeepsInv(Step(s, es[0]), es[1..]);
    }
  }

  /** Some run from start-up leads to `s`. */
  ghost predicate Reachable(main: Tid, idle: Tid, s: State)
  {
    exists es: seq<Event> :: LeadsTo(Boot(main, idle), es, s)
  }

  ghost predicate LeadsTo(s: State, es: seq<Event>, s': State)
  {
    IsRun(s, es) && After(s, es) == s'
  }

  lemma {:induction false} OneMore(s: State, es: seq<Event>, s1: State, e: Event)
    requires LeadsTo(s, es, s1) && Enabled(s1, e)
    ensures LeadsTo(s, es + [e], Step(s1, e))
    decreases |es|
  {
    var es' := es + [e];
    if es == [] {
      assert es' == [e] && es'[1..] == [];
    } else {
      assert es'[0] == es[0] && es'[1..] == es[1..] + [e];
      OneMore(Step(s, es[0]), es[1..], s1, e);
    }
  }

  lemma BootReachable(main: Tid, idle: Tid)
    ensures Reachable(main, idle, Boot(main, idle))
  {
    assert LeadsTo(Boot(main, idle), [], Boot(main, idle));
  }

  lemma ReachableNext(main: Tid, idle: Tid, s: State, e: Event, s': State)
    requires Reachable(main, idle, s) && Enabled(s, e) && Step(s, e) == s'
    ensures Reachable(main, idle, s')
  {
    var es :| LeadsTo(Boot(main, idle), es, s);
    OneMore(Boot(main, idle), es, s, e);
  }

  lemma ReachableInv(main: Tid, idle: Tid, s: State)
    requires main != idle && Reachable(main, idle, s)
    ensures Inv(s)
  {
    var es :| LeadsTo(Boot(main, idle), es, s);
    BootInv(main, idle);
    RunKeepsInv(Boot(main, idle), es);
  }

  /* ----- Who runs ----- */

  /** Steps that may leave a ready thread above the running one, until thread_max_yield(). */
  predicate Unsettles(e: Event)
  {
    e.Up? || e.Create? || e.SetPriority?
  }

  /** Steps that end in the scheduler, or in thread_max_yield() */
  predicate Settles(e: Event)
  {
    e.Preempt? || e.Tick? || e.Exit? || e.Release? || e.IdleBlock?
  }

  /** Afterwards the highest priority runs, unless the step left that to a later one. */
  lemma StepTop(s: State, e: Event)
    requires Inv(s) && Enabled(s, e)
    requires Settles(e) || (!Unsettles(e) && TopRuns(s.run, s.don.priority))
    ensures TopRuns(Step(s, e).run, Step(s, e).don.priority)
  {
    match e
    case Preempt => MaxYieldOk(s.run, s.don.priority);
    case Tick => YieldOk(s.run, s.don.priority);
    case Exit => ExitOk(s.run, s.don.priority);
    case Release(l) => ReleaseTop(s, l);
    case IdleBlock => BlockOk(s.run, s.don.priority);
    case Acquire(l) => AcquireTop(s, l);
    case Resume => ResumeTop(s);
    case Down(k) => DownTop(s, k);
    case _ =>
  }

  lemma DownTop(s: State, k: Sid)
    requires Inv(s) && TopRuns(s.run, s.don.priority)
    ensures TopRuns(DownTurn(s, k).run, DownTurn(s, k).don.priority)
  {
    BlockOk(s.run, s.don.priority);
  }

  lemma ResumeTop(s: State)
    requires Inv(s) && TopRuns(s.run, s.don.priority) && Link(s.sync.waitsFor, s.run.current).Some?
    ensures TopRuns(ResumeStep(s).run, ResumeStep(s).don.priority)
  {
    DownTop(s, Link(s.sync.waitsFor, s.run.current).value);
  }

  lemma ReleaseTop(s: State, l: Sid)
    requires Inv(s) && InUserCode(s) && Link(s.sync.holder, l) == Some(s.run.current)
    ensures TopRuns(SchedState.Release(s, l).run, SchedState.Release(s, l).don.priority)
  {
    RetractIsReady(s, l);
    var s1 := WakeOne(Retract(s, l), l);
    SemaUpKeepsInv(Retract(s, l), l);
    MaxYieldOk(s1.run, s1.don.priority);
  }

  lemma AcquireTop(s: State, l: Sid)
    requires Inv(s) && Enabled(s, Acquire(l)) && TopRuns(s.run, s.don.priority)
    ensures TopRuns(AcquireStep(s, l).run, AcquireStep(s, l).don.priority)
  {
    assert LockFree(s.sync, l) || LockHeld(s.sync, l);
    if Link(s.sync.holder, l).Some? {
      var y := Require(s.sync, s.run.current, l);
      var n: nat :| ChainEnds(y, s.run.current, n) && AcquireStep(s, l) == SchedAcquire.Acquire(s, l, n);
      ContendedTop(s, l, n, SchedAcquire.Acquire(s, l, n));
    }
  }

  /** After `es`, thread_max_yield() is still to come; `owed` says so for the start. */
  predicate YieldOwed(owed: bool, es: seq<Event>)
    decreases |es|
  {
    if es == [] then owed else YieldOwed(Unsettles(es[0]) || (owed && !Settles(es[0])), es[1..])
  }

  /** Over whole runs no ready thread has a higher priority than the running one, except
      between a step that wakes, creates or reprioritises a thread and the yield due to it. */
  lemma {:induction false} HighestRuns(s: State, es: seq<Event>, owed: bool)
    requires Inv(s) && IsRun(s, es) && (owed || TopRuns(s.run, s.don.priority))
    ensures YieldOwed(owed, es) || TopRuns(After(s, es).run, After(s, es).don.priority)
    decreases |es|
  {
    if es != [] {
      var e := es[0];
      StepKeepsInv(s, e);
      if Settles(e) || (!Unsettles(e) && TopRuns(s.run, s.don.priority)) { StepTop(s, e); }
      HighestRuns(Step(s, e), es[1..], Unsettles(e) || (owed && !Settles(e)));
    }
  }
}
