/** What every step does, member by member, without reference to the functions that take it:
    waiter lists, holders, base priorities, who exists, who waits and who runs. */
module SchedEffects {
  import opened SchedState
  import opened SchedQueue
  import opened SchedDonation
  import opened SchedInvariant
  import opened SchedSteps
  import opened SchedLocks
  import opened SchedAcquire
  import opened SchedRuns
  import opened SchedTheorems

  /* ----- sema_up() ----- */

  /** `t` is on the list, behind every thread of at least its priority and in front of the rest. */
  ghost predicate InsertedAt(xs: seq<Tid>, xs': seq<Tid>, t: Tid, pri: map<Tid, int>, p: nat)
  {
    && p <= |xs| && xs' == xs[..p] + [t] + xs[p..]
    && (forall j | 0 <= j < p :: Num(pri, xs[j]) >= Num(pri, t))
    && (p < |xs| ==> Num(pri, xs[p]) < Num(pri, t))
  }

  /** The waiter at `i`, and nobody else, leaves the list and becomes ready. */
  ghost predicate WokenAt(s: State, s': State, k: Sid, i: nat)
  {
    var ws := List(s.sync.waiters, k);
    && FirstHighest(ws, s.don.priority, i)
    && List(s'.sync.waiters, k) == ws[..i] + ws[i + 1..]
    && (forall t :: StatusOf(s'.run.status, t) == if t == ws[i] then Ready else StatusOf(s.run.status, t))
    && (exists p: nat :: InsertedAt(s.run.ready, s'.run.ready, ws[i], s.don.priority, p))
    && s'.run.current == s.run.current
  }

  /** While somebody waits, sema_up() wakes the first of the waiters of highest priority. */
  lemma WakesHighest(s: State, k: Sid)
    requires Distinct(List(s.sync.waiters, k)) && List(s.sync.waiters, k) != []
    ensures exists i: nat :: WokenAt(s, WakeOne(s, k), k, i)
  {
    var ws, pri := List(s.sync.waiters, k), s.don.priority;
    var i := HighestPos(ws, pri);
    HighestPosIsFirst(ws, pri);
    WithoutAt(ws, i);
    assert InsertedAt(s.run.ready, WakeOne(s, k).run.ready, ws[i], pri, InsertPos(s.run.ready, Num(pri, ws[i]), pri));
    assert WokenAt(s, WakeOne(s, k), k, i);
  }

  /* ----- Waiter lists ----- */

  /** The semaphore on which a step puts the running thread to sleep */
  ghost function SleepsOn(s: State, e: Event): Option<Sid>
  {
    match e
    case Down(k) => if Num(s.sync.value, k) == 0 then Some(k) else None
    case Acquire(l) => if Num(s.sync.value, l) == 0 then Some(l) else None
    case Resume =>
      var k := Link(s.sync.waitsFor, s.run.current);
      if k.Some? && Num(s.sync.value, k.value) == 0 then k else None
    case _ => None
  }

  /** The list of `x` over a step: a thread that goes to sleep joins at the end, a raise takes the
      first of highest priority off, and nothing else happens to it. */
  ghost predicate WaitersStep(s: State, e: Event, s': State, x: Sid)
  {
    var ws, ws' := List(s.sync.waiters, x), List(s'.sync.waiters, x);
    if SleepsOn(s, e) == Some(x) then ws' == ws + [s.run.current]
    else if Raises(e, x) && ws != [] then exists i: nat :: TakenAt(ws, ws', s.don.priority, i)
    else ws' == ws
  }

  ghost predicate TakenAt(ws: seq<Tid>, ws': seq<Tid>, pri: map<Tid, int>, i: nat)
  {
    FirstHighest(ws, pri, i) && ws' == ws[..i] + ws[i + 1..]
  }

  lemma UnusedIsEmpty(s: State, k: Sid)
    requires Inv(s) && k !in s.sync.value
    ensures List(s.sync.waiters, k) == []
  {
    assert forall t :: t in List(s.sync.waiters, k) ==> Link(s.sync.waitsFor, t) == Some(k);
    EmptyIfNone(List(s.sync.waiters, k));
  }

  lemma RaiseWaiters(s: State, k: Sid, ws: seq<Tid>, x: Sid)
    requires ws == List(s.sync.waiters, k) && Distinct(ws)
    ensures var ws' := List(WakeOne(s, k).sync.waiters, x);
            if x == k && ws != [] then exists i: nat :: TakenAt(ws, ws', s.don.priority, i)
            else ws' == List(s.sync.waiters, x)
  {
    if x == k && ws != [] {
      WakesHighest(s, k);
      var i: nat :| WokenAt(s, WakeOne(s, k), k, i);
      assert TakenAt(ws, List(WakeOne(s, k).sync.waiters, k), s.don.priority, i);
    }
  }

  lemma TakenFrame(ws: seq<Tid>, ws': seq<Tid>, pri: map<Tid, int>, pri': map<Tid, int>, i: nat)
    requires TakenAt(ws, ws', pri, i) && forall t | t in ws :: Num(pri', t) == Num(pri, t)
    ensures TakenAt(ws, ws', pri', i)
  {
    assert forall j | 0 <= j < |ws| :: ws[j] in ws;
  }

  /** The priorities of the waiters are the same before and after the donations are withdrawn. */
  lemma RetractPriorities(s: State, l: Sid, t: Tid)
    requires Inv(s) && t in List(s.sync.waiters, l)
    ensures Num(Retract(s, l).don.priority, t) == Num(s.don.priority, t)
  {
    RemoveDonationsEffect(s.don, List(s.sync.waiters, l));
    assert Asleep(s.run, t);
  }

  lemma ReleaseWaiters(s: State, l: Sid, x: Sid)
    requires Inv(s)
    ensures WaitersStep(s, Event.Release(l), SchedState.Release(s, l), x)
  {
    var r, ws := Retract(s, l), List(s.sync.waiters, l);
    RetractSync(s, l);
    assert Distinct(ws);
    RaiseWaiters(r, l, ws, x);
    if x == l && ws != [] {
      var ws' := List(WakeOne(r, l).sync.waiters, l);
      var i: nat :| TakenAt(ws, ws', r.don.priority, i);
      forall t | t in ws ensures Num(s.don.priority, t) == Num(r.don.priority, t) { RetractPriorities(s, l, t); }
      TakenFrame(ws, ws', r.don.priority, s.don.priority, i);
    }
  }

  /** What a contended lock_acquire() leaves of semaphores and locks */
  lemma AcquireLeaves(s: State, l: Sid, s': State)
    requires Enabled(s, Event.Acquire(l)) && (LockFree(s.sync, l) || LockHeld(s.sync, l)) && s' == AcquireStep(s, l)
    ensures LockHeld(s.sync, l) ==> s'.sync == SleepOn(Require(s.sync, s.run.current, l), s.run.current, l)
    ensures LockFree(s.sync, l) ==> s'.sync.waiters == s.sync.waiters && s'.run == s.run && s'.don == s.don
    ensures LockFree(s.sync, l) ==> s'.sync.waitsFor == s.sync.waitsFor[s.run.current := None]
    ensures LockFree(s.sync, l) ==> s'.sync.holder == s.sync.holder[l := Some(s.run.current)]
  {
    if Link(s.sync.holder, l).Some? {
      var y := Require(s.sync, s.run.current, l);
      var n: nat :| ChainEnds(y, s.run.current, n) && AcquireStep(s, l) == SchedAcquire.Acquire(s, l, n);
      var s2 := Donate(s.(sync := y), s.run.current, n);
      assert SchedAcquire.Acquire(s, l, n) == AcquireTurn(s2, l);
      DonateSync(s.(sync := y), s.run.current, n);
      SleepTurnSync(s2, l);
    }
  }

  lemma AcquireWaiters(s: State, l: Sid, x: Sid)
    requires Inv(s) && Enabled(s, Event.Acquire(l))
    ensures WaitersStep(s, Event.Acquire(l), AcquireStep(s, l), x)
  {
    assert LockFree(s.sync, l) || LockHeld(s.sync, l);
    AcquireLeaves(s, l, AcquireStep(s, l));
  }

  lemma DownWaiters(s: State, e: Event, x: Sid)
    requires Enabled(s, e) && (e.Down? || e.TryDown? || e.TryAcquire? || e.Resume?)
    ensures WaitersStep(s, e, Step(s, e), x)
  {
  }

  /** Every step changes the waiter lists as WaitersStep says. */
  lemma StepWaiters(s: State, e: Event, x: Sid)
    requires Inv(s) && Enabled(s, e)
    ensures WaitersStep(s, e, Step(s, e), x)
  {
    match e
    case SemaInit(k, _) => UnusedIsEmpty(s, k);
    case LockInit(l) => UnusedIsEmpty(s, l);
    case Up(k) => assert Distinct(List(s.sync.waiters, k)); RaiseWaiters(s, k, List(s.sync.waiters, k), x);
    case Acquire(l) => AcquireWaiters(s, l, x);
    case Release(l) => ReleaseWaiters(s, l, x);
    case Down(_) => DownWaiters(s, e, x);
    case TryDown(_) => DownWaiters(s, e, x);
    case TryAcquire(_) => DownWaiters(s, e, x);
    case Resume => DownWaiters(s, e, x);
    case _ => OtherStepWaiters(s, e);
  }

  lemma OtherStepWaiters(s: State, e: Event)
    requires Enabled(s, e) && (e.SetPriority? || e.Create? || e.Exit? || e.Preempt? || e.Tick? || e.IdleBlock?)
    ensures Step(s, e).sync.waiters == s.sync.waiters
    ensures !e.Create? ==> Step(s, e).sync.waitsFor == s.sync.waitsFor
  {
  }

  /* ----- Who waits, and for what ----- */

  /** A thread that goes to sleep waits for that semaphore until it has got through; a thread that is
      woken waits for it still. */
  lemma StepWaitsFor(s: State, e: Event, t: Tid)
    requires Inv(s) && Enabled(s, e)
    ensures Link(Step(s, e).sync.waitsFor, t)
         == if t == s.run.current && SleepsOn(s, e).Some? then SleepsOn(s, e)
            else if t == s.run.current && e.Resume? then None
            else Link(s.sync.waitsFor, t)
  {
    match e
    case Acquire(l) =>
      assert LockFree(s.sync, l) || LockHeld(s.sync, l);
      AcquireLeaves(s, l, AcquireStep(s, l));
    case Release(l) => ReleaseLinks(s, l);
    case Create(u, _) => DeadIsUnused(s, u);
    case SemaInit(_, _) =>
    case LockInit(_) =>
    case Down(_) =>
    case TryDown(_) =>
    case TryAcquire(_) =>
    case Up(_) =>
    case Resume =>
    case _ => OtherStepWaiters(s, e);
  }

  lemma ReleaseLinks(s: State, l: Sid)
    ensures SchedState.Release(s, l).sync.waitsFor == s.sync.waitsFor
  {
    RetractSync(s, l);
  }

  /* ----- Holders ----- */

  /** The holder of a lock: whoever gets through becomes it, a release clears it, and nothing else
      changes it. */
  ghost predicate HolderStep(s: State, e: Event, y': Sync, l: Sid)
  {
    Link(y'.holder, l) == if e == Event.Release(l) then None
                          else if Completes(s, e, l) then Some(s.run.current)
                          else Link(s.sync.holder, l)
  }

  lemma StepHolders(s: State, e: Event, l: Sid)
    requires Inv(s) && Enabled(s, e) && l in s.sync.holder
    ensures HolderStep(s, e, Step(s, e).sync, l)
  {
    match e
    case Acquire(k) => AcquireHolder(s, k, l);
    case TryAcquire(k) => TryAcquireHolder(s, k, l);
    case Resume => ResumeHolder(s, l);
    case Release(k) => ReleaseHolder(s, k, l);
    case _ => assert l in s.sync.value; SameHolder(s, e, l);
  }

  lemma ReleaseHolder(s: State, k: Sid, l: Sid)
    ensures HolderStep(s, Event.Release(k), SchedState.Release(s, k).sync, l)
  {
    ReleaseSync(s, k);
  }

  lemma SameHolder(s: State, e: Event, l: Sid)
    requires Enabled(s, e) && l in s.sync.value && l in s.sync.holder
    requires !(e.Acquire? || e.TryAcquire? || e.Resume? || e.Release?)
    ensures HolderStep(s, e, Step(s, e).sync, l)
  {
    if e.Up? {
      SemaUpSync(s, e.k);
    } else if !(e.SemaInit? || e.LockInit? || e.Down? || e.TryDown?) {
      OtherStepSync(s, e);
    }
  }

  lemma AcquireHolder(s: State, k: Sid, l: Sid)
    requires Inv(s) && Enabled(s, Event.Acquire(k)) && l in s.sync.holder
    ensures HolderStep(s, Event.Acquire(k), AcquireStep(s, k).sync, l)
  {
    assert LockFree(s.sync, l) || LockHeld(s.sync, l);
    assert LockFree(s.sync, k) || LockHeld(s.sync, k);
    AcquireLeaves(s, k, AcquireStep(s, k));
  }

  lemma TryAcquireHolder(s: State, k: Sid, l: Sid)
    requires 0 <= Num(s.sync.value, k)
    ensures Link(SchedState.TryAcquire(s, k).sync.holder, l)
         == if k == l && Num(s.sync.value, l) > 0 then Some(s.run.current) else Link(s.sync.holder, l)
  {
  }

  lemma ResumeHolder(s: State, l: Sid)
    requires Link(s.sync.waitsFor, s.run.current).Some? && l in s.sync.holder
    requires 0 <= Num(s.sync.value, l)
    ensures Link(ResumeStep(s).sync.holder, l)
         == if Link(s.sync.waitsFor, s.run.current) == Some(l) && Num(s.sync.value, l) > 0 then Some(s.run.current)
            else Link(s.sync.holder, l)
  {
  }

  /** A semaphore starts with the value it is given, a lock with one unit and no holder. */
  lemma StepInit(s: State, e: Event)
    requires Inv(s) && Enabled(s, e) && (e.SemaInit? || e.LockInit?)
    ensures var k, y := (if e.SemaInit? then e.k else e.l), Step(s, e).sync;
            && Num(y.value, k) == (if e.SemaInit? then e.v else 1) && (k in y.holder <==> e.LockInit?)
            && Link(y.holder, k).None?
            && forall x | x != k :: Num(y.value, x) == Num(s.sync.value, x) && Link(y.holder, x) == Link(s.sync.holder, x)
  {
  }

  /* ----- Base priorities ----- */

  lemma {:induction false} DonateBase(s: State, t: Tid, n: nat, d': Donations)
    requires ChainEnds(s.sync, t, n) && d' == Donate(s, t, n).don
    ensures d'.base == s.don.base
    decreases n
  {
    if n == 0 {
      assert d' == Renew(s.don, t);
    } else {
      var s1 := HopKeepsBase(s, t, n);
      DonateBase(s1, HolderFor(s.sync, t).value, n - 1, d');
    }
  }

  lemma HopKeepsBase(s: State, t: Tid, n: nat) returns (s1: State)
    requires n > 0 && ChainEnds(s.sync, t, n)
    ensures var h := HolderFor(s.sync, t).value;
            && s1.sync == s.sync && ChainEnds(s.sync, h, n - 1) && Donate(s, t, n) == Donate(s1, h, n - 1)
            && s1.don.base == s.don.base
  {
    s1 := WalkState(s, t);
    DonateUnfolds(s, t, n);
  }

  lemma AcquireBase(s: State, l: Sid)
    requires Enabled(s, Event.Acquire(l))
    ensures AcquireStep(s, l).don.base == s.don.base
  {
    if Link(s.sync.holder, l).Some? {
      var y := Require(s.sync, s.run.current, l);
      var n: nat :| ChainEnds(y, s.run.current, n) && AcquireStep(s, l) == SchedAcquire.Acquire(s, l, n);
      var s2 := Donate(s.(sync := y), s.run.current, n);
      DonateBase(s.(sync := y), s.run.current, n, s2.don);
      assert SchedAcquire.Acquire(s, l, n) == AcquireTurn(s2, l);
    }
  }

  lemma ReleaseBase(s: State, l: Sid)
    requires Linked(s.don)
    ensures SchedState.Release(s, l).don.base == s.don.base
  {
    RemoveDonationsEffect(s.don, List(s.sync.waiters, l));
  }

  /** The base priority of a thread is what it was created with or has set last. */
  lemma StepBases(s: State, e: Event, t: Tid)
    requires Inv(s) && Enabled(s, e)
    ensures Num(Step(s, e).don.base, t)
         == if e.SetPriority? && t == s.run.current then e.p
            else if e.Create? && t == e.t then e.p
            else Num(s.don.base, t)
  {
    match e
    case Acquire(l) => AcquireBase(s, l);
    case Release(l) => ReleaseBase(s, l);
    case _ =>
  }

  /* ----- Who exists and who runs ----- */

  /** Creation adds the thread, exit removes the running one; no other step changes who exists. */
  lemma StepLiving(s: State, e: Event, t: Tid)
    requires Inv(s) && Enabled(s, e)
    ensures Alive(Step(s, e).run, t) <==>
            (Alive(s.run, t) && !(e.Exit? && t == s.run.current)) || (e.Create? && t == e.t)
  {
    var pri := s.don.priority;
    match e
    case Down(_) => BlockOk(s.run, pri);
    case Resume => BlockOk(s.run, pri);
    case IdleBlock => BlockOk(s.run, pri);
    case Tick => YieldOk(s.run, pri);
    case Preempt => MaxYieldOk(s.run, pri);
    case Exit => ExitOk(s.run, pri);
    case Up(k) => WakeLiving(s, k, t);
    case Acquire(l) => AcquireLiving(s, l, t);
    case Release(l) => ReleaseLiving(s, l, t);
    case _ =>
  }

  lemma WakeLiving(s: State, k: Sid, t: Tid)
    requires RunOk(s.run) && SleepersWait(s.run, s.sync)
    ensures Alive(WakeOne(s, k).run, t) <==> Alive(s.run, t)
  {
    var ws := List(s.sync.waiters, k);
    if ws != [] { assert Asleep(s.run, Highest(ws, s.don.priority)); }
  }

  lemma AcquireLiving(s: State, l: Sid, t: Tid)
    requires Inv(s) && Enabled(s, Event.Acquire(l))
    ensures Alive(AcquireStep(s, l).run, t) <==> Alive(s.run, t)
  {
    assert LockFree(s.sync, l) || LockHeld(s.sync, l);
    if Link(s.sync.holder, l).Some? {
      var s1 := s.(sync := Require(s.sync, s.run.current, l));
      var n: nat :| ChainEnds(s1.sync, s.run.current, n) && AcquireStep(s, l) == SchedAcquire.Acquire(s, l, n);
      var s2 := Donate(s1, s.run.current, n);
      DonateQueue(s1, s.run.current, n);
      assert SchedAcquire.Acquire(s, l, n) == AcquireTurn(s2, l);
      BlockOk(s2.run, s2.don.priority);
    }
  }

  lemma ReleaseLiving(s: State, l: Sid, t: Tid)
    requires Inv(s) && InUserCode(s) && Link(s.sync.holder, l) == Some(s.run.current)
    ensures Alive(SchedState.Release(s, l).run, t) <==> Alive(s.run, t)
  {
    var r := Retract(s, l);
    RetractRunOk(s, l);
    RetractIsReady(s, l);
    WakeLiving(r, l, t);
    SemaUpKeepsInv(r, l);
    MaxYieldOk(WakeOne(r, l).run, r.don.priority);
  }

  /** The running thread goes on running unless it sleeps, yields or exits. */
  lemma StepGoesOn(s: State, e: Event)
    requires Inv(s) && Enabled(s, e) && SleepsOn(s, e).None? && !Settles(e)
    ensures Step(s, e).run.current == s.run.current
  {
    match e
    case Acquire(l) =>
      assert LockFree(s.sync, l) || LockHeld(s.sync, l);
      AcquireLeaves(s, l, AcquireStep(s, l));
    case _ =>
  }

  /** thread_yield(): the running thread goes on exactly if every ready thread is below it.  Otherwise
      the front of the ready list runs, and the thread waits behind all that are not below it. */
  lemma YieldGivesWay(s: State)
    requires Inv(s) && s.run.current != s.run.idle
    ensures var c, q, q', pri := s.run.current, s.run, Yield(s.run, s.don.priority), s.don.priority;
            if forall t | t in q.ready :: Num(pri, t) < Num(pri, c) then q'.current == c && q'.ready == q.ready
            else q.ready != [] && q'.current == q.ready[0] && exists p: nat :: InsertedAt(q.ready[1..], q'.ready, c, pri, p)
  {
    var c, q, pri := s.run.current, s.run, s.don.priority;
    var p := InsertPos(q.ready, Num(pri, c), pri);
    if p == 0 {
      forall t | t in q.ready ensures Num(pri, t) < Num(pri, c) { var i :| 0 <= i < |q.ready| && q.ready[i] == t; }
      assert ([c] + q.ready)[1..] == q.ready;
    } else {
      assert q.ready[0] in q.ready;
      assert InsertedAt(q.ready[1..], Yield(q, pri).ready, c, pri, p - 1);
    }
  }

  /** thread_max_yield(): the running thread yields exactly if a ready one is above it. */
  lemma PreemptsOnlyUp(s: State)
    requires Inv(s)
    ensures TopRuns(s.run, s.don.priority) ==> SchedState.Preempt(s) == s
    ensures !TopRuns(s.run, s.don.priority) ==>
              && s.run.ready != [] && SchedState.Preempt(s).run.current == s.run.ready[0]
              && Num(s.don.priority, s.run.ready[0]) > Num(s.don.priority, s.run.current)
              && SchedState.Preempt(s) == s.(run := Yield(s.run, s.don.priority))
  {
    var q, pri := s.run, s.don.priority;
    if !TopRuns(q, pri) {
      var t :| t in q.ready && Num(pri, t) > Num(pri, q.current);
      var i :| 0 <= i < |q.ready| && q.ready[i] == t;
      assert Num(pri, q.ready[0]) >= Num(pri, q.ready[i]);
      assert InsertPos(q.ready, Num(pri, q.current), pri) > 0;
    } else if q.ready != [] {
      assert q.ready[0] in q.ready;
    }
  }
}
