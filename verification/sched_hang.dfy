/** A run of two threads and two locks after which lock_acquire() never returns: the
    donation walk meets a thread that was woken but has not run yet, so that the lock it
    requires has no holder.  The chain precondition cannot be dropped. */
module SchedHang {
  import opened SchedState
  import opened SchedDonation
  import opened SchedInvariant
  import opened SchedAcquire
  import opened SchedRuns

  const IDLE: Tid := 0
  const MAIN: Tid := 1
  const OTHER: Tid := 2
  const LOCK_A: Sid := 10
  const LOCK_B: Sid := 20

  const PRIORITIES: map<Tid, int> := map[MAIN := 31, IDLE := 0, OTHER := 31]

  /** Two locks, both free. */
  function Locks(): State
  {
    Boot(MAIN, IDLE).(sync := Sync(map[], map[], map[LOCK_A := 1, LOCK_B := 1],
                                   map[LOCK_A := [], LOCK_B := []], map[LOCK_A := None, LOCK_B := None]))
  }

  /** The initial thread holds lock B and has created the other thread. */
  function Created(): State
  {
    State(RunQueue(map[MAIN := Running, IDLE := Blocked, OTHER := Ready], [OTHER], MAIN, IDLE),
          Donations(PRIORITIES, PRIORITIES, map[OTHER := []], map[OTHER := None]),
          Sync(map[MAIN := None, OTHER := None], map[MAIN := None, OTHER := None],
               map[LOCK_A := 1, LOCK_B := 0], map[LOCK_A := [], LOCK_B := []],
               map[LOCK_A := None, LOCK_B := Some(MAIN)]))
  }

  /** The other thread runs and holds lock A. */
  function BothHeld(): State
  {
    State(RunQueue(map[MAIN := Ready, IDLE := Blocked, OTHER := Running], [MAIN], OTHER, IDLE),
          Donations(PRIORITIES, PRIORITIES, map[OTHER := []], map[OTHER := None]),
          Sync(map[MAIN := None, OTHER := None], map[MAIN := None, OTHER := None],
               map[LOCK_A := 0, LOCK_B := 0], map[LOCK_A := [], LOCK_B := []],
               map[LOCK_A := Some(OTHER), LOCK_B := Some(MAIN)]))
  }

  /** The other thread sleeps on lock B and donates to the initial thread. */
  function Asking(): State
  {
    State(RunQueue(map[MAIN := Running, IDLE := Blocked, OTHER := Blocked], [], MAIN, IDLE),
          Donations(PRIORITIES, PRIORITIES, map[OTHER := [], MAIN := [OTHER]], map[OTHER := Some(MAIN)]),
          Sync(map[MAIN := None, OTHER := Some(LOCK_B)], map[MAIN := None, OTHER := Some(LOCK_B)],
               map[LOCK_A := 0, LOCK_B := 0], map[LOCK_A := [], LOCK_B := [OTHER]],
               map[LOCK_A := Some(OTHER), LOCK_B := Some(MAIN)]))
  }

  /** The initial thread has released lock B and still runs; the other thread is ready but
      has not taken the lock yet. */
  function Released(): State
  {
    State(RunQueue(map[MAIN := Running, IDLE := Blocked, OTHER := Ready], [OTHER], MAIN, IDLE),
          Donations(PRIORITIES, PRIORITIES, map[OTHER := [], MAIN := []], map[OTHER := None]),
          Sync(map[MAIN := None, OTHER := Some(LOCK_B)], map[MAIN := None, OTHER := Some(LOCK_B)],
               map[LOCK_A := 0, LOCK_B := 1], map[LOCK_A := [], LOCK_B := []],
               map[LOCK_A := Some(OTHER), LOCK_B := None]))
  }

  function OneLock(): State
  {
    Boot(MAIN, IDLE).(sync := Sync(map[], map[], map[LOCK_A := 1], map[LOCK_A := []], map[LOCK_A := None]))
  }

  lemma ToOneLock()
    ensures Enabled(Boot(MAIN, IDLE), LockInit(LOCK_A)) && Step(Boot(MAIN, IDLE), LockInit(LOCK_A)) == OneLock()
  {
  }

  lemma ToLocks()
    ensures Enabled(OneLock(), LockInit(LOCK_B)) && Step(OneLock(), LockInit(LOCK_B)) == Locks()
  {
  }

  /** The initial thread's state between its lock_acquire() and thread_create(). */
  function MainHoldsB(): State
  {
    Locks().(sync := Sync(map[MAIN := None], map[MAIN := None], map[LOCK_A := 1, LOCK_B := 0],
                          map[LOCK_A := [], LOCK_B := []], map[LOCK_A := None, LOCK_B := Some(MAIN)]))
  }

  lemma ToMainHoldsB()
    ensures Enabled(Locks(), Event.Acquire(LOCK_B)) && Step(Locks(), Event.Acquire(LOCK_B)) == MainHoldsB()
  {
  }

  lemma ToCreated()
    ensures Enabled(MainHoldsB(), Event.Create(OTHER, 31))
    ensures Step(MainHoldsB(), Event.Create(OTHER, 31)) == Created()
  {
  }

  function OtherRuns(): State
  {
    Created().(run := RunQueue(map[MAIN := Ready, IDLE := Blocked, OTHER := Running], [MAIN], OTHER, IDLE))
  }

  lemma ToOtherRuns()
    ensures Enabled(Created(), Tick) && Step(Created(), Tick) == OtherRuns()
  {
    assert InsertOrdered([OTHER], MAIN, PRIORITIES) == [OTHER, MAIN];
  }

  lemma ToBothHeld()
    ensures Enabled(OtherRuns(), Event.Acquire(LOCK_A)) && Step(OtherRuns(), Event.Acquire(LOCK_A)) == BothHeld()
  {
    var y, y' := OtherRuns().sync, BothHeld().sync;
    assert y.value[LOCK_A := 0] == y'.value && y.holder[LOCK_A := Some(OTHER)] == y'.holder;
    assert y.waitsFor[OTHER := None] == y'.waitsFor && y.required[OTHER := None] == y'.required;
    assert AcquireTurn(OtherRuns(), LOCK_A) == BothHeld();
  }

  /** The other thread, about to wait for lock B. */
  function AskingSync(): Sync
  {
    Require(BothHeld().sync, OTHER, LOCK_B)
  }

  lemma AskingChain()
    ensures ChainEnds(AskingSync(), MAIN, 0) && ChainEnds(AskingSync(), OTHER, 1)
    ensures ChainAsleep(AskingSync(), OTHER)
  {
    var y := AskingSync();
    assert ChainEnds(y, MAIN, 0);
    assert ChainEnds(y, OTHER, 1);
    forall i: nat, u | OnChain(y, OTHER, i, u) && u != OTHER
      ensures !Requires(y, u)
    {
      ChainFrom(y, OTHER, 1, i, u);
    }
  }

  lemma AskingDonates()
    requires ChainEnds(AskingSync(), OTHER, 1)
    ensures Donate(BothHeld().(sync := AskingSync()), OTHER, 1) == State(BothHeld().run, Asking().don, AskingSync())
  {
    var s1, s2 := BothHeld().(sync := AskingSync()), State(BothHeld().run, Asking().don, AskingSync());
    assert Renew(s1.don, OTHER) == s1.don;
    assert InsertOrdered([], OTHER, PRIORITIES) == [OTHER];
    assert Pass(s1.don, OTHER, MAIN, true) == s2.don;
    assert WalkState(s1, OTHER) == s2;
    assert Renew(s2.don, MAIN) == s2.don;
    assert InsertOrdered(Without([MAIN], MAIN), MAIN, PRIORITIES) == [MAIN];
  }

  lemma AskingSleeps()
    ensures AcquireTurn(State(BothHeld().run, Asking().don, AskingSync()), LOCK_B) == Asking()
  {
    var y, y' := AskingSync(), Asking().sync;
    assert y.required == y'.required;
    assert y.waitsFor[OTHER := Some(LOCK_B)] == y'.waitsFor;
    assert List(y.waiters, LOCK_B) + [OTHER] == [OTHER];
    assert y.waiters[LOCK_B := [OTHER]] == y'.waiters;
    var q := BothHeld().run;
    assert Block(q).status == Asking().run.status;
    assert Block(q) == Asking().run;
  }

  lemma ToAsking()
    ensures Enabled(BothHeld(), Event.Acquire(LOCK_B)) && Step(BothHeld(), Event.Acquire(LOCK_B)) == Asking()
  {
    var s := BothHeld();
    AskingChain();
    AskingDonates();
    AskingSleeps();
    var n: nat :| ChainEnds(AskingSync(), OTHER, n) && AcquireStep(s, LOCK_B) == SchedAcquire.Acquire(s, LOCK_B, n);
    ChainLengthUnique(AskingSync(), OTHER, 1, n);
    assert SchedAcquire.Acquire(s, LOCK_B, 1)
        == AcquireTurn(State(BothHeld().run, Asking().don, AskingSync()), LOCK_B);
  }

  /** lock_release() before it calls sema_up() */
  function Retracted(): State
  {
    var s := Asking();
    State(s.run, Released().don, s.sync.(holder := map[LOCK_A := Some(OTHER), LOCK_B := None]))
  }

  lemma ToRetracted()
    ensures Retract(Asking(), LOCK_B) == Retracted()
  {
    var s, d := Asking(), Released().don;
    assert RemoveDonation(s.don, OTHER) == d;
    assert RemoveDonations(s.don, [OTHER]) == d;
    assert Renew(d, MAIN) == d;
    assert s.sync.holder[LOCK_B := None] == Retracted().sync.holder;
  }

  lemma RetractedWakes()
    ensures WakeOne(Retracted(), LOCK_B) == Released()
  {
    var s, r := Retracted(), Released();
    assert Without([OTHER], OTHER) == [];
    assert InsertOrdered([], OTHER, PRIORITIES) == [OTHER];
    assert Unblock(s.run, OTHER, PRIORITIES) == r.run;
    assert s.sync.value[LOCK_B := 1] == r.sync.value;
    assert s.sync.waiters[LOCK_B := []] == r.sync.waiters;
  }

  lemma ToReleased()
    ensures Enabled(Asking(), Event.Release(LOCK_B)) && Step(Asking(), Event.Release(LOCK_B)) == Released()
  {
    ToRetracted();
    RetractedWakes();
    assert SchedState.Preempt(Released()) == Released();
  }

  /** The chain from the initial thread, about to acquire lock A, meets lock B, which has
      no holder. */
  lemma ReleasedChainIsBroken()
    ensures !ChainFinite(Require(Released().sync, MAIN, LOCK_A), MAIN)
  {
    var y := Require(Released().sync, MAIN, LOCK_A);
    forall n: nat
      ensures !ChainEnds(y, MAIN, n)
    {
      if n > 0 {
        assert HolderFor(y, MAIN) == Some(OTHER);
        assert !ChainEnds(y, OTHER, n - 1);
      }
    }
  }

  /* ----- The run ----- */

  ghost predicate Reached(s: State)
  {
    Reachable(MAIN, IDLE, s)
  }

  lemma LocksReached()
    ensures Reached(Locks())
  {
    BootReachable(MAIN, IDLE);
    ToOneLock();
    ReachableNext(MAIN, IDLE, Boot(MAIN, IDLE), LockInit(LOCK_A), OneLock());
    ToLocks();
    ReachableNext(MAIN, IDLE, OneLock(), LockInit(LOCK_B), Locks());
  }

  lemma CreatedReached()
    ensures Reached(Created())
  {
    LocksReached();
    ToMainHoldsB();
    ReachableNext(MAIN, IDLE, Locks(), Event.Acquire(LOCK_B), MainHoldsB());
    ToCreated();
    ReachableNext(MAIN, IDLE, MainHoldsB(), Event.Create(OTHER, 31), Created());
  }

  lemma BothHeldReached()
    ensures Reached(BothHeld())
  {
    CreatedReached();
    ToOtherRuns();
    ReachableNext(MAIN, IDLE, Created(), Tick, OtherRuns());
    ToBothHeld();
    ReachableNext(MAIN, IDLE, OtherRuns(), Event.Acquire(LOCK_A), BothHeld());
  }

  lemma ReleasedReached()
    ensures Reached(Released())
  {
    BothHeldReached();
    ToAsking();
    ReachableNext(MAIN, IDLE, BothHeld(), Event.Acquire(LOCK_B), Asking());
    ToReleased();
    ReachableNext(MAIN, IDLE, Asking(), Event.Release(LOCK_B), Released());
  }

  /** A run that keeps every precondition of the source leads to a state in which the
      running thread may call lock_acquire() on lock A, and the loop of
      thread_donate_priority() does not end. */
  lemma AcquireCanHang()
    ensures Reached(Released()) && Inv(Released())
    ensures InUserCode(Released()) && Link(Released().sync.holder, LOCK_A) == Some(OTHER)
    ensures !WalkStops(Released().(sync := Require(Released().sync, MAIN, LOCK_A)), MAIN)
  {
    ReleasedReached();
    ReachableInv(MAIN, IDLE, Released());
    ReleasedChainIsBroken();
    WalkStopsIff(Released().(sync := Require(Released().sync, MAIN, LOCK_A)), MAIN);
  }
}
