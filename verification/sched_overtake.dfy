/** A run of three threads of one priority in which the ready thread in front falls behind
    the other: the third thread acquires the lock it holds. */
module SchedOvertake {
  import opened SchedState
  import opened SchedDonation
  import opened SchedInvariant
  import opened SchedAcquire
  import opened SchedRuns
  import opened SchedHang
  import opened SchedFifo

  const THIRD: Tid := 3

  function MainHoldsA(): State
  {
    OneLock().(sync := Sync(map[MAIN := None], map[MAIN := None], map[LOCK_A := 0], map[LOCK_A := []],
                            map[LOCK_A := Some(MAIN)]))
  }

  lemma ToMainHoldsA()
    ensures Enabled(OneLock(), Event.Acquire(LOCK_A)) && Step(OneLock(), Event.Acquire(LOCK_A)) == MainHoldsA()
  {
  }

  /** The other thread is created. */
  function TwoThreads(): State
  {
    State(RunQueue(map[MAIN := Running, IDLE := Blocked, OTHER := Ready], [OTHER], MAIN, IDLE),
          Donations(PRIORITIES, PRIORITIES, map[OTHER := []], map[OTHER := None]),
          Sync(map[MAIN := None, OTHER := None], map[MAIN := None, OTHER := None],
               map[LOCK_A := 0], map[LOCK_A := []], map[LOCK_A := Some(MAIN)]))
  }

  lemma ToTwoThreads()
    ensures Enabled(MainHoldsA(), Event.Create(OTHER, 31))
    ensures Step(MainHoldsA(), Event.Create(OTHER, 31)) == TwoThreads()
  {
  }

  const EQUAL: map<Tid, int> := PRIORITIES[THIRD := 31]

  /** Donations and locks of three threads */
  function Three(q: RunQueue): State
  {
    State(q, Donations(EQUAL, EQUAL, map[OTHER := [], THIRD := []], map[OTHER := None, THIRD := None]),
          Sync(map[MAIN := None, OTHER := None, THIRD := None], map[MAIN := None, OTHER := None, THIRD := None],
               map[LOCK_A := 0], map[LOCK_A := []], map[LOCK_A := Some(MAIN)]))
  }

  function ThreeThreads(): State
  {
    Three(RunQueue(map[MAIN := Running, IDLE := Blocked, OTHER := Ready, THIRD := Ready], [OTHER, THIRD], MAIN, IDLE))
  }

  lemma ToThreeThreads()
    ensures Enabled(TwoThreads(), Event.Create(THIRD, 31))
    ensures Step(TwoThreads(), Event.Create(THIRD, 31)) == ThreeThreads()
  {
    var s, s' := TwoThreads(), ThreeThreads();
    assert InsertOrdered([OTHER], THIRD, EQUAL) == [OTHER, THIRD];
    assert s.run.status[THIRD := Ready] == s'.run.status;
    assert s.don.donors[THIRD := []] == s'.don.donors && s.don.donatedTo[THIRD := None] == s'.don.donatedTo;
    assert s.sync.required[THIRD := None] == s'.sync.required;
  }

  function SecondRuns(): State
  {
    Three(RunQueue(map[MAIN := Ready, IDLE := Blocked, OTHER := Running, THIRD := Ready], [THIRD, MAIN], OTHER, IDLE))
  }

  lemma ToSecondRuns()
    ensures Enabled(ThreeThreads(), Tick) && Step(ThreeThreads(), Tick) == SecondRuns()
  {
    var q, q' := ThreeThreads().run, SecondRuns().run;
    assert InsertOrdered([OTHER, THIRD], MAIN, EQUAL) == [OTHER, THIRD, MAIN];
    assert q.status[MAIN := Ready][OTHER := Running] == q'.status;
  }

  /** The third thread runs; the initial thread, which holds the lock, is in front of the
      other. */
  function ThirdRuns(): State
  {
    Three(RunQueue(map[MAIN := Ready, IDLE := Blocked, OTHER := Ready, THIRD := Running], [MAIN, OTHER], THIRD, IDLE))
  }

  lemma ToThirdRuns()
    ensures Enabled(SecondRuns(), Tick) && Step(SecondRuns(), Tick) == ThirdRuns()
  {
    var q, q' := SecondRuns().run, ThirdRuns().run;
    assert InsertOrdered([THIRD, MAIN], OTHER, EQUAL) == [THIRD, MAIN, OTHER];
    assert q.status[OTHER := Ready][THIRD := Running] == q'.status;
  }

  lemma ThreeThreadsReached()
    ensures Reached(ThreeThreads())
  {
    BootReachable(MAIN, IDLE);
    ToOneLock();
    ReachableNext(MAIN, IDLE, Boot(MAIN, IDLE), LockInit(LOCK_A), OneLock());
    ToMainHoldsA();
    ReachableNext(MAIN, IDLE, OneLock(), Event.Acquire(LOCK_A), MainHoldsA());
    ToTwoThreads();
    ReachableNext(MAIN, IDLE, MainHoldsA(), Event.Create(OTHER, 31), TwoThreads());
    ToThreeThreads();
    ReachableNext(MAIN, IDLE, TwoThreads(), Event.Create(THIRD, 31), ThreeThreads());
  }

  lemma ThirdRunsReached()
    ensures Reached(ThirdRuns())
  {
    ThreeThreadsReached();
    ToSecondRuns();
    ReachableNext(MAIN, IDLE, ThreeThreads(), Tick, SecondRuns());
    ToThirdRuns();
    ReachableNext(MAIN, IDLE, SecondRuns(), Tick, ThirdRuns());
  }

  lemma ThirdMayAcquire()
    ensures Enabled(ThirdRuns(), Event.Acquire(LOCK_A))
    ensures Overtakes(ThirdRuns(), Event.Acquire(LOCK_A), MAIN, OTHER)
  {
    var y := Require(ThirdRuns().sync, THIRD, LOCK_A);
    assert ChainEnds(y, MAIN, 0);
    assert ChainEnds(y, THIRD, 1);
    forall i: nat, u | OnChain(y, THIRD, i, u) && u != THIRD
      ensures !Requires(y, u)
    {
      ChainFrom(y, THIRD, 1, i, u);
    }
    assert WalkPos(y, THIRD, 1) == WalkPos(y, MAIN, 0);
    assert OvertakesAlong(ThirdRuns(), LOCK_A, 1, MAIN, OTHER);
  }

  /** Three threads of one priority: the initial thread holds the lock and is in front of the
      other on the ready list until the third one acquires the lock; then it is not, although
      it is still ready. */
  lemma EqualFallsBehind()
    ensures Reached(ThirdRuns()) && Inv(ThirdRuns()) && ThirdRuns().run.ready == [MAIN, OTHER]
    ensures Num(EQUAL, MAIN) == Num(EQUAL, OTHER) == Num(EQUAL, THIRD) == 31
    ensures Enabled(ThirdRuns(), Event.Acquire(LOCK_A))
    ensures var ready' := Step(ThirdRuns(), Event.Acquire(LOCK_A)).run.ready;
            MAIN in ready' && !Before(ready', MAIN, OTHER)
  {
    ThirdRunsReached();
    ReachableInv(MAIN, IDLE, ThirdRuns());
    ThirdMayAcquire();
    var xs := ThirdRuns().run.ready;
    assert xs[0] == MAIN && xs[1] == OTHER;
    assert Before(xs, MAIN, OTHER);
    StepKeepsOrder(ThirdRuns(), Event.Acquire(LOCK_A), MAIN, OTHER);
  }
}
