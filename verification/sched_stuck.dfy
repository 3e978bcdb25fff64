/** A run in which a donor is not asleep on the lock it requires, and the priority it gave
    outlives the lock: the donation walk meets a thread that was woken, found nothing yet,
    and whose lock has been taken again by the thread that released it. */
module SchedStuck {
  import opened SchedState
  import opened SchedDonation
  import opened SchedInvariant
  import opened SchedAcquire
  import opened SchedRuns
  import opened SchedHang

  const CLIENT: Tid := 3
  const DAEMON: Tid := 4
  const SEMA: Sid := 30

  /** The initial thread has taken lock B again before the other thread, woken for it, ran. */
  function Retaken(): State
  {
    var y := Released().sync;
    Released().(sync := Sync(y.required[MAIN := None], y.waitsFor[MAIN := None], y.value[LOCK_B := 0], y.waiters,
                             y.holder[LOCK_B := Some(MAIN)]))
  }

  lemma ToRetaken()
    ensures Enabled(Released(), Event.Acquire(LOCK_B)) && Step(Released(), Event.Acquire(LOCK_B)) == Retaken()
  {
  }

  /** ... has initialised a semaphore, raised its own priority ... */
  function Raised(): State
  {
    var s := InitSema(Retaken(), SEMA, 0);
    s.(don := s.don.(priority := s.don.priority[MAIN := 41], base := s.don.base[MAIN := 41]))
  }

  lemma ToRaised()
    ensures Enabled(Retaken(), SemaInit(SEMA, 0))
    ensures var s1 := Step(Retaken(), SemaInit(SEMA, 0));
            Enabled(s1, Event.SetPriority(41)) && Step(s1, Event.SetPriority(41)) == Raised()
  {
    assert List(Retaken().don.donors, MAIN) == [];
  }

  /** `s` with a thread more, and the ready list as it is then */
  function Joined(s: State, t: Tid, ready: seq<Tid>): State
  {
    State(RunQueue(s.run.status[t := Ready], ready, s.run.current, s.run.idle), FreshDonations(s.don, t, 40),
          s.sync.(required := s.sync.required[t := None], waitsFor := s.sync.waitsFor[t := None]))
  }

  function OneMoreThread(): State
  {
    Joined(Raised(), CLIENT, [CLIENT, OTHER])
  }

  lemma ToOneMoreThread()
    ensures Enabled(Raised(), Event.Create(CLIENT, 40)) && Step(Raised(), Event.Create(CLIENT, 40)) == OneMoreThread()
  {
    assert InsertOrdered([OTHER], CLIENT, OneMoreThread().don.priority) == [CLIENT, OTHER];
  }

  /** ... and created two threads. */
  function Prepared(): State
  {
    Joined(OneMoreThread(), DAEMON, [CLIENT, DAEMON, OTHER])
  }

  lemma ToPrepared()
    ensures Enabled(OneMoreThread(), Event.Create(DAEMON, 40))
    ensures Step(OneMoreThread(), Event.Create(DAEMON, 40)) == Prepared()
  {
    assert InsertOrdered([CLIENT, OTHER], DAEMON, Prepared().don.priority) == [CLIENT, DAEMON, OTHER];
  }

  /** The initial thread sleeps on the semaphore and the first of the two runs. */
  function ClientRuns(): State
  {
    var q, y := Prepared().run, Prepared().sync;
    State(RunQueue(q.status[MAIN := Blocked][CLIENT := Running], [DAEMON, OTHER], CLIENT, IDLE),
          Prepared().don,
          y.(waiters := y.waiters[SEMA := [MAIN]], waitsFor := y.waitsFor[MAIN := Some(SEMA)]))
  }

  lemma ToClientRuns()
    ensures Enabled(Prepared(), Down(SEMA)) && Step(Prepared(), Down(SEMA)) == ClientRuns()
  {
    assert List(Prepared().sync.waiters, SEMA) + [MAIN] == [MAIN];
  }

  lemma RaisedReached()
    ensures Reached(Raised())
  {
    ReleasedReached();
    ToRetaken();
    ReachableNext(MAIN, IDLE, Released(), Event.Acquire(LOCK_B), Retaken());
    ToRaised();
    var s1 := Step(Retaken(), SemaInit(SEMA, 0));
    ReachableNext(MAIN, IDLE, Retaken(), SemaInit(SEMA, 0), s1);
    ReachableNext(MAIN, IDLE, s1, Event.SetPriority(41), Raised());
  }

  lemma ClientRunsReached()
    ensures Reached(ClientRuns())
  {
    RaisedReached();
    ToOneMoreThread();
    ReachableNext(MAIN, IDLE, Raised(), Event.Create(CLIENT, 40), OneMoreThread());
    ToPrepared();
    ReachableNext(MAIN, IDLE, OneMoreThread(), Event.Create(DAEMON, 40), Prepared());
    ToClientRuns();
    ReachableNext(MAIN, IDLE, Prepared(), Down(SEMA), ClientRuns());
  }

  /* ----- The walk ----- */

  function ClientAsks(): Sync
  {
    Require(ClientRuns().sync, CLIENT, LOCK_A)
  }

  lemma ClientChain()
    ensures ChainEnds(ClientAsks(), MAIN, 0) && ChainEnds(ClientAsks(), OTHER, 1) && ChainEnds(ClientAsks(), CLIENT, 2)
  {
    assert ChainEnds(ClientAsks(), MAIN, 0);
    assert ChainEnds(ClientAsks(), OTHER, 1);
  }

  /** `t`, of priority `p`, is `h`'s first donor. */
  function Hop(s: State, t: Tid, h: Tid, p: int): State
  {
    var d := s.don;
    s.(don := Donations(d.priority[t := p], d.base, d.donors[h := [t]], d.donatedTo[t := Some(h)]))
  }

  lemma WalkHops(s: State, t: Tid, h: Tid, p: int)
    requires Requires(s.sync, t) && HolderFor(s.sync, t) == Some(h)
    requires List(s.don.donors, h) == [] && Link(s.don.donatedTo, t).None? && p == Renewed(s.don, t)
    requires Reinsert(s.run, t, s.don.priority[t := p]) == s.run
    ensures WalkState(s, t) == Hop(s, t, h, p)
  {
    assert InsertOrdered([], t, s.don.priority[t := p]) == [t];
  }

  /** After the first hop: the client donates to the other thread. */
  function FirstHop(): State
  {
    Hop(ClientRuns().(sync := ClientAsks()), CLIENT, OTHER, 40)
  }

  lemma ToFirstHop()
    ensures WalkState(ClientRuns().(sync := ClientAsks()), CLIENT) == FirstHop()
  {
    WalkHops(ClientRuns().(sync := ClientAsks()), CLIENT, OTHER, 40);
  }

  /** After the second: the other thread, which is ready, donates to the initial one. */
  function SecondHop(): State
  {
    Hop(FirstHop(), OTHER, MAIN, 40)
  }

  lemma OtherReinserted(pri: map<Tid, int>)
    requires Num(pri, OTHER) == Num(pri, DAEMON)
    ensures Reinsert(ClientRuns().run, OTHER, pri) == ClientRuns().run
  {
    assert Without([OTHER], OTHER) == [];
    assert Without([DAEMON, OTHER], OTHER) == [DAEMON];
    assert InsertOrdered([DAEMON], OTHER, pri) == [DAEMON, OTHER];
  }

  lemma FirstHopDonations()
    ensures Renewed(FirstHop().don, OTHER) == 40 && Num(FirstHop().don.priority, DAEMON) == 40
    ensures List(FirstHop().don.donors, MAIN) == [] && Link(FirstHop().don.donatedTo, OTHER).None?
  {
  }

  lemma ToSecondHop()
    ensures WalkState(FirstHop(), OTHER) == SecondHop()
  {
    FirstHopDonations();
    OtherReinserted(FirstHop().don.priority[OTHER := 40]);
    WalkHops(FirstHop(), OTHER, MAIN, 40);
  }

  /** The client sleeps on lock A; the second of the two threads runs. */
  function Donated(): State
  {
    var s, y := SecondHop(), ClientAsks();
    State(RunQueue(s.run.status[CLIENT := Blocked][DAEMON := Running], [OTHER], DAEMON, IDLE),
          s.don.(priority := s.don.priority[MAIN := 41]),
          y.(waiters := y.waiters[LOCK_A := [CLIENT]], waitsFor := y.waitsFor[CLIENT := Some(LOCK_A)]))
  }

  lemma ClientSleeps()
    ensures AcquireTurn(ResetPriority(SecondHop(), MAIN), LOCK_A) == Donated()
  {
    assert List(ClientAsks().waiters, LOCK_A) + [CLIENT] == [CLIENT];
  }

  lemma ToDonated()
    requires ChainEnds(ClientAsks(), CLIENT, 2)
    ensures SchedAcquire.Acquire(ClientRuns(), LOCK_A, 2) == Donated()
  {
    var s := ClientRuns().(sync := ClientAsks());
    ClientChain();
    ToFirstHop();
    DonateUnfolds(s, CLIENT, 2);
    ToSecondHop();
    DonateUnfolds(FirstHop(), OTHER, 1);
    ClientSleeps();
  }

  /* ----- What follows ----- */

  /** The running thread wakes the initial one. */
  function MainWoken(): State
  {
    var s := Donated();
    State(RunQueue(s.run.status[MAIN := Ready], [MAIN, OTHER], DAEMON, IDLE), s.don,
          s.sync.(value := s.sync.value[SEMA := 1], waiters := s.sync.waiters[SEMA := []]))
  }

  lemma ToMainWoken()
    ensures Enabled(Donated(), Up(SEMA)) && Step(Donated(), Up(SEMA)) == MainWoken()
  {
    assert Without([MAIN], MAIN) == [];
    assert InsertOrdered([OTHER], MAIN, Donated().don.priority) == [MAIN, OTHER];
  }

  function MainBack(): State
  {
    var s := MainWoken();
    s.(run := RunQueue(s.run.status[DAEMON := Ready][MAIN := Running], [OTHER, DAEMON], MAIN, IDLE))
  }

  lemma ToMainBack()
    ensures Enabled(MainWoken(), Event.Preempt) && Step(MainWoken(), Event.Preempt) == MainBack()
  {
    assert InsertOrdered([MAIN, OTHER], DAEMON, Donated().don.priority) == [MAIN, OTHER, DAEMON];
  }

  /** The initial thread gets through the semaphore, and releases lock B. */
  function Through(): State
  {
    var s := MainBack();
    s.(sync := s.sync.(value := s.sync.value[SEMA := 0], waitsFor := s.sync.waitsFor[MAIN := None]))
  }

  lemma ToThrough()
    ensures Enabled(MainBack(), Resume) && Step(MainBack(), Resume) == Through()
  {
    assert Link(MainBack().sync.waitsFor, MAIN) == Some(SEMA);
  }

  function LetGo(): State
  {
    var s := Through();
    s.(sync := s.sync.(value := s.sync.value[LOCK_B := 1], holder := s.sync.holder[LOCK_B := None]))
  }

  lemma ToLetGo()
    ensures Enabled(Through(), Event.Release(LOCK_B)) && Step(Through(), Event.Release(LOCK_B)) == LetGo()
  {
    assert List(Through().sync.waiters, LOCK_B) == [];
  }

  /** It gives its own priority up again. */
  function Stuck(): State
  {
    var s := LetGo();
    s.(don := s.don.(priority := s.don.priority[MAIN := 40], base := s.don.base[MAIN := 31]))
  }

  lemma ToStuck()
    ensures Enabled(LetGo(), Event.SetPriority(31)) && Step(LetGo(), Event.SetPriority(31)) == Stuck()
  {
    assert List(LetGo().don.donors, MAIN) == [OTHER];
  }

  function Afterwards(): seq<Event>
  {
    [] + [Up(SEMA)] + [Event.Preempt] + [Resume] + [Event.Release(LOCK_B)] + [Event.SetPriority(31)]
  }

  lemma AfterwardsStuck()
    ensures LeadsTo(Donated(), Afterwards(), Stuck())
  {
    var s, es := Donated(), [];
    assert LeadsTo(s, es, s);
    ToMainWoken();
    OneMore(s, es, s, Up(SEMA));
    ToMainBack();
    OneMore(s, es + [Up(SEMA)], MainWoken(), Event.Preempt);
    ToThrough();
    OneMore(s, es + [Up(SEMA)] + [Event.Preempt], MainBack(), Resume);
    ToLetGo();
    OneMore(s, es + [Up(SEMA)] + [Event.Preempt] + [Resume], Through(), Event.Release(LOCK_B));
    ToStuck();
    OneMore(s, es + [Up(SEMA)] + [Event.Preempt] + [Resume] + [Event.Release(LOCK_B)], LetGo(), Event.SetPriority(31));
  }

  lemma StuckIsStuck()
    ensures Stuck().run.current == MAIN && forall l :: Link(Stuck().sync.holder, l) != Some(MAIN)
    ensures Num(Stuck().don.base, MAIN) == 31 && Num(Stuck().don.priority, MAIN) == 40
  {
  }

  lemma DonorIsReady()
    ensures OTHER in Donated().run.ready && Link(Donated().don.donatedTo, OTHER) == Some(MAIN)
    ensures !DonorsBlocked(Donated().don, Donated().sync)
  {
    assert OTHER !in List(Donated().sync.waiters, LOCK_B);
    assert Link(Donated().sync.required, OTHER) == Some(LOCK_B);
  }

  /** A run leads to a state where lock_acquire() returns from its donation walk with a donor
      that is ready, not asleep on the lock it requires.  When the recipient releases that
      lock nobody is on its waiter list, so the donation stays: in the end the recipient
      runs with priority 40, holding no lock, on a base priority of 31. */
  lemma DonationOutlivesLock()
    ensures Reached(ClientRuns()) && Inv(ClientRuns()) && InUserCode(ClientRuns())
    ensures ChainEnds(ClientAsks(), CLIENT, 2) && SchedAcquire.Acquire(ClientRuns(), LOCK_A, 2) == Donated()
    ensures OTHER in Donated().run.ready && !DonorsBlocked(Donated().don, Donated().sync)
    ensures LeadsTo(Donated(), Afterwards(), Stuck())
    ensures Stuck().run.current == MAIN && forall l :: Link(Stuck().sync.holder, l) != Some(MAIN)
    ensures Num(Stuck().don.base, MAIN) == 31 && Num(Stuck().don.priority, MAIN) == 40
  {
    ClientRunsReached();
    ReachableInv(MAIN, IDLE, ClientRuns());
    ClientChain();
    ToDonated();
    DonorIsReady();
    AfterwardsStuck();
    StuckIsStuck();
  }
}
