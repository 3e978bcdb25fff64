/** The steps of the kernel, one for each interrupts-off region, and that each keeps
    the invariant. */
module SchedSteps {
  import opened SchedState
  import opened SchedQueue
  import opened SchedDonation
  import opened SchedInvariant

  /* ----- The donation side of a step that leaves donations alone ----- */

  /** Nobody who donates is affected. */
  lemma DonationOkFrame(d: Donations, y: Sync, y': Sync)
    requires DonationOk(d, y)
    requires forall u | Link(d.donatedTo, u).Some? ::
               && Link(y'.required, u) == Link(y.required, u)
               && HolderFor(y, u) == Link(y'.holder, Link(y.required, u).value)
               && u in List(y'.waiters, Link(y.required, u).value)
    ensures DonationOk(d, y')
  {
  }

  lemma PreemptKeepsInv(s: State)
    requires Inv(s)
    ensures Inv(Preempt(s))
  {
    MaxYieldOk(s.run, s.don.priority);
    SyncOkScheduled(s.run, MaxYield(s.run, s.don.priority), s.sync);
  }

  /** A running or ready thread donates to nobody. */
  lemma AwakeIsNoDonor(s: State, t: Tid)
    requires SleepersWait(s.run, s.sync) && DonorsBlocked(s.don, s.sync) && !Asleep(s.run, t)
    ensures Link(s.don.donatedTo, t).None?
  {
  }

  /* ----- thread_yield(), and the idle thread's thread_block() ----- */

  lemma YieldKeepsInv(s: State)
    requires Inv(s)
    ensures Inv(s.(run := Yield(s.run, s.don.priority)))
  {
    YieldOk(s.run, s.don.priority);
    SyncOkScheduled(s.run, Yield(s.run, s.don.priority), s.sync);
  }

  lemma IdleBlockKeepsInv(s: State)
    requires Inv(s) && s.run.current == s.run.idle
    ensures Inv(s.(run := Block(s.run)))
  {
    BlockOk(s.run, s.don.priority);
    SyncOkScheduled(s.run, Block(s.run), s.sync);
  }

  /* ----- sema_down() and sema_try_down() ----- */

  /** A turn of sema_down() that goes (back) to sleep, on a semaphore or inside lock_acquire(). */
  lemma DownTurnSleeps(s: State, k: Sid)
    requires Inv(s) && k in s.sync.value && Num(s.sync.value, k) == 0 && s.run.current != s.run.idle
    requires Link(s.sync.waitsFor, s.run.current) == if k in s.sync.holder then Some(k)
                                                     else Link(s.sync.waitsFor, s.run.current)
    requires Link(s.sync.waitsFor, s.run.current).None? || Link(s.sync.waitsFor, s.run.current) == Some(k)
    ensures Inv(DownTurn(s, k))
  {
    var c, y, q' := s.run.current, s.sync, Block(s.run);
    var y' := SleepOn(y, c, k);
    BlockOk(s.run, s.don.priority);
    SleepOnSemasOk(s.run, q', y, k);
    assert WaitForOk(q', y') by {
      forall t
        ensures Link(y'.required, t) == LockWaitedFor(y', t)
      {
        SleepOnLists(y, c, k, k, t);
        assert Link(y.required, t) == LockWaitedFor(y, t);
      }
      NoDeadlockSame(y, y');
    }
    SleepKeepsDonations(s.don, y, c, k);
  }

  lemma SleepKeepsDonations(d: Donations, y: Sync, c: Tid, k: Sid)
    requires DonationOk(d, y)
    ensures DonationOk(d, SleepOn(y, c, k))
  {
    forall u | Link(d.donatedTo, u).Some?
      ensures u in List(SleepOn(y, c, k).waiters, Link(y.required, u).value)
    {
      SleepOnLists(y, c, k, Link(y.required, u).value, u);
    }
    DonationOkFrame(d, y, SleepOn(y, c, k));
  }

  lemma NoDeadlockSame(y: Sync, y': Sync)
    requires NoDeadlock(y) && y'.required == y.required && y'.holder == y.holder
    ensures NoDeadlock(y')
  {
    forall t
      ensures Grounded(y', t)
    {
      assert Grounded(y, t);
      var n: nat :| GroundedIn(y, t, n);
      GroundedSame(y, y', t, n);
    }
  }

  lemma {:induction false} GroundedSame(y: Sync, y': Sync, t: Tid, n: nat)
    requires GroundedIn(y, t, n) && y'.required == y.required && y'.holder == y.holder
    ensures GroundedIn(y', t, n)
    decreases n
  {
    if n > 0 {
      GroundedSame(y, y', Next(y, t).value, n - 1);
    }
  }

  /** sema_down() getting through */
  lemma DownTurnPasses(s: State, k: Sid)
    requires Inv(s) && k in s.sync.value && Num(s.sync.value, k) > 0 && k !in s.sync.holder
    requires Link(s.sync.waitsFor, s.run.current).None? || Link(s.sync.waitsFor, s.run.current) == Some(k)
    ensures Inv(DownTurn(s, k))
  {
    var c, y := s.run.current, s.sync;
    var y' := PassThrough(y, c, k);
    PassThroughSemasOk(s.run, y, k);
    assert WaitForOk(s.run, y') by {
      forall t
        ensures Link(y'.required, t) == LockWaitedFor(y', t)
      {
        assert Link(y.required, t) == LockWaitedFor(y, t);
      }
      NoDeadlockSame(y, y');
    }
    DonationOkFrame(s.don, y, y');
  }

  lemma TryDownKeepsInv(s: State, k: Sid)
    requires Inv(s) && k in s.sync.value && k !in s.sync.holder
    ensures Inv(TryDown(s, k))
  {
    var y := s.sync;
    if Num(y.value, k) > 0 {
      var y' := y.(value := y.value[k := Num(y.value, k) - 1]);
      LowerSemasOk(s.run, y, y', k);
      NoDeadlockSame(y, y');
      assert WaitForOk(s.run, y') by { assert forall t :: LockWaitedFor(y', t) == LockWaitedFor(y, t); }
      DonationOkFrame(s.don, y, y');
    }
  }

  lemma LowerSemasOk(q: RunQueue, y: Sync, y': Sync, k: Sid)
    requires SemasOk(q, y) && k in y.value && Num(y.value, k) > 0 && y' == y.(value := y.value[k := Num(y.value, k) - 1])
    ensures SemasOk(q, y')
  {
    forall x
      ensures 0 <= Num(y'.value, x) && (List(y'.waiters, x) != [] ==> Num(y'.value, x) <= |Woken(y', x)|)
    {
      assert Woken(y', x) == Woken(y, x);
    }
  }
}
