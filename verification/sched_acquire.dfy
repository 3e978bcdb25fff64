/** lock_acquire() on a lock that is held: donation, then sleep. */
module SchedAcquire {
  import opened SchedState
  import opened SchedQueue
  import opened SchedDonation
  import opened SchedInvariant
  import opened SchedSteps
  import opened SchedLocks

  /** The current thread records the lock it is about to wait for. */
  function Require(y: Sync, c: Tid, l: Sid): Sync
  {
    y.(required := y.required[c := Some(l)])
  }

  /** lock_acquire(), up to the point where the thread holds the lock or sleeps; `n` is
      the number of hops of the donation walk. */
  function Acquire(s: State, l: Sid, ghost n: nat): (s': State)
    requires Link(s.sync.holder, l).Some? ==> ChainEnds(Require(s.sync, s.run.current, l), s.run.current, n)
  {
    if Link(s.sync.holder, l).None? then AcquireTurn(s, l)
    else
      var c := s.run.current;
      AcquireTurn(Donate(s.(sync := Require(s.sync, c, l)), c, n), l)
  }

  /** Every thread up the chain from `c` that requires a lock sleeps on that lock. */
  ghost predicate ChainAsleep(y: Sync, c: Tid)
  {
    forall i: nat, u | OnChain(y, c, i, u) && u != c && Requires(y, u) ::
      u in List(y.waiters, Link(y.required, u).value)
  }

  /* ----- The walk and the ready list ----- */

  lemma WalkStepQueue(s: State, t: Tid)
    requires Requires(s.sync, t) && HolderFor(s.sync, t).Some?
    requires RunOk(s.run) && Sorted(s.run.ready, s.don.priority) && t != s.run.idle
    ensures var s' := WalkState(s, t);
            && RunOk(s'.run) && Sorted(s'.run.ready, s'.don.priority)
            && s'.run == s.run.(ready := s'.run.ready)
  {
    ReinsertOk(s.run, t, s.don.priority, Num(Renew(s.don, t).priority, t));
  }

  /** The ready list is sorted again after the walk; only it has changed. */
  lemma {:induction false} DonateQueue(s: State, t: Tid, n: nat)
    requires ChainEnds(s.sync, t, n) && HoldersAlive(s.run, s.sync)
    requires RunOk(s.run) && Sorted(s.run.ready, s.don.priority) && t != s.run.idle
    ensures var s' := Donate(s, t, n);
            && RunOk(s'.run) && Sorted(s'.run.ready, s'.don.priority)
            && s'.run == s.run.(ready := s'.run.ready) && s'.sync == s.sync
    decreases n
  {
    if n == 0 {
      ReinsertOk(s.run, t, s.don.priority, Num(Renew(s.don, t).priority, t));
    } else {
      WalkStepQueue(s, t);
      DonateQueue(WalkState(s, t), WalkNext(s.sync, t), n - 1);
    }
  }

  /** The links once every thread of the chain of `n` hops from `t` donates to its holder */
  ghost function LinksAfter(y: Sync, to: map<Tid, Option<Tid>>, t: Tid, n: nat): map<Tid, Option<Tid>>
    requires ChainEnds(y, t, n)
    decreases n
  {
    if n == 0 then to else LinksAfter(y, to[t := HolderFor(y, t)], HolderFor(y, t).value, n - 1)
  }

  /** That is what the walk leaves. */
  lemma {:induction false} DonateLinks(s: State, t: Tid, n: nat, to': map<Tid, Option<Tid>>)
    requires ChainEnds(s.sync, t, n) && to' == Donate(s, t, n).don.donatedTo
    ensures to' == LinksAfter(s.sync, s.don.donatedTo, t, n)
    decreases n
  {
    if n == 0 {
      DonateNothing(s, t);
    } else {
      var s1 := DonateNext(s, t, n);
      DonateLinks(s1, HolderFor(s.sync, t).value, n - 1, to');
    }
  }

  lemma DonateNothing(s: State, t: Tid)
    requires ChainEnds(s.sync, t, 0)
    ensures Donate(s, t, 0).don.donatedTo == s.don.donatedTo
  {
  }

  lemma DonateNext(s: State, t: Tid, n: nat) returns (s1: State)
    requires n > 0 && ChainEnds(s.sync, t, n)
    ensures var h := HolderFor(s.sync, t).value;
            && s1.sync == s.sync && ChainEnds(s.sync, h, n - 1) && Donate(s, t, n) == Donate(s1, h, n - 1)
            && s1.don.donatedTo == s.don.donatedTo[t := HolderFor(s.sync, t)]
  {
    s1 := WalkState(s, t);
    DonateUnfolds(s, t, n);
  }

  lemma {:induction false} LinksNew(y: Sync, to: map<Tid, Option<Tid>>, t: Tid, n: nat, u: Tid) returns (i: nat)
    requires ChainEnds(y, t, n) && Link(LinksAfter(y, to, t, n), u) != Link(to, u)
    ensures OnChain(y, t, i, u) && Requires(y, u)
    decreases n
  {
    if u == t {
      i := 0;
    } else {
      i := LinksNew(y, to[t := HolderFor(y, t)], HolderFor(y, t).value, n - 1, u);
      i := i + 1;
    }
  }

  lemma {:induction false} LinksReach(y: Sync, to: map<Tid, Option<Tid>>, t: Tid, n: nat, i: nat, u: Tid)
    requires ChainEnds(y, t, n) && OnChain(y, t, i, u) && Requires(y, u)
    ensures Link(LinksAfter(y, to, t, n), u) == HolderFor(y, u)
    decreases n
  {
    var to1, h := to[t := HolderFor(y, t)], HolderFor(y, t).value;
    if i > 0 {
      LinksReach(y, to1, h, n - 1, i - 1, u);
    } else if Link(LinksAfter(y, to1, h, n - 1), u) != Link(to1, u) {
      var j := LinksNew(y, to1, h, n - 1, u);
      ChainAcyclic(y, t, n, j + 1);
    }
  }

  /** Only threads on the chain become donors. */
  lemma DonateDonors(s: State, t: Tid, n: nat, u: Tid) returns (i: nat)
    requires ChainEnds(s.sync, t, n)
    requires Link(Donate(s, t, n).don.donatedTo, u).Some? && Link(s.don.donatedTo, u).None?
    ensures OnChain(s.sync, t, i, u) && Requires(s.sync, u)
  {
    DonateLinks(s, t, n, Donate(s, t, n).don.donatedTo);
    i := LinksNew(s.sync, s.don.donatedTo, t, n, u);
  }

  /** ... and all of them do that require a lock. */
  lemma DonateReaches(s: State, t: Tid, n: nat, i: nat, u: Tid)
    requires ChainEnds(s.sync, t, n) && OnChain(s.sync, t, i, u) && Requires(s.sync, u)
    ensures Link(Donate(s, t, n).don.donatedTo, u) == HolderFor(s.sync, u)
  {
    DonateLinks(s, t, n, Donate(s, t, n).don.donatedTo);
    LinksReach(s.sync, s.don.donatedTo, t, n, i, u);
  }

  /* ----- lock_acquire() on a held lock ----- */

  /** What a caller of lock_acquire() on a held lock can rely on. */
  ghost predicate Contended(s: State, l: Sid, n: nat)
  {
    && Inv(s) && InUserCode(s) && s.run.current != s.run.idle
    && l in s.sync.holder && Link(s.sync.holder, l).Some?
    && ChainEnds(Require(s.sync, s.run.current, l), s.run.current, n)
  }

  lemma RequireKeepsCoherent(s: State, l: Sid)
    requires Inv(s) && InUserCode(s)
    ensures Coherent(s.don, Require(s.sync, s.run.current, l))
    ensures Link(s.don.donatedTo, s.run.current).None?
  {
    AwakeIsNoDonor(s, s.run.current);
  }

  lemma SleepWaitForOk(q: RunQueue, y: Sync, l: Sid, n: nat)
    requires WaitForOk(q, y) && l in y.holder
    requires ChainEnds(Require(y, q.current, l), q.current, n)
    ensures WaitForOk(q, SleepOn(Require(y, q.current, l), q.current, l))
  {
    var c, y1 := q.current, Require(y, q.current, l);
    var y' := SleepOn(y1, c, l);
    forall t
      ensures Link(y'.required, t) == LockWaitedFor(y', t)
    {
      SleepOnLists(y1, c, l, l, t);
      assert Link(y.required, t) == LockWaitedFor(y, t);
    }
    assert NoDeadlock(y1) by {
      ChainEndsGrounded(y1, c, n);
      assert forall t | t != c :: Next(y1, t) == Next(y, t);
      NoDeadlockKept(y, y1, c);
    }
    NoDeadlockSame(y1, y');
  }

  /** After the walk and the sleep, every donor sleeps on the lock it requires; that is
      so exactly if the threads up the chain did. */
  lemma AcquireDonorsBlocked(s: State, l: Sid, n: nat)
    requires Contended(s, l, n)
    ensures DonorsBlocked(Acquire(s, l, n).don, Acquire(s, l, n).sync)
       <==> ChainAsleep(Require(s.sync, s.run.current, l), s.run.current)
  {
    var c, y := s.run.current, Require(s.sync, s.run.current, l);
    var s1 := s.(sync := y);
    var d' := Donate(s1, c, n).don;
    RequireKeepsCoherent(s, l);
    DonateQueue(s1, c, n);
    assert LockFree(s.sync, l) || LockHeld(s.sync, l);
    assert Acquire(s, l, n).don == d' && Acquire(s, l, n).sync == SleepOn(y, c, l);
    if ChainAsleep(y, c) {
      forall u | Link(d'.donatedTo, u).Some?
        ensures Requires(y, u) && u in List(SleepOn(y, c, l).waiters, Link(y.required, u).value)
      {
        if Link(s.don.donatedTo, u).None? {
          var i := DonateDonors(s1, c, n, u);
        }
        SleepOnLists(y, c, l, Link(y.required, u).value, u);
      }
    }
    if DonorsBlocked(d', SleepOn(y, c, l)) {
      forall i: nat, u | OnChain(y, c, i, u) && u != c && Requires(y, u)
        ensures u in List(y.waiters, Link(y.required, u).value)
      {
        ChainFrom(y, c, n, i, u);
        DonateReaches(s1, c, n, i, u);
        assert HolderFor(y, u).Some?;
        SleepOnLists(y, c, l, Link(y.required, u).value, u);
      }
    }
  }

  lemma AcquireSleeps(s: State, l: Sid, n: nat)
    requires Contended(s, l, n) && ChainAsleep(Require(s.sync, s.run.current, l), s.run.current)
    ensures Inv(Acquire(s, l, n))
  {
    var c, y := s.run.current, Require(s.sync, s.run.current, l);
    var s1 := s.(sync := y);
    var s2 := Donate(s1, c, n);
    assert LockFree(s.sync, l) || LockHeld(s.sync, l);
    RequireKeepsCoherent(s, l);
    DonateRestoresFixpoint(s1, c, n);
    DonateQueue(s1, c, n);
    AcquireDonorsBlocked(s, l, n);
    assert Acquire(s, l, n) == State(Block(s2.run), s2.don, SleepOn(y, c, l));
    BlockOk(s2.run, s2.don.priority);
    SleepSync(s, s2.run, s2.don.priority, l, n);
  }

  lemma SleepSync(s: State, q: RunQueue, pri: map<Tid, int>, l: Sid, n: nat)
    requires Contended(s, l, n) && q == s.run.(ready := q.ready) && RunOk(q) && Sorted(q.ready, pri)
    ensures var y' := SleepOn(Require(s.sync, s.run.current, l), s.run.current, l);
            SyncOk(Block(q), y') && LocksOk(y')
  {
    var c, y := s.run.current, Require(s.sync, s.run.current, l);
    assert LockFree(s.sync, l) || LockHeld(s.sync, l);
    BlockOk(q, pri);
    AcquireSemas(s, q, l);
    SleepOnSemasOk(q, Block(q), y, l);
    SleepWaitForOk(s.run, s.sync, l, n);
  }

  /** The highest priority runs once the current thread sleeps. */
  lemma ContendedTop(s: State, l: Sid, n: nat, s': State)
    requires Contended(s, l, n) && s' == Acquire(s, l, n)
    ensures TopRuns(s'.run, s'.don.priority)
  {
    var c, s1 := s.run.current, s.(sync := Require(s.sync, s.run.current, l));
    var s2 := Donate(s1, c, n);
    assert LockFree(s.sync, l) || LockHeld(s.sync, l);
    DonateQueue(s1, c, n);
    assert s' == AcquireTurn(s2, l);
    BlockOk(s2.run, s2.don.priority);
  }

  lemma AcquireSemas(s: State, q: RunQueue, l: Sid)
    requires SemasOk(s.run, s.sync) && q == s.run.(ready := q.ready)
    ensures SemasOk(q, Require(s.sync, s.run.current, l))
  {
    assert forall t :: Asleep(q, t) == Asleep(s.run, t) && Alive(q, t) == Alive(s.run, t);
    SemasOkSame(s.run, s.sync, Require(s.sync, s.run.current, l));
  }

  /* ----- When lock_acquire() hangs ----- */

  /** The chain comes back to `c`: a deadlock. */
  ghost predicate ComesBack(y: Sync, c: Tid)
  {
    exists i: nat :: i > 0 && OnChain(y, c, i, c)
  }

  /** The chain meets a thread that requires lock `k`, which has been released and not taken
      yet. */
  ghost predicate MeetsReleased(y: Sync, c: Tid, i: nat, u: Tid, k: Sid)
  {
    OnChain(y, c, i, u) && Link(y.required, u) == Some(k) && Link(y.holder, k).None?
  }

  /** The donation loop of a contended lock_acquire() runs forever exactly if the chain of
      holders comes back to the caller or meets a lock that has been released and not taken
      yet. */
  lemma AcquireHangsIff(s: State, l: Sid)
    requires Inv(s) && Link(s.sync.holder, l).Some?
    ensures var y, c := Require(s.sync, s.run.current, l), s.run.current;
            !WalkStops(s.(sync := y), c) <==> ComesBack(y, c) || exists i: nat, u, k :: MeetsReleased(y, c, i, u, k)
  {
    var y, c := Require(s.sync, s.run.current, l), s.run.current;
    WalkStopsIff(s.(sync := y), c);
    if ComesBack(y, c) {
      assert OnChain(y, c, 0, c);
    }
    if i: nat, u, k :| MeetsReleased(y, c, i, u, k) {
      assert Requires(y, u) && HolderFor(y, u).None?;
    }
    if !ComesBack(y, c) && !exists i: nat, u, k :: MeetsReleased(y, c, i, u, k) {
      assert HoldersFound(y, c) by {
        forall i: nat, u | OnChain(y, c, i, u) && Requires(y, u)
          ensures HolderFor(y, u).Some?
        {
          assert !MeetsReleased(y, c, i, u, Link(y.required, u).value);
        }
      }
      var h := HolderFor(y, c).value;
      assert Grounded(s.sync, h);
      var n: nat :| GroundedIn(s.sync, h, n);
      assert OnChain(y, h, 0, h) && OnChain(y, c, 1, h);
      GroundedEnds(s.sync, y, c, 1, h, n);
      assert ChainEnds(y, c, n + 1);
    }
  }

  /** Away from `c` the chain is the one that was there, which ends. */
  lemma {:induction false} GroundedEnds(y0: Sync, y: Sync, c: Tid, i: nat, t: Tid, n: nat)
    requires GroundedIn(y0, t, n) && OnChain(y, c, i, t) && i > 0 && HoldersFound(y, c) && !ComesBack(y, c)
    requires y.holder == y0.holder && forall u | u != c :: Link(y.required, u) == Link(y0.required, u)
    ensures ChainEnds(y, t, n)
    decreases n
  {
    assert t != c;
    if n > 0 {
      OnChainNext(y, c, i, t);
      GroundedEnds(y0, y, c, i + 1, HolderFor(y, t).value, n - 1);
    }
  }

  /** A lock that has been released and not taken yet is promised to a thread that was woken
      and has not run. */
  lemma ReleasedIsPromised(s: State, u: Tid, k: Sid)
    requires Inv(s) && Link(s.sync.required, u) == Some(k) && Link(s.sync.holder, k).None?
    ensures Woken(s.sync, k) != {}
  {
    assert Link(s.sync.required, u) == LockWaitedFor(s.sync, u);
    assert LockFree(s.sync, k) || LockHeld(s.sync, k);
    if u in List(s.sync.waiters, k) {
      assert Num(s.sync.value, k) <= |Woken(s.sync, k)|;
    } else {
      assert u in Woken(s.sync, k);
    }
  }
}
