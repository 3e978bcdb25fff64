/** sema_up(), lock_acquire() and lock_release() keep the invariant. */
module SchedLocks {
  import opened SchedState
  import opened SchedQueue
  import opened SchedDonation
  import opened SchedInvariant
  import opened SchedSteps

  /* ----- sema_up() ----- */

  /** The state in which sema_up() is called: by the owner of an ordinary semaphore, or by
      lock_release() with the holder already cleared. */
  ghost predicate ReadyToRaise(s: State, k: Sid)
  {
    && RunOk(s.run) && Sorted(s.run.ready, s.don.priority)
    && SyncOk(s.run, s.sync) && LocksOkBut(s.sync, k) && DonationOk(s.don, s.sync)
    && k in s.sync.value
    && (k in s.sync.holder ==> Num(s.sync.value, k) == 0 && Link(s.sync.holder, k).None?)
    && (forall w | w in List(s.sync.waiters, k) :: Link(s.don.donatedTo, w).None?)
  }

  lemma RaisedWaitForOk(q: RunQueue, q': RunQueue, y: Sync, y': Sync)
    requires WaitForOk(q, y)
    requires y'.required == y.required && y'.holder == y.holder && y'.waitsFor == y.waitsFor
    requires q'.idle == q.idle && forall t | Alive(q, t) :: Alive(q', t)
    ensures WaitForOk(q', y')
  {
    NoDeadlockSame(y, y');
    assert forall t :: LockWaitedFor(y', t) == LockWaitedFor(y, t);
  }

  lemma RaisedLocksOk(y: Sync, y': Sync, k: Sid)
    requires LocksOkBut(y, k) && y'.holder == y.holder && y'.value == y.value[k := Num(y.value, k) + 1]
    requires k in y.holder ==> Num(y.value, k) == 0 && Link(y.holder, k).None?
    ensures LocksOk(y')
  {
    forall l | l in y'.holder
      ensures LockFree(y', l) || LockHeld(y', l)
    {
      if l != k { assert LockFree(y, l) || LockHeld(y, l); }
    }
  }

  lemma WakeNobody(s: State, k: Sid)
    requires ReadyToRaise(s, k) && List(s.sync.waiters, k) == []
    ensures Inv(WakeOne(s, k))
  {
    var y, y' := s.sync, WakeOne(s, k).sync;
    RaiseSemasOk(s.run, y, k);
    RaisedWaitForOk(s.run, s.run, y, y');
    RaisedLocksOk(y, y', k);
    DonationOkFrame(s.don, y, y');
  }

  lemma WakeKeepsDonations(d: Donations, y: Sync, w: Tid, k: Sid)
    requires DonationOk(d, y) && WaitersDistinct(y) && Link(d.donatedTo, w).None?
    ensures DonationOk(d, Promise(y, w, k))
  {
    forall u | Link(d.donatedTo, u).Some?
      ensures u in List(Promise(y, w, k).waiters, Link(y.required, u).value)
    {
      PromiseLists(y, w, k, Link(y.required, u).value);
    }
    DonationOkFrame(d, y, Promise(y, w, k));
  }

  lemma WakeSomebody(s: State, k: Sid)
    requires ReadyToRaise(s, k) && List(s.sync.waiters, k) != []
    ensures Inv(WakeOne(s, k))
  {
    var y, y' := s.sync, WakeOne(s, k).sync;
    var w := Highest(List(y.waiters, k), s.don.priority);
    var q' := Unblock(s.run, w, s.don.priority);
    assert Asleep(s.run, w);
    UnblockOk(s.run, w, s.don.priority);
    assert y' == Promise(y, w, k);
    PromiseSemasOk(s.run, q', y, w, k);
    RaisedWaitForOk(s.run, q', y, y');
    RaisedLocksOk(y, y', k);
    WakeKeepsDonations(s.don, y, w, k);
  }

  lemma SemaUpKeepsInv(s: State, k: Sid)
    requires ReadyToRaise(s, k)
    ensures Inv(WakeOne(s, k))
  {
    if List(s.sync.waiters, k) == [] { WakeNobody(s, k); } else { WakeSomebody(s, k); }
  }

  /** Threads asleep on an ordinary semaphore donate nothing. */
  lemma UpIsReady(s: State, k: Sid)
    requires Inv(s) && k in s.sync.value && k !in s.sync.holder
    ensures ReadyToRaise(s, k)
  {
    forall w | w in List(s.sync.waiters, k)
      ensures Link(s.don.donatedTo, w).None?
    {
      assert Link(s.sync.required, w) == LockWaitedFor(s.sync, w);
    }
  }

  /* ----- Becoming the holder ----- */

  /** `c` has brought lock `l` from 1 to 0 and is recorded as its holder. */
  ghost predicate Granted(y: Sync, y': Sync, c: Tid, l: Sid)
  {
    && Num(y.value, l) == 1 && l in y.holder
    && y'.value == y.value[l := 0] && y'.holder == y.holder[l := Some(c)]
    && y'.waiters == y.waiters
    && (forall t :: Link(y'.waitsFor, t) == if t == c then None else Link(y.waitsFor, t))
    && (forall t :: Link(y'.required, t) == if t == c then None else Link(y.required, t))
  }

  lemma GrantWaitForOk(q: RunQueue, y: Sync, y': Sync, l: Sid)
    requires WaitForOk(q, y) && Granted(y, y', q.current, l) && LockFree(y, l)
    requires Alive(q, q.current) && q.current != q.idle
    ensures WaitForOk(q, y')
  {
    var c := q.current;
    forall t
      ensures Link(y'.required, t) == LockWaitedFor(y', t)
    {
      assert Link(y.required, t) == LockWaitedFor(y, t);
    }
    forall t | t != c
      ensures Next(y', t) == Next(y, t) || Next(y', t) == Some(c)
    {
      assert Link(y'.required, t) == Link(y.required, t);
    }
    assert Next(y', c).None?;
    NoDeadlockSink(y, y', c);
    assert forall k :: Link(y'.holder, k) == if k == l then Some(c) else Link(y.holder, k);
  }

  lemma GrantKeepsDonations(d: Donations, y: Sync, y': Sync, c: Tid, l: Sid)
    requires DonationOk(d, y) && Granted(y, y', c, l) && LockFree(y, l)
    requires Link(d.donatedTo, c).None?
    ensures DonationOk(d, y')
  {
    forall u | Link(d.donatedTo, u).Some?
      ensures Link(y'.required, u) == Link(y.required, u)
      ensures Link(y.required, u) != Some(l)
    {
      assert HolderFor(y, u) == Link(d.donatedTo, u);
    }
    DonationOkFrame(d, y, y');
  }

  /** The wait inside lock_acquire() getting through, at once or after a wake-up. */
  lemma AcquireTurnPasses(s: State, l: Sid)
    requires Inv(s) && l in s.sync.holder && Num(s.sync.value, l) > 0 && s.run.current != s.run.idle
    requires Link(s.sync.waitsFor, s.run.current).None? || Link(s.sync.waitsFor, s.run.current) == Some(l)
    ensures Inv(AcquireTurn(s, l))
  {
    var c, y, y' := s.run.current, s.sync, AcquireTurn(s, l).sync;
    assert LockFree(y, l) && l in y.value;
    AwakeIsNoDonor(s, c);
    PassThroughSemasOk(s.run, y, l);
    assert SemasOk(s.run, y') by { SemasOkSame(s.run, PassThrough(y, c, l), y'); }
    GrantWaitForOk(s.run, y, y', l);
    GrantKeepsDonations(s.don, y, y', c, l);
  }

  lemma SemasOkSame(q: RunQueue, y: Sync, y': Sync)
    requires SemasOk(q, y)
    requires y'.value == y.value && y'.waiters == y.waiters && y'.waitsFor == y.waitsFor
    requires y'.holder.Keys == y.holder.Keys
    ensures SemasOk(q, y')
  {
    forall k
      ensures Woken(y', k) == Woken(y, k)
    {
    }
  }

  lemma TryAcquireKeepsInv(s: State, l: Sid)
    requires Inv(s) && InUserCode(s) && l in s.sync.holder && s.run.current != s.run.idle
    ensures Inv(TryAcquire(s, l))
  {
    var c, y, y' := s.run.current, s.sync, TryAcquire(s, l).sync;
    if Num(y.value, l) > 0 {
      assert LockFree(y, l) && l in y.value;
      AwakeIsNoDonor(s, c);
      TakenSemasOk(s.run, y, y', l);
      assert Link(y.required, c) == LockWaitedFor(y, c);
      GrantWaitForOk(s.run, y, y', l);
      GrantKeepsDonations(s.don, y, y', c, l);
    }
  }

  lemma TakenSemasOk(q: RunQueue, y: Sync, y': Sync, l: Sid)
    requires SemasOk(q, y) && l in y.value && Num(y.value, l) > 0 && y'.waiters == y.waiters && y'.waitsFor == y.waitsFor
    requires y'.value == y.value[l := Num(y.value, l) - 1] && y'.holder.Keys == y.holder.Keys
    ensures SemasOk(q, y')
  {
    forall x
      ensures 0 <= Num(y'.value, x) && (List(y'.waiters, x) != [] ==> Num(y'.value, x) <= |Woken(y', x)|)
    {
      assert Woken(y', x) == Woken(y, x);
    }
  }

  /* ----- lock_release() ----- */

  /** The list without the members of `ts`. */
  function Keep(xs: seq<Tid>, ts: seq<Tid>): (r: seq<Tid>)
  {
    if xs == [] then []
    else if xs[0] in ts then Keep(xs[1..], ts)
    else [xs[0]] + Keep(xs[1..], ts)
  }

  lemma {:induction false} KeepWithout(xs: seq<Tid>, ts: seq<Tid>)
    requires Distinct(xs) && ts != []
    ensures Keep(Without(xs, ts[0]), ts[1..]) == Keep(xs, ts)
  {
    if xs != [] {
      assert xs[0] in ts <==> xs[0] == ts[0] || xs[0] in ts[1..];
      if xs[0] == ts[0] {
        KeepSame(xs[1..], ts[1..], ts);
      } else {
        KeepWithout(xs[1..], ts);
        var w := Without(xs, ts[0]);
        assert w == [xs[0]] + Without(xs[1..], ts[0]);
        assert w[1..] == Without(xs[1..], ts[0]);
      }
    }
  }

  lemma {:induction false} KeepSame(xs: seq<Tid>, ts: seq<Tid>, us: seq<Tid>)
    requires forall i | 0 <= i < |xs| :: xs[i] in ts <==> xs[i] in us
    ensures Keep(xs, ts) == Keep(xs, us)
  {
    if xs != [] {
      KeepSame(xs[1..], ts, us);
    }
  }

  lemma {:induction false} KeepNone(xs: seq<Tid>)
    ensures Keep(xs, []) == xs
  {
    if xs != [] {
      KeepNone(xs[1..]);
    }
  }

  /** The loop of lock_release() takes exactly the waiters off the donation lists, and
      the others keep their order. */
  lemma {:induction false} RemoveDonationsEffect(d: Donations, ts: seq<Tid>)
    requires Linked(d)
    ensures var d' := RemoveDonations(d, ts);
            && d'.priority == d.priority && d'.base == d.base
            && Linked(d')
            && (forall u :: Link(d'.donatedTo, u) == if u in ts then None else Link(d.donatedTo, u))
            && (forall h :: List(d'.donors, h) == Keep(List(d.donors, h), ts))
    decreases |ts|
  {
    if ts == [] {
      forall h
        ensures List(d.donors, h) == Keep(List(d.donors, h), ts)
      {
        KeepNone(List(d.donors, h));
      }
    } else {
      var d1 := RemoveDonation(d, ts[0]);
      RemoveLinked(d, ts[0]);
      RemoveDonationsEffect(d1, ts[1..]);
      var d' := RemoveDonations(d, ts);
      forall h
        ensures List(d'.donors, h) == Keep(List(d.donors, h), ts)
      {
        RemoveDonationLists(d, ts[0], h);
        KeepWithout(List(d.donors, h), ts);
      }
      forall u
        ensures Link(d'.donatedTo, u) == if u in ts then None else Link(d.donatedTo, u)
      {
        assert u in ts <==> u == ts[0] || u in ts[1..];
        assert Link(d1.donatedTo, u) == if u == ts[0] then None else Link(d.donatedTo, u);
      }
    }
  }

  lemma RemoveLinked(d: Donations, t: Tid)
    requires Linked(d)
    ensures Linked(RemoveDonation(d, t))
  {
    var d1 := d.(priority := d.priority[t := Num(d.priority, t)]);
    RemoveRenewedLinked(d, t, Num(d.priority, t));
    var d', d1' := RemoveDonation(d, t), RemoveDonation(d1, t);
    assert d'.donors == d1'.donors && d'.donatedTo == d1'.donatedTo;
    forall h
      ensures Sorted(List(d'.donors, h), d'.priority)
    {
      assert forall u :: Num(d'.priority, u) == Num(d1'.priority, u);
      assert Sorted(List(d1'.donors, h), d1'.priority);
    }
  }

  lemma {:induction false} KeepAll(xs: seq<Tid>, ts: seq<Tid>)
    requires forall i | 0 <= i < |xs| :: xs[i] !in ts
    ensures Keep(xs, ts) == xs
  {
    if xs != [] {
      KeepAll(xs[1..], ts);
    }
  }

  /** Whoever waits for `l` donates, if at all, to `l`'s holder. */
  lemma WaiterDonatesToHolder(s: State, l: Sid, u: Tid)
    requires SyncOk(s.run, s.sync) && DonationOk(s.don, s.sync) && l in s.sync.holder
    ensures u in List(s.sync.waiters, l) ==>
              Link(s.don.donatedTo, u).None? || Link(s.don.donatedTo, u) == Link(s.sync.holder, l)
    ensures Link(s.don.donatedTo, u).Some? && Link(s.sync.required, u) == Some(l) ==>
              u in List(s.sync.waiters, l)
  {
    assert Link(s.sync.required, u) == LockWaitedFor(s.sync, u);
  }

  lemma RetractedFixpointBut(s: State, l: Sid)
    requires SyncOk(s.run, s.sync) && DonationOk(s.don, s.sync)
    requires Link(s.sync.holder, l) == Some(s.run.current)
    ensures FixpointBut(RemoveDonations(s.don, List(s.sync.waiters, l)), s.run.current)
  {
    var c, d, ws := s.run.current, s.don, List(s.sync.waiters, l);
    var d1 := RemoveDonations(d, ws);
    RemoveDonationsEffect(d, ws);
    forall h | h != c
      ensures Effective(d1, h)
    {
      var us := List(d.donors, h);
      forall i | 0 <= i < |us|
        ensures us[i] !in ws
      {
        assert us[i] in us;
        assert Link(d.donatedTo, us[i]) == Some(h);
        WaiterDonatesToHolder(s, l, us[i]);
      }
      KeepAll(us, ws);
      EffectiveFrame(d, d1, h);
    }
  }

  /** Without its holder, `l` has no donors left to account for. */
  lemma RetractedCoherent(s: State, l: Sid)
    requires SyncOk(s.run, s.sync) && DonationOk(s.don, s.sync)
    requires Link(s.sync.holder, l) == Some(s.run.current)
    ensures var y' := s.sync.(holder := s.sync.holder[l := None]);
            var d1 := RemoveDonations(s.don, List(s.sync.waiters, l));
            Coherent(d1, y') && DonorsBlocked(d1, y')
  {
    var d, y, ws := s.don, s.sync, List(s.sync.waiters, l);
    var y', d1 := y.(holder := y.holder[l := None]), RemoveDonations(d, ws);
    RemoveDonationsEffect(d, ws);
    forall u | Link(d1.donatedTo, u).Some?
      ensures Requires(y', u) && HolderFor(y', u) == Link(d1.donatedTo, u)
      ensures u in List(y'.waiters, Link(y'.required, u).value)
    {
      assert u !in ws;
      WaiterDonatesToHolder(s, l, u);
      assert Link(y.required, u) != Some(l);
    }
    assert BaseInRange(d1);
  }

  lemma RetractDonationOk(s: State, l: Sid)
    requires SyncOk(s.run, s.sync) && DonationOk(s.don, s.sync) && RunOk(s.run)
    requires Link(s.sync.holder, l) == Some(s.run.current)
    ensures DonationOk(Retract(s, l).don, Retract(s, l).sync)
    ensures forall w | w in List(s.sync.waiters, l) :: Link(Retract(s, l).don.donatedTo, w).None?
  {
    var c, ws := s.run.current, List(s.sync.waiters, l);
    var y', d1 := s.sync.(holder := s.sync.holder[l := None]), RemoveDonations(s.don, ws);
    RetractedFixpointBut(s, l);
    RetractedCoherent(s, l);
    RemoveDonationsEffect(s.don, ws);
    if ws == [] {
      assert d1 == s.don;
    } else {
      AwakeIsNoDonor(s, c);
      RenewEndsDefect(d1, y', c);
    }
  }

  lemma RetractSyncOk(q: RunQueue, y: Sync, l: Sid)
    requires SyncOk(q, y) && Link(y.holder, l) == Some(q.current) && Link(y.waitsFor, q.current).None?
    ensures SyncOk(q, y.(holder := y.holder[l := None]))
  {
    var y' := y.(holder := y.holder[l := None]);
    SemasOkSame(q, y, y');
    assert forall k :: Link(y'.holder, k) == if k == l then None else Link(y.holder, k);
    assert forall t :: LockWaitedFor(y', t) == LockWaitedFor(y, t);
    assert Link(y.required, q.current) == LockWaitedFor(y, q.current);
    NoDeadlockSink(y, y', q.current);
  }

  lemma RetractRunOk(s: State, l: Sid)
    requires RunOk(s.run) && Sorted(s.run.ready, s.don.priority) && Linked(s.don)
    ensures Retract(s, l).run == s.run && Sorted(s.run.ready, Retract(s, l).don.priority)
  {
    var c, ws := s.run.current, List(s.sync.waiters, l);
    if ws != [] {
      var d1 := RemoveDonations(s.don, ws);
      RemoveDonationsEffect(s.don, ws);
      WithoutSortedAfter(s.run.ready, c, s.don.priority, Num(Renew(d1, c).priority, c));
      assert c !in s.run.ready;
      WithoutAbsent(s.run.ready, c);
    }
  }

  /** lock_release() hands a consistent state to sema_up(). */
  lemma RetractIsReady(s: State, l: Sid)
    requires Inv(s) && InUserCode(s) && Link(s.sync.holder, l) == Some(s.run.current)
    ensures ReadyToRaise(Retract(s, l), l)
  {
    var s' := Retract(s, l);
    RetractRunOk(s, l);
    RetractSyncOk(s.run, s.sync, l);
    RetractDonationOk(s, l);
    assert s'.sync == s.sync.(holder := s.sync.holder[l := None]);
    assert LockFree(s.sync, l) || LockHeld(s.sync, l);
    forall k | k in s'.sync.holder && k != l
      ensures LockFree(s'.sync, k) || LockHeld(s'.sync, k)
    {
      assert LockFree(s.sync, k) || LockHeld(s.sync, k);
    }
  }

  lemma ReleaseKeepsInv(s: State, l: Sid)
    requires Inv(s) && InUserCode(s) && Link(s.sync.holder, l) == Some(s.run.current)
    ensures Inv(Release(s, l))
  {
    RetractIsReady(s, l);
    SemaUpKeepsInv(Retract(s, l), l);
    PreemptKeepsInv(WakeOne(Retract(s, l), l));
  }
}
