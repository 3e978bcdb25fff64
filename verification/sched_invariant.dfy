/** What holds between two steps: semaphores and locks, and how they fit together with
    the ready list and the donation lists. */
module SchedInvariant {
  import opened SchedState
  import opened SchedQueue
  import opened SchedDonation

  /* ----- Semaphores ----- */

  /** A thread sleeps on a semaphore exactly if it is on that semaphore's waiter list, so
      on one at most; nobody sleeps on nothing. */
  ghost predicate SleepersWait(q: RunQueue, y: Sync)
  {
    && (forall k, t :: t in List(y.waiters, k) <==> Asleep(q, t) && Link(y.waitsFor, t) == Some(k))
    && (forall t | Asleep(q, t) :: Link(y.waitsFor, t).Some?)
    && Link(y.waitsFor, q.idle).None?
  }

  /** Only existing threads wait, and only for initialised semaphores. */
  ghost predicate NamesOk(q: RunQueue, y: Sync)
  {
    && (forall t | Link(y.waitsFor, t).Some? :: Alive(q, t) && Link(y.waitsFor, t).value in y.value)
    && y.holder.Keys <= y.value.Keys
  }

  ghost predicate WaitersDistinct(y: Sync)
  {
    forall k :: Distinct(List(y.waiters, k))
  }

  /** Threads that were woken on `k` and have not tested its value again. */
  ghost function Woken(y: Sync, k: Sid): set<Tid>
  {
    set t | t in y.waitsFor && y.waitsFor[t] == Some(k) && t !in List(y.waiters, k)
  }

  /** No lost wake-up: while somebody waits, every unit of the value is already promised
      to a woken thread. */
  ghost predicate NoLostWakeup(y: Sync)
  {
    forall k :: 0 <= Num(y.value, k) && (List(y.waiters, k) != [] ==> Num(y.value, k) <= |Woken(y, k)|)
  }

  /* ----- Locks ----- */

  ghost predicate LockFree(y: Sync, l: Sid)
  {
    Num(y.value, l) == 1 && Link(y.holder, l).None?
  }

  ghost predicate LockHeld(y: Sync, l: Sid)
  {
    Num(y.value, l) == 0 && Link(y.holder, l).Some?
  }

  ghost predicate LocksOk(y: Sync)
  {
    forall l | l in y.holder :: LockFree(y, l) || LockHeld(y, l)
  }

  ghost predicate LocksOkBut(y: Sync, x: Sid)
  {
    forall l | l in y.holder && l != x :: LockFree(y, l) || LockHeld(y, l)
  }

  /** `required_lock` is set exactly while a thread is inside the wait of lock_acquire(). */
  ghost predicate RequiredOk(y: Sync)
  {
    forall t :: Link(y.required, t) == LockWaitedFor(y, t)
  }

  ghost function LockWaitedFor(y: Sync, t: Tid): Option<Sid>
  {
    var k := Link(y.waitsFor, t);
    if k.Some? && k.value in y.holder then k else None
  }

  ghost predicate HoldersAlive(q: RunQueue, y: Sync)
  {
    forall l | Link(y.holder, l).Some? :: Alive(q, Link(y.holder, l).value) && Link(y.holder, l).value != q.idle
  }

  /* ----- Waiting for each other ----- */

  ghost function Next(y: Sync, t: Tid): Option<Tid>
  {
    if Requires(y, t) then HolderFor(y, t) else None
  }

  ghost predicate GroundedIn(y: Sync, t: Tid, n: nat)
    decreases n
  {
    if n == 0 then Next(y, t).None?
    else Next(y, t).Some? && GroundedIn(y, Next(y, t).value, n - 1)
  }

  ghost predicate Grounded(y: Sync, t: Tid)
  {
    exists n: nat :: GroundedIn(y, t, n)
  }

  /** No cycle of threads each waiting for a lock the next one holds. */
  ghost predicate NoDeadlock(y: Sync)
  {
    forall t :: Grounded(y, t)
  }

  /** Threads other than `c` wait where they did, for nobody, or for `c`; and `c` itself
      leads to an end. */
  lemma NoDeadlockKept(y: Sync, y': Sync, c: Tid)
    requires NoDeadlock(y) && Grounded(y', c)
    requires forall t | t != c :: Next(y', t) == Next(y, t) || Next(y', t).None? || Next(y', t) == Some(c)
    ensures NoDeadlock(y')
  {
    forall t
      ensures Grounded(y', t)
    {
      assert Grounded(y, t);
      var n: nat :| GroundedIn(y, t, n);
      GroundedStill(y, y', c, t, n);
    }
  }

  /** A wait-for edge may go away, or turn to a thread `c` that waits for nobody. */
  lemma NoDeadlockSink(y: Sync, y': Sync, c: Tid)
    requires NoDeadlock(y) && Next(y', c).None?
    requires forall t | t != c :: Next(y', t) == Next(y, t) || Next(y', t).None? || Next(y', t) == Some(c)
    ensures NoDeadlock(y')
  {
    assert GroundedIn(y', c, 0);
    NoDeadlockKept(y, y', c);
  }

  lemma {:induction false} GroundedStill(y: Sync, y': Sync, c: Tid, t: Tid, n: nat)
    requires GroundedIn(y, t, n) && Grounded(y', c)
    requires forall u | u != c :: Next(y', u) == Next(y, u) || Next(y', u).None? || Next(y', u) == Some(c)
    ensures Grounded(y', t)
    decreases n
  {
    if t == c {
    } else if Next(y', t).None? {
      assert GroundedIn(y', t, 0);
    } else {
      var u := Next(y', t).value;
      if u != c {
        GroundedStill(y, y', c, u, n - 1);
      }
      var m: nat :| GroundedIn(y', u, m);
      assert GroundedIn(y', t, m + 1);
    }
  }

  lemma {:induction false} ChainEndsGrounded(y: Sync, t: Tid, n: nat)
    requires ChainEnds(y, t, n)
    ensures GroundedIn(y, t, n)
    decreases n
  {
    if n > 0 {
      ChainEndsGrounded(y, Next(y, t).value, n - 1);
    }
  }

  /* ----- All of it ----- */

  /** A donor is asleep on the lock it requires. */
  ghost predicate DonorsBlocked(d: Donations, y: Sync)
  {
    forall u | Link(d.donatedTo, u).Some? :: Requires(y, u) && u in List(y.waiters, Link(y.required, u).value)
  }

  ghost predicate SemasOk(q: RunQueue, y: Sync)
  {
    SleepersWait(q, y) && NamesOk(q, y) && WaitersDistinct(y) && NoLostWakeup(y)
  }

  ghost predicate WaitForOk(q: RunQueue, y: Sync)
  {
    RequiredOk(y) && HoldersAlive(q, y) && NoDeadlock(y)
  }

  ghost predicate SyncOk(q: RunQueue, y: Sync)
  {
    SemasOk(q, y) && WaitForOk(q, y)
  }

  ghost predicate DonationOk(d: Donations, y: Sync)
  {
    Coherent(d, y) && Fixpoint(d) && DonorsBlocked(d, y)
  }

  ghost predicate Inv(s: State)
  {
    && RunOk(s.run) && Sorted(s.run.ready, s.don.priority)
    && SyncOk(s.run, s.sync) && LocksOk(s.sync)
    && DonationOk(s.don, s.sync)
  }

  /** The running thread executes its own code: it is not inside a wait. */
  ghost predicate InUserCode(s: State)
  {
    Link(s.sync.waitsFor, s.run.current).None?
  }

  /* ----- A step of the scheduler alone ----- */

  lemma SyncOkScheduled(q: RunQueue, q': RunQueue, y: Sync)
    requires SyncOk(q, y)
    requires q'.idle == q.idle
    requires forall t :: Asleep(q', t) <==> Asleep(q, t)
    requires forall t | Alive(q, t) :: Alive(q', t)
    ensures SyncOk(q', y)
  {
  }

  /* ----- sema_down() ----- */

  /** The current thread goes to sleep on `k`. */
  function SleepOn(y: Sync, c: Tid, k: Sid): Sync
  {
    y.(waiters := y.waiters[k := List(y.waiters, k) + [c]], waitsFor := y.waitsFor[c := Some(k)])
  }

  /** The current thread gets through. */
  function PassThrough(y: Sync, c: Tid, k: Sid): Sync
  {
    y.(value := y.value[k := Num(y.value, k) - 1], waitsFor := y.waitsFor[c := None])
  }

  lemma SleepOnLists(y: Sync, c: Tid, k: Sid, x: Sid, t: Tid)
    ensures t in List(SleepOn(y, c, k).waiters, x) <==> t in List(y.waiters, x) || (x == k && t == c)
    ensures Link(SleepOn(y, c, k).waitsFor, t) == if t == c then Some(k) else Link(y.waitsFor, t)
  {
  }

  lemma SleepOnWaiters(q: RunQueue, q': RunQueue, y: Sync, k: Sid)
    requires SleepersWait(q, y) && WaitersDistinct(y) && !Asleep(q, q.current) && q.current != q.idle
    requires q'.idle == q.idle
    requires forall t :: Asleep(q', t) <==> Asleep(q, t) || t == q.current
    ensures SleepersWait(q', SleepOn(y, q.current, k)) && WaitersDistinct(SleepOn(y, q.current, k))
  {
    var c, y' := q.current, SleepOn(y, q.current, k);
    forall x, t
      ensures t in List(y'.waiters, x) <==> Asleep(q', t) && Link(y'.waitsFor, t) == Some(x)
    {
      SleepOnLists(y, c, k, x, t);
      assert t in List(y.waiters, x) <==> Asleep(q, t) && Link(y.waitsFor, t) == Some(x);
    }
    forall t | Asleep(q', t)
      ensures Link(y'.waitsFor, t).Some?
    {
      SleepOnLists(y, c, k, k, t);
    }
    forall x
      ensures Distinct(List(y'.waiters, x))
    {
      assert c !in List(y.waiters, x);
      var ws := List(y.waiters, x);
      assert Distinct(ws);
    }
  }

  /** sema_down() on a zero semaphore */
  lemma SleepOnSemasOk(q: RunQueue, q': RunQueue, y: Sync, k: Sid)
    requires SemasOk(q, y) && RunOk(q) && q.current != q.idle
    requires k in y.value && Num(y.value, k) == 0
    requires Link(y.waitsFor, q.current).None? || Link(y.waitsFor, q.current) == Some(k)
    requires q'.idle == q.idle
    requires forall t :: Asleep(q', t) <==> Asleep(q, t) || t == q.current
    requires forall t | Alive(q, t) :: Alive(q', t)
    ensures SemasOk(q', SleepOn(y, q.current, k))
  {
    var y' := SleepOn(y, q.current, k);
    SleepOnWaiters(q, q', y, k);
    SleepOnWakeups(y, q.current, k);
    forall t | Link(y'.waitsFor, t).Some?
      ensures Alive(q', t) && Link(y'.waitsFor, t).value in y'.value
    {
      SleepOnLists(y, q.current, k, k, t);
    }
  }

  lemma SleepOnWakeups(y: Sync, c: Tid, k: Sid)
    requires NoLostWakeup(y) && Num(y.value, k) == 0
    requires Link(y.waitsFor, c).None? || Link(y.waitsFor, c) == Some(k)
    ensures NoLostWakeup(SleepOn(y, c, k))
  {
    var y' := SleepOn(y, c, k);
    forall x
      ensures 0 <= Num(y'.value, x) && (List(y'.waiters, x) != [] ==> Num(y'.value, x) <= |Woken(y', x)|)
    {
      if x != k {
        assert List(y'.waiters, x) == List(y.waiters, x);
        forall t
          ensures t in Woken(y', x) <==> t in Woken(y, x)
        {
          if t == c { assert Link(y.waitsFor, c) != Some(x); }
        }
        assert Woken(y', x) == Woken(y, x);
      }
    }
  }

  lemma PassThroughWakeups(y: Sync, c: Tid, k: Sid)
    requires NoLostWakeup(y) && Num(y.value, k) > 0
    requires Link(y.waitsFor, c).None? || Link(y.waitsFor, c) == Some(k)
    ensures NoLostWakeup(PassThrough(y, c, k))
  {
    var y' := PassThrough(y, c, k);
    forall x
      ensures 0 <= Num(y'.value, x) && (List(y'.waiters, x) != [] ==> Num(y'.value, x) <= |Woken(y', x)|)
    {
      if x != k {
        assert Woken(y', x) == Woken(y, x);
      } else if c in Woken(y, k) {
        assert Woken(y', k) == Woken(y, k) - {c};
      } else {
        assert Woken(y', k) == Woken(y, k);
      }
    }
  }

  lemma PassThroughWaiters(q: RunQueue, y: Sync, k: Sid)
    requires SleepersWait(q, y) && WaitersDistinct(y) && !Asleep(q, q.current)
    ensures SleepersWait(q, PassThrough(y, q.current, k)) && WaitersDistinct(PassThrough(y, q.current, k))
  {
    var c, y' := q.current, PassThrough(y, q.current, k);
    forall x, t
      ensures t in List(y'.waiters, x) <==> Asleep(q, t) && Link(y'.waitsFor, t) == Some(x)
    {
      assert t in List(y.waiters, x) <==> Asleep(q, t) && Link(y.waitsFor, t) == Some(x);
    }
  }

  /** sema_down() on a positive semaphore */
  lemma PassThroughSemasOk(q: RunQueue, y: Sync, k: Sid)
    requires SemasOk(q, y) && RunOk(q) && k in y.value && Num(y.value, k) > 0
    requires Link(y.waitsFor, q.current).None? || Link(y.waitsFor, q.current) == Some(k)
    ensures SemasOk(q, PassThrough(y, q.current, k))
  {
    var y' := PassThrough(y, q.current, k);
    PassThroughWaiters(q, y, k);
    PassThroughWakeups(y, q.current, k);
    forall t | Link(y'.waitsFor, t).Some?
      ensures Alive(q, t) && Link(y'.waitsFor, t).value in y'.value
    {
      assert Link(y'.waitsFor, t) == Link(y.waitsFor, t);
    }
  }

  /* ----- sema_up() ----- */

  /** `w`, one of the waiters of `k`, is taken off the list and the value goes up. */
  function Promise(y: Sync, w: Tid, k: Sid): Sync
  {
    y.(waiters := y.waiters[k := Without(List(y.waiters, k), w)],
       value := y.value[k := Num(y.value, k) + 1])
  }

  lemma PromiseLists(y: Sync, w: Tid, k: Sid, x: Sid)
    requires WaitersDistinct(y)
    ensures Distinct(List(Promise(y, w, k).waiters, x))
    ensures forall t :: t in List(Promise(y, w, k).waiters, x) <==> t in List(y.waiters, x) && !(x == k && t == w)
  {
    assert Distinct(List(y.waiters, x));
    WithoutElems(List(y.waiters, k), w);
  }

  lemma PromiseWakeups(y: Sync, w: Tid, k: Sid)
    requires NoLostWakeup(y) && WaitersDistinct(y)
    requires w in List(y.waiters, k) && Link(y.waitsFor, w) == Some(k)
    ensures NoLostWakeup(Promise(y, w, k))
  {
    var y' := Promise(y, w, k);
    forall x
      ensures 0 <= Num(y'.value, x) && (List(y'.waiters, x) != [] ==> Num(y'.value, x) <= |Woken(y', x)|)
    {
      PromiseLists(y, w, k, x);
      if x != k {
        assert Woken(y', x) == Woken(y, x);
      } else {
        assert Woken(y', k) == Woken(y, k) + {w};
      }
    }
  }

  lemma PromiseWaiters(q: RunQueue, q': RunQueue, y: Sync, w: Tid, k: Sid)
    requires SleepersWait(q, y) && WaitersDistinct(y) && w in List(y.waiters, k)
    requires q'.idle == q.idle
    requires forall t :: Asleep(q', t) <==> Asleep(q, t) && t != w
    ensures SleepersWait(q', Promise(y, w, k)) && WaitersDistinct(Promise(y, w, k))
  {
    var y' := Promise(y, w, k);
    forall x, t
      ensures t in List(y'.waiters, x) <==> Asleep(q', t) && Link(y'.waitsFor, t) == Some(x)
    {
      PromiseLists(y, w, k, x);
      assert t in List(y.waiters, x) <==> Asleep(q, t) && Link(y.waitsFor, t) == Some(x);
      assert w in List(y.waiters, k) <==> Asleep(q, w) && Link(y.waitsFor, w) == Some(k);
    }
    forall x
      ensures Distinct(List(y'.waiters, x))
    {
      PromiseLists(y, w, k, x);
    }
  }

  /** sema_up() while somebody waits */
  lemma PromiseSemasOk(q: RunQueue, q': RunQueue, y: Sync, w: Tid, k: Sid)
    requires SemasOk(q, y) && w in List(y.waiters, k)
    requires q'.idle == q.idle
    requires forall t :: Asleep(q', t) <==> Asleep(q, t) && t != w
    requires forall t | Alive(q, t) :: Alive(q', t)
    ensures SemasOk(q', Promise(y, w, k))
  {
    PromiseWaiters(q, q', y, w, k);
    PromiseWakeups(y, w, k);
    assert Link(y.waitsFor, w).Some?;
  }

  /** sema_up() while nobody waits */
  lemma RaiseSemasOk(q: RunQueue, y: Sync, k: Sid)
    requires SemasOk(q, y) && k in y.value && List(y.waiters, k) == []
    ensures SemasOk(q, y.(value := y.value[k := Num(y.value, k) + 1]))
  {
    var y' := y.(value := y.value[k := Num(y.value, k) + 1]);
    forall x
      ensures 0 <= Num(y'.value, x) && (List(y'.waiters, x) != [] ==> Num(y'.value, x) <= |Woken(y', x)|)
    {
      assert Woken(y', x) == Woken(y, x);
    }
  }
}
