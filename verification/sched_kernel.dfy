/** thread.c and synch.c as they are: globals and thread members that the functions
    update in place.  A method that is a step of its own keeps the invariant and takes the
    step of SchedRuns; the others are proved to do what the function of the same name in
    SchedState, SchedDonation or SchedAcquire says. */
module SchedKernel {
  import opened SchedState
  import opened SchedDonation
  import opened SchedInvariant
  import opened SchedQueue
  import SchedAcquire
  import SchedSteps
  import opened SchedRuns
  import opened SchedTheorems
  import opened SchedEffects

  /** list_insert_ordered(): the scan for the first thread of lower priority. */
  method ListInsertOrdered(xs: seq<Tid>, t: Tid, pri: map<Tid, int>) returns (r: seq<Tid>)
    ensures r == InsertOrdered(xs, t, pri)
  {
    var e := 0;
    while e < |xs| && !(Num(pri, t) > Num(pri, xs[e]))
      invariant e <= |xs|
      invariant InsertPos(xs, Num(pri, t), pri) == e + InsertPos(xs[e..], Num(pri, t), pri)
    {
      e := e + 1;
    }
    r := xs[..e] + [t] + xs[e..];
  }

  /** list_min() under thread_compare_priority() */
  method ListMin(xs: seq<Tid>, pri: map<Tid, int>) returns (w: Tid)
    requires xs != []
    ensures w == Highest(xs, pri)
    ensures exists i: nat :: FirstHighest(xs, pri, i) && xs[i] == w
  {
    HighestPosIsFirst(xs, pri);
    var min, e := 0, 1;
    while e < |xs|
      invariant 1 <= e <= |xs|
      invariant min == HighestPos(xs[..e], pri)
    {
      assert xs[..e + 1][..e] == xs[..e];
      if Num(pri, xs[e]) > Num(pri, xs[min]) {
        min := e;
      }
      e := e + 1;
    }
    assert xs[..e] == xs;
    w := xs[min];
  }

  /** From `s`, at `t`, the walk has `m` hops left and leads to `end`. */
  ghost predicate WalkLeft(s: State, t: Tid, m: nat, end: State)
  {
    ChainEnds(s.sync, t, m) && Donate(s, t, m) == end
  }

  lemma WalkAdvances(s: State, t: Tid, m: nat, end: State) returns (s1: State, h: Tid)
    requires WalkLeft(s, t, m, end) && Requires(s.sync, t)
    ensures s1 == WalkState(s, t) && h == WalkNext(s.sync, t)
    ensures m > 0 && WalkLeft(s1, h, m - 1, end)
  {
    s1, h := WalkState(s, t), WalkNext(s.sync, t);
  }

  class Kernel {
    // Globals of thread.c.
    var ready: seq<Tid>
    var current: Tid
    const idle: Tid
    // Members of struct thread.
    var status: map<Tid, Status>
    var priority: map<Tid, int>
    var base: map<Tid, int>
    var donors: map<Tid, seq<Tid>>
    var donatedTo: map<Tid, Option<Tid>>
    var required: map<Tid, Option<Sid>>
    var waitsFor: map<Tid, Option<Sid>>
    // Members of struct semaphore and struct lock.
    var value: map<Sid, int>
    var waiters: map<Sid, seq<Tid>>
    var holder: map<Sid, Option<Tid>>

    ghost function Run(): RunQueue
      reads this
    {
      RunQueue(status, ready, current, idle)
    }

    ghost function Don(): Donations
      reads this
    {
      Donations(priority, base, donors, donatedTo)
    }

    ghost function Sema(): Sync
      reads this
    {
      Sync(required, waitsFor, value, waiters, holder)
    }

    ghost function View(): State
      reads this
    {
      State(Run(), Don(), Sema())
    }

    /** The state once thread_start() is done. */
    constructor (main: Tid, idleThread: Tid)
      ensures View() == Boot(main, idleThread)
    {
      ready, current, idle := [], main, idleThread;
      status := map[main := Running, idleThread := Blocked];
      priority, base := map[main := 31, idleThread := 0], map[main := 31, idleThread := 0];
      donors, donatedTo, required, waitsFor := map[], map[], map[], map[];
      value, waiters, holder := map[], map[], map[];
    }

    /* ----- thread.c ----- */

    method ThreadReinsertReadyList(t: Tid)
      modifies this`ready
      ensures Run() == Reinsert(old(Run()), t, priority)
    {
      if StatusOf(status, t) == Ready {
        ready := ListInsertOrdered(Without(ready, t), t, priority);
      }
    }

    method ThreadResetPriority(t: Tid)
      modifies this`ready, this`priority
      ensures View() == ResetPriority(old(View()), t)
    {
      var ds := List(donors, t);
      var donated := if ds == [] then PRI_MIN - 1 else Num(priority, ds[0]);
      if donated > Num(base, t) {
        priority := priority[t := donated];
      } else {
        priority := priority[t := Num(base, t)];
      }
      ThreadReinsertReadyList(t);
    }

    method ThreadRemoveDonation(t: Tid)
      modifies this`donors, this`donatedTo
      ensures Don() == RemoveDonation(old(Don()), t)
    {
      var h := Link(donatedTo, t);
      if h.Some? {
        donors := donors[h.value := Without(List(donors, h.value), t)];
        donatedTo := donatedTo[t := None];
      }
    }

    /** One iteration of the loop of thread_donate_priority(); without a holder the walk
        stays where it is. */
    method DonateOnce(t: Tid) returns (next: Tid)
      requires Requires(Sema(), t)
      modifies this`ready, this`priority, this`donors, this`donatedTo
      ensures View() == WalkState(old(View()), t) && next == WalkNext(old(Sema()), t)
    {
      ThreadResetPriority(t);
      var h := Link(holder, Link(required, t).value);
      if current != t {
        ThreadRemoveDonation(t);
      }
      assert Don() == Refresh(old(Don()), t, current == t);
      next := t;
      if h.Some? {
        var ds := ListInsertOrdered(List(donors, h.value), t, priority);
        donors := donors[h.value := ds];
        donatedTo := donatedTo[t := Some(h.value)];
        next := h.value;
      }
    }

    /** thread_donate_priority(); `n` is the length of the chain of holders. */
    method ThreadDonatePriority(t0: Tid, ghost n: nat)
      requires ChainEnds(Sema(), t0, n)
      modifies this`ready, this`priority, this`donors, this`donatedTo
      ensures View() == Donate(old(View()), t0, n)
    {
      var t := t0;
      ghost var m, end := n, Donate(View(), t0, n);
      while Link(required, t).Some?
        invariant WalkLeft(View(), t, m, end)
        decreases m
      {
        t, m := DonateTurn(t, m, end);
      }
      ThreadResetPriority(t);
    }

    /** One turn of its loop, with the walk that is left to do */
    method DonateTurn(t: Tid, ghost m: nat, ghost end: State) returns (h: Tid, ghost m': nat)
      requires WalkLeft(View(), t, m, end) && Link(required, t).Some?
      modifies this`ready, this`priority, this`donors, this`donatedTo
      ensures m' < m && WalkLeft(View(), h, m', end)
    {
      m' := m - 1;
      ghost var s, next := WalkAdvances(View(), t, m, end);
      h := DonateOnce(t);
      assert View() == s && h == next;
    }

    method Schedule()
      modifies this`status, this`ready, this`current
      ensures Run() == SchedState.Schedule(old(Run()))
    {
      if ready == [] {
        current := idle;
      } else {
        current, ready := ready[0], ready[1..];
      }
      status := status[current := Running];
    }

    method ThreadBlock()
      modifies this`status, this`ready, this`current
      ensures Run() == Block(old(Run()))
    {
      status := status[current := Blocked];
      Schedule();
    }

    method ThreadUnblock(t: Tid)
      modifies this`status, this`ready
      ensures Run() == Unblock(old(Run()), t, priority)
    {
      ready := ListInsertOrdered(ready, t, priority);
      status := status[t := Ready];
    }

    method ThreadYield()
      modifies this`status, this`ready, this`current
      ensures Run() == Yield(old(Run()), priority)
    {
      if current != idle {
        ready := ListInsertOrdered(ready, current, priority);
      }
      status := status[current := Ready];
      Schedule();
    }

    method ThreadMaxYield()
      modifies this`status, this`ready, this`current
      ensures Run() == MaxYield(old(Run()), priority)
    {
      var max := if ready == [] then PRI_MIN - 1 else Num(priority, ready[0]);
      if max > Num(priority, current) {
        ThreadYield();
      }
    }

    /** thread_yield(), at the end of a time slice or called */
    method Yielded()
      requires Inv(View()) && Enabled(View(), Tick)
      modifies this`status, this`ready, this`current
      ensures Inv(View()) && View() == Step(old(View()), Tick) && TopRuns(Run(), priority)
    {
      ghost var s' := Step(View(), Tick);
      StepSettles(View(), Tick, s');
      ThreadYield();
      assert View() == s';
    }

    /** thread_max_yield() */
    method MaxYielded()
      requires Inv(View())
      modifies this`status, this`ready, this`current
      ensures Inv(View()) && View() == SchedState.Preempt(old(View())) && TopRuns(Run(), priority)
    {
      SchedSteps.PreemptKeepsInv(View());
      MaxYieldOk(Run(), priority);
      ThreadMaxYield();
    }

    method SetBasePriority(p: int)
      modifies this`ready, this`priority, this`base
      ensures View() == SetBase(old(View()), p)
    {
      base := base[current := p];
      ThreadResetPriority(current);
    }

    /** thread_set_priority(): afterwards the highest priority runs. */
    method ThreadSetPriority(p: int)
      requires Inv(View()) && Enabled(View(), Event.SetPriority(p))
      modifies this`status, this`ready, this`current, this`priority, this`base
      ensures Inv(View()) && TopRuns(Run(), priority)
      ensures View() == SchedState.Preempt(Step(old(View()), Event.SetPriority(p)))
      ensures Num(base, old(current)) == p
    {
      StepKeepsInv(View(), Event.SetPriority(p));
      SetBasePriority(p);
      MaxYielded();
    }

    method InitThread(t: Tid, p: int)
      modifies this`status, this`priority, this`base, this`donors, this`donatedTo, this`required, this`waitsFor
      ensures status == old(status)[t := Blocked]
      ensures Don() == FreshDonations(old(Don()), t, p)
      ensures Sema() == old(Sema()).(required := old(required)[t := None], waitsFor := old(waitsFor)[t := None])
    {
      status := status[t := Blocked];
      priority, base := priority[t := p], base[t := p];
      donors, donatedTo := donors[t := []], donatedTo[t := None];
      required, waitsFor := required[t := None], waitsFor[t := None];
    }

    method AddThread(t: Tid, p: int)
      modifies this`status, this`ready, this`priority, this`base, this`donors, this`donatedTo, this`required, this`waitsFor
      ensures View() == Spawn(old(View()), t, p)
    {
      InitThread(t, p);
      assert status[t := Ready] == old(status)[t := Ready];
      ThreadUnblock(t);
    }

    /** thread_create() for a thread structure at the fresh address `t` */
    method ThreadCreate(t: Tid, p: int)
      requires Inv(View()) && Enabled(View(), Event.Create(t, p))
      modifies this
      ensures Inv(View()) && TopRuns(Run(), priority)
      ensures View() == SchedState.Preempt(Step(old(View()), Event.Create(t, p)))
      ensures Alive(Run(), t) && Num(base, t) == Num(priority, t) == p
    {
      ghost var s' := CreateEffect(View(), t, p);
      StepKeepsInv(View(), Event.Create(t, p));
      AddThread(t, p);
      MaxYielded();
      assert View() == s';
    }

    /** thread_exit() */
    method ThreadExit()
      requires Inv(View()) && Enabled(View(), Event.Exit)
      modifies this`status, this`ready, this`current
      ensures Inv(View()) && View() == Step(old(View()), Event.Exit) && TopRuns(Run(), priority)
    {
      StepSettles(View(), Event.Exit, Step(View(), Event.Exit));
      Leave();
    }

    method Leave()
      modifies this`status, this`ready, this`current
      ensures View() == SchedState.Exit(old(View()))
    {
      status := status - {current};
      Schedule();
    }

    /* ----- synch.c ----- */

    /** One turn of the loop of sema_down(); `done` says that the loop was left. */
    method SemaDownTurn(k: Sid) returns (done: bool)
      modifies this
      ensures View() == DownTurn(old(View()), k) && done == (old(Num(value, k)) != 0)
    {
      if Num(value, k) == 0 {
        waiters := waiters[k := List(waiters, k) + [current]];
        waitsFor := waitsFor[current := Some(k)];
        ThreadBlock();
        return false;
      }
      value := value[k := Num(value, k) - 1];
      waitsFor := waitsFor[current := None];
      return true;
    }

    /** sema_down() up to its first sleep */
    method SemaDown(k: Sid) returns (done: bool)
      requires Inv(View()) && Enabled(View(), Down(k))
      modifies this
      ensures Inv(View()) && View() == Step(old(View()), Down(k))
      ensures done == (old(Num(value, k)) > 0) && done == (Link(waitsFor, old(current)) == None)
    {
      StepKeepsInv(View(), Down(k));
      done := SemaDownTurn(k);
    }

    /** What a thread woken inside sema_down() or lock_acquire() does before anything else */
    method Resumed() returns (done: bool)
      requires Inv(View()) && Enabled(View(), Resume)
      modifies this
      ensures Inv(View()) && View() == Step(old(View()), Resume)
      ensures done == (old(Num(value, Link(waitsFor, current).value)) > 0) && done == (Link(waitsFor, old(current)) == None)
    {
      StepKeepsInv(View(), Resume);
      var k := Link(waitsFor, current).value;
      if k in holder {
        done := LockAcquireTurn(k);
      } else {
        done := SemaDownTurn(k);
      }
    }

    method Lower(k: Sid) returns (success: bool)
      modifies this`value
      ensures View() == SchedState.TryDown(old(View()), k) && success == (old(Num(value, k)) > 0)
    {
      success := Num(value, k) > 0;
      if success {
        value := value[k := Num(value, k) - 1];
      }
    }

    /** sema_try_down() */
    method SemaTryDown(k: Sid) returns (success: bool)
      requires Inv(View()) && Enabled(View(), Event.TryDown(k))
      modifies this`value
      ensures Inv(View()) && View() == Step(old(View()), Event.TryDown(k))
      ensures success == (old(Num(value, k)) > 0)
    {
      StepKeepsInv(View(), Event.TryDown(k));
      success := Lower(k);
    }

    /** sema_up() up to the call of thread_max_yield() */
    method Raise(k: Sid)
      modifies this`status, this`ready, this`value, this`waiters
      ensures View() == WakeOne(old(View()), k)
    {
      ghost var s' := WakeOne(View(), k);
      if List(waiters, k) != [] {
        WakeWaiter(k);
      }
      value := value[k := Num(value, k) + 1];
      assert Run() == s'.run && Sema() == s'.sync;
    }

    method WakeWaiter(k: Sid)
      requires List(waiters, k) != []
      modifies this`status, this`ready, this`waiters
      ensures var s := old(View());
              var w := Highest(List(s.sync.waiters, k), s.don.priority);
              && Run() == Unblock(s.run, w, priority)
              && Sema() == s.sync.(waiters := s.sync.waiters[k := Without(List(s.sync.waiters, k), w)])
    {
      var ws := List(waiters, k);
      var w := ListMin(ws, priority);
      waiters := waiters[k := Without(ws, w)];
      ThreadUnblock(w);
    }

    /** sema_up(): the first waiter of highest priority is woken, and the highest priority runs. */
    method SemaUp(k: Sid)
      requires Inv(View()) && Enabled(View(), Up(k))
      modifies this`status, this`ready, this`current, this`value, this`waiters
      ensures Inv(View()) && View() == SchedState.Preempt(Step(old(View()), Up(k))) && TopRuns(Run(), priority)
      ensures Num(value, k) == old(Num(value, k)) + 1
      ensures old(List(waiters, k)) != [] ==> WokeHighest(old(View()), View(), k)
    {
      UpWakes(View(), k);
      StepKeepsInv(View(), Up(k));
      Raise(k);
      MaxYielded();
    }

    /** lock_acquire() from the wait on: again after every wake-up. */
    method LockAcquireTurn(l: Sid) returns (done: bool)
      modifies this
      ensures View() == AcquireTurn(old(View()), l) && done == (old(Num(value, l)) != 0)
    {
      var c := current;
      done := SemaDownTurn(l);
      if done {
        holder := holder[l := Some(c)];
        required := required[c := None];
      }
    }

    method Acquired(l: Sid, ghost n: nat) returns (done: bool)
      requires Link(holder, l).Some? ==> ChainEnds(SchedAcquire.Require(Sema(), current, l), current, n)
      modifies this
      ensures View() == SchedAcquire.Acquire(old(View()), l, n)
      ensures done == (old(Num(value, l)) != 0)
    {
      if Link(holder, l).Some? {
        Donated(l, n);
      }
      done := LockAcquireTurn(l);
    }

    method Donated(l: Sid, ghost n: nat)
      requires ChainEnds(SchedAcquire.Require(Sema(), current, l), current, n)
      modifies this`ready, this`priority, this`donors, this`donatedTo, this`required
      ensures View() == Donate(old(View()).(sync := SchedAcquire.Require(old(Sema()), current, l)), current, n)
    {
      required := required[current := Some(l)];
      ThreadDonatePriority(current, n);
    }

    /** lock_acquire() up to its first sleep: `done` says whether the thread has the lock. */
    method LockAcquire(l: Sid) returns (done: bool)
      requires Inv(View()) && Enabled(View(), Event.Acquire(l))
      modifies this
      ensures Inv(View()) && View() == Step(old(View()), Event.Acquire(l))
      ensures done == old(Link(holder, l).None?)
      ensures if done then Link(holder, l) == Some(old(current))
              else List(waiters, l) == old(List(waiters, l) + [current])
    {
      StepHolders(View(), Event.Acquire(l), l);
      StepWaiters(View(), Event.Acquire(l), l);
      ghost var n := AcquireHops(View(), l);
      StepKeepsInv(View(), Event.Acquire(l));
      done := Acquired(l, n);
    }

    method Taken(l: Sid) returns (success: bool)
      requires Num(value, l) >= 0
      modifies this`value, this`holder
      ensures View() == SchedState.TryAcquire(old(View()), l) && success == (old(Num(value, l)) > 0)
    {
      success := Lower(l);
      if success {
        holder := holder[l := Some(current)];
      }
    }

    /** lock_try_acquire() */
    method LockTryAcquire(l: Sid) returns (success: bool)
      requires Inv(View()) && Enabled(View(), Event.TryAcquire(l))
      modifies this`value, this`holder
      ensures Inv(View()) && View() == Step(old(View()), Event.TryAcquire(l))
      ensures success == old(Link(holder, l).None?)
      ensures Link(holder, l) == if success then Some(current) else old(Link(holder, l))
    {
      LockValue(View(), l);
      StepHolders(View(), Event.TryAcquire(l), l);
      StepKeepsInv(View(), Event.TryAcquire(l));
      success := Taken(l);
    }

    method WithdrawDonations(l: Sid)
      modifies this`ready, this`priority, this`donors, this`donatedTo, this`holder
      ensures View() == Retract(old(View()), l)
    {
      var ws := List(waiters, l);
      if ws != [] {
        var e := 0;
        while e < |ws|
          invariant e <= |ws|
          invariant RemoveDonations(Don(), ws[e..]) == RemoveDonations(old(Don()), ws)
          invariant Run() == old(Run()) && Sema() == old(Sema())
        {
          ThreadRemoveDonation(ws[e]);
          assert ws[e..][1..] == ws[e + 1..];
          e := e + 1;
        }
        ThreadResetPriority(current);
      }
      holder := holder[l := None];
    }

    /** lock_release() */
    method LockRelease(l: Sid)
      requires Inv(View()) && Enabled(View(), Event.Release(l))
      modifies this
      ensures Inv(View()) && View() == Step(old(View()), Event.Release(l)) && TopRuns(Run(), priority)
      ensures Link(holder, l).None? && Num(value, l) == 1
      ensures old(List(waiters, l)) != [] ==> WokeHighest(old(View()), View(), l)
    {
      ReleaseWakes(View(), l);
      StepSettles(View(), Event.Release(l), Step(View(), Event.Release(l)));
      LetGo(l);
    }

    method LetGo(l: Sid)
      modifies this`status, this`ready, this`current, this`priority, this`donors, this`donatedTo, this`value,
               this`waiters, this`holder
      ensures View() == SchedState.Release(old(View()), l)
    {
      WithdrawDonations(l);
      Raise(l);
      ThreadMaxYield();
    }
  }

  lemma CreateEffect(s: State, t: Tid, p: int) returns (s': State)
    requires Inv(s) && Enabled(s, Event.Create(t, p))
    ensures s' == SchedState.Preempt(Step(s, Event.Create(t, p)))
    ensures Alive(s'.run, t) && Num(s'.don.base, t) == Num(s'.don.priority, t) == p
  {
    var s1 := Step(s, Event.Create(t, p));
    s' := SchedState.Preempt(s1);
    StepLiving(s, Event.Create(t, p), t);
    StepBases(s, Event.Create(t, p), t);
    StepKeepsInv(s, Event.Create(t, p));
    MaxYieldOk(s1.run, s1.don.priority);
  }

  /** Over sema_up(), with the yield at its end: one of the waiters, the first of highest priority,
      has left the list and is ready or runs. */
  ghost predicate WokeHighest(s: State, s': State, k: Sid)
  {
    var ws, ws' := List(s.sync.waiters, k), List(s'.sync.waiters, k);
    exists i: nat :: TakenAt(ws, ws', s.don.priority, i) && (ws[i] in s'.run.ready || ws[i] == s'.run.current)
  }

  lemma UpWakes(s: State, k: Sid)
    requires Inv(s) && Enabled(s, Up(k))
    ensures Num(WakeOne(s, k).sync.value, k) == Num(s.sync.value, k) + 1
    ensures List(s.sync.waiters, k) != [] ==> WokeHighest(s, SchedState.Preempt(WakeOne(s, k)), k)
  {
    if List(s.sync.waiters, k) != [] {
      WaiterRaised(s, k, WakeOne(s, k), SchedState.Preempt(WakeOne(s, k)), List(s.sync.waiters, k));
    }
  }

  lemma WaiterRaised(s: State, k: Sid, s1: State, s': State, ws: seq<Tid>)
    requires Inv(s) && Enabled(s, Up(k)) && s1 == WakeOne(s, k) && s' == SchedState.Preempt(s1)
    requires ws == List(s.sync.waiters, k) && ws != []
    ensures WokeHighest(s, s', k)
  {
    StepWaiters(s, Up(k), k);
    var i: nat :| TakenAt(ws, List(s1.sync.waiters, k), s.don.priority, i);
    StepKeepsInv(s, Up(k));
    SchedSteps.PreemptKeepsInv(s1);
    StepWaitsFor(s, Up(k), ws[i]);
    assert ws[i] in ws;
    MaxYieldOk(s1.run, s1.don.priority);
    NoLongerAsleep(s, s', ws, i, k);
  }

  lemma NoLongerAsleep(s: State, s': State, ws: seq<Tid>, i: nat, k: Sid)
    requires Inv(s) && Inv(s') && ws == List(s.sync.waiters, k) && i < |ws| && s'.run.idle == s.run.idle
    requires List(s'.sync.waiters, k) == ws[..i] + ws[i + 1..]
    requires Link(s'.sync.waitsFor, ws[i]) == Link(s.sync.waitsFor, ws[i]) && Alive(s'.run, ws[i])
    ensures ws[i] in s'.run.ready || ws[i] == s'.run.current
  {
    var w := ws[i];
    assert Distinct(ws) && w in ws;
    assert Link(s.sync.waitsFor, w) == Some(k) && w != s.run.idle;
    assert w !in List(s'.sync.waiters, k);
    assert !Asleep(s'.run, w);
  }

  lemma ReleaseWakes(s: State, l: Sid)
    requires Inv(s) && Enabled(s, Event.Release(l))
    ensures List(s.sync.waiters, l) != [] ==> WokeHighest(s, Step(s, Event.Release(l)), l)
    ensures Link(Step(s, Event.Release(l)).sync.holder, l).None? && Num(Step(s, Event.Release(l)).sync.value, l) == 1
  {
    LockValue(s, l);
    ReleaseSync(s, l);
    if List(s.sync.waiters, l) != [] {
      WaiterReleased(s, l, Step(s, Event.Release(l)), List(s.sync.waiters, l));
    }
  }

  lemma WaiterReleased(s: State, l: Sid, s': State, ws: seq<Tid>)
    requires Inv(s) && Enabled(s, Event.Release(l)) && s' == Step(s, Event.Release(l))
    requires ws == List(s.sync.waiters, l) && ws != []
    ensures WokeHighest(s, s', l)
  {
    var e := Event.Release(l);
    StepWaiters(s, e, l);
    var i: nat :| TakenAt(ws, List(s'.sync.waiters, l), s.don.priority, i);
    StepKeepsInv(s, e);
    StepWaitsFor(s, e, ws[i]);
    StepLiving(s, e, ws[i]);
    SameIdle(s, l);
    assert ws[i] in ws;
    NoLongerAsleep(s, s', ws, i, l);
  }

  lemma SameIdle(s: State, l: Sid)
    ensures SchedState.Release(s, l).run.idle == s.run.idle
  {
  }

  lemma StepSettles(s: State, e: Event, s': State)
    requires Inv(s) && Enabled(s, e) && Settles(e) && s' == Step(s, e)
    ensures Inv(s') && TopRuns(s'.run, s'.don.priority)
  {
    StepKeepsInv(s, e);
    StepTop(s, e);
  }

  /** How far the walk of a lock_acquire() that may be called goes */
  lemma AcquireHops(s: State, l: Sid) returns (n: nat)
    requires Inv(s) && Enabled(s, Event.Acquire(l))
    ensures Link(s.sync.holder, l).Some? ==> ChainEnds(SchedAcquire.Require(s.sync, s.run.current, l), s.run.current, n)
    ensures AcquireStep(s, l) == SchedAcquire.Acquire(s, l, n)
    ensures Num(s.sync.value, l) != 0 <==> Link(s.sync.holder, l).None?
  {
    LockValue(s, l);
    n := 0;
    if Link(s.sync.holder, l).Some? {
      n :| ChainEnds(SchedAcquire.Require(s.sync, s.run.current, l), s.run.current, n)
        && AcquireStep(s, l) == SchedAcquire.Acquire(s, l, n);
    }
  }

  lemma LockValue(s: State, l: Sid)
    requires LocksOk(s.sync) && l in s.sync.holder
    ensures Num(s.sync.value, l) == if Link(s.sync.holder, l).None? then 1 else 0
  {
    assert LockFree(s.sync, l) || LockHeld(s.sync, l);
  }
}
