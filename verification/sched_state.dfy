/** The scheduler's shared state and the interrupts-off regions of thread.c and
    synch.c as functions on it (priority mode, `thread_mlfqs` false). */
module SchedState {

  datatype Option<T> = None | Some(value: T)

  /** Threads and semaphores are named by their addresses.  A lock goes by the name of
      the semaphore inside it. */
  type Tid = int
  type Sid = int

  const PRI_MIN := 0
  const PRI_MAX := 63

  datatype Status = Running | Ready | Blocked | NoThread

  /** Who runs and who is ready: `status` of every thread and the globals of thread.c. */
  datatype RunQueue = RunQueue(
    status: map<Tid, Status>,
    ready: seq<Tid>,
    current: Tid,
    idle: Tid)

  /** The priority members of every thread.  `donatedTo` says on whose donation list a
      thread's `dona_elem` is linked; None is the null `dona_elem.next`. */
  datatype Donations = Donations(
    priority: map<Tid, int>,
    base: map<Tid, int>,
    donors: map<Tid, seq<Tid>>,
    donatedTo: map<Tid, Option<Tid>>)

  /** Semaphores and locks.  `required` is the thread member of that name, `waitsFor` the
      semaphore whose sema_down() loop a thread is inside; `holder` has an entry exactly
      for the semaphores that belong to a lock. */
  datatype Sync = Sync(
    required: map<Tid, Option<Sid>>,
    waitsFor: map<Tid, Option<Sid>>,
    value: map<Sid, int>,
    waiters: map<Sid, seq<Tid>>,
    holder: map<Sid, Option<Tid>>)

  datatype State = State(run: RunQueue, don: Donations, sync: Sync)

  /* ----- Reading a member; what is not there reads as zero, empty or null ----- */

  function Num(m: map<int, int>, k: int): (n: int)
  {
    if k in m then m[k] else 0
  }

  function List(m: map<int, seq<Tid>>, k: int): (xs: seq<Tid>)
  {
    if k in m then m[k] else []
  }

  function Link(m: map<int, Option<int>>, k: int): (p: Option<int>)
  {
    if k in m then m[k] else None
  }

  function StatusOf(m: map<Tid, Status>, t: Tid): (st: Status)
  {
    if t in m then m[t] else NoThread
  }

  /* ----- Lists ----- */

  ghost predicate Distinct(xs: seq<Tid>)
  {
    forall i, j | 0 <= i < j < |xs| :: xs[i] != xs[j]
  }

  /** Descending priority. */
  ghost predicate Sorted(xs: seq<Tid>, pri: map<Tid, int>)
  {
    forall i, j | 0 <= i < j < |xs| :: Num(pri, xs[i]) >= Num(pri, xs[j])
  }

  /** Where list_insert_ordered() puts an element of priority `p`: in front of the
      first element of strictly lower priority. */
  function InsertPos(xs: seq<Tid>, p: int, pri: map<Tid, int>): (r: nat)
    ensures r <= |xs|
    ensures forall i | 0 <= i < r :: Num(pri, xs[i]) >= p
    ensures r < |xs| ==> Num(pri, xs[r]) < p
  {
    if xs == [] || p > Num(pri, xs[0]) then 0 else 1 + InsertPos(xs[1..], p, pri)
  }

  function InsertOrdered(xs: seq<Tid>, t: Tid, pri: map<Tid, int>): (r: seq<Tid>)
  {
    var i := InsertPos(xs, Num(pri, t), pri);
    xs[..i] + [t] + xs[i..]
  }

  /** list_remove(): the list without its first `t`. */
  function Without(xs: seq<Tid>, t: Tid): (r: seq<Tid>)
  {
    if xs == [] then []
    else if xs[0] == t then xs[1..]
    else [xs[0]] + Without(xs[1..], t)
  }

  /** list_min() under thread_compare_priority(): the first thread of highest priority. */
  function HighestPos(xs: seq<Tid>, pri: map<Tid, int>): (r: nat)
    requires xs != []
    ensures r < |xs|
  {
    if |xs| == 1 then 0
    else
      var i := HighestPos(xs[..|xs| - 1], pri);
      if Num(pri, xs[|xs| - 1]) > Num(pri, xs[i]) then |xs| - 1 else i
  }

  /** Nobody on the list has a higher priority than the thread at `r`, and those in front of it
      have a lower one. */
  ghost predicate FirstHighest(xs: seq<Tid>, pri: map<Tid, int>, r: nat)
  {
    && r < |xs|
    && (forall i | 0 <= i < |xs| :: Num(pri, xs[i]) <= Num(pri, xs[r]))
    && (forall i | 0 <= i < r :: Num(pri, xs[i]) < Num(pri, xs[r]))
  }

  lemma {:induction false} HighestPosIsFirst(xs: seq<Tid>, pri: map<Tid, int>)
    requires xs != []
    ensures FirstHighest(xs, pri, HighestPos(xs, pri))
  {
    if |xs| > 1 { HighestPosIsFirst(xs[..|xs| - 1], pri); }
  }

  function Highest(xs: seq<Tid>, pri: map<Tid, int>): (r: Tid)
    requires xs != []
    ensures r in xs
  {
    xs[HighestPos(xs, pri)]
  }

  /* ----- thread.c: the ready list ----- */

  /** thread_reinsert_ready_list() */
  function Reinsert(q: RunQueue, t: Tid, pri: map<Tid, int>): (q': RunQueue)
  {
    if StatusOf(q.status, t) == Ready
    then q.(ready := InsertOrdered(Without(q.ready, t), t, pri))
    else q
  }

  /** next_thread_to_run() and schedule(); the caller has already changed the status of
      the thread that stops running. */
  function Schedule(q: RunQueue): (q': RunQueue)
  {
    if q.ready == []
    then q.(status := q.status[q.idle := Running], current := q.idle)
    else q.(status := q.status[q.ready[0] := Running], current := q.ready[0], ready := q.ready[1..])
  }

  /** thread_block() */
  function Block(q: RunQueue): (q': RunQueue)
  {
    Schedule(q.(status := q.status[q.current := Blocked]))
  }

  /** thread_unblock() */
  function Unblock(q: RunQueue, t: Tid, pri: map<Tid, int>): (q': RunQueue)
  {
    q.(ready := InsertOrdered(q.ready, t, pri), status := q.status[t := Ready])
  }

  /** thread_yield() */
  function Yield(q: RunQueue, pri: map<Tid, int>): (q': RunQueue)
  {
    var c := q.current;
    var ready' := if c != q.idle then InsertOrdered(q.ready, c, pri) else q.ready;
    Schedule(q.(status := q.status[c := Ready], ready := ready'))
  }

  /** thread_get_max_priority() */
  function MaxReadyPriority(q: RunQueue, pri: map<Tid, int>): (p: int)
  {
    if q.ready == [] then PRI_MIN - 1 else Num(pri, q.ready[0])
  }

  /** thread_max_yield() */
  function MaxYield(q: RunQueue, pri: map<Tid, int>): (q': RunQueue)
  {
    if MaxReadyPriority(q, pri) > Num(pri, q.current) then Yield(q, pri) else q
  }

  /* ----- thread.c: priorities ----- */

  function Max(a: int, b: int): (m: int)
  {
    if a > b then a else b
  }

  /** thread_get_donated_priority() */
  function DonatedPriority(d: Donations, t: Tid): (p: int)
  {
    var ds := List(d.donors, t);
    if ds == [] then PRI_MIN - 1 else Num(d.priority, ds[0])
  }

  /** What thread_reset_priority() stores in `t`'s `priority`. */
  function Renew(d: Donations, t: Tid): (d': Donations)
  {
    d.(priority := d.priority[t := Max(DonatedPriority(d, t), Num(d.base, t))])
  }

  /** thread_remove_donation() */
  function RemoveDonation(d: Donations, t: Tid): (d': Donations)
  {
    match Link(d.donatedTo, t)
    case None => d
    case Some(h) =>
      d.(donors := d.donors[h := Without(List(d.donors, h), t)],
         donatedTo := d.donatedTo[t := None])
  }

  /** list_insert_ordered() of `t` on `h`'s donation list */
  function AddDonation(d: Donations, h: Tid, t: Tid): (d': Donations)
  {
    d.(donors := d.donors[h := InsertOrdered(List(d.donors, h), t, d.priority)],
       donatedTo := d.donatedTo[t := Some(h)])
  }

  /** thread_reset_priority() */
  function ResetPriority(s: State, t: Tid): (s': State)
  {
    var d := Renew(s.don, t);
    s.(don := d, run := Reinsert(s.run, t, d.priority))
  }

  /** thread_max_yield() by the current thread */
  function Preempt(s: State): (s': State)
  {
    s.(run := MaxYield(s.run, s.don.priority))
  }

  /** thread_set_priority() up to the call of thread_max_yield() */
  function SetBase(s: State, p: int): (s': State)
  {
    var c := s.run.current;
    ResetPriority(s.(don := s.don.(base := s.don.base[c := p])), c)
  }

  /** init_thread() and the call of thread_unblock() in thread_create() */
  function Spawn(s: State, t: Tid, p: int): (s': State)
  {
    var d := Donations(s.don.priority[t := p], s.don.base[t := p],
                       s.don.donors[t := []], s.don.donatedTo[t := None]);
    var y := s.sync.(required := s.sync.required[t := None], waitsFor := s.sync.waitsFor[t := None]);
    State(Unblock(s.run, t, d.priority), d, y)
  }

  /** thread_exit(); the thread's page is freed once another one runs. */
  function Exit(s: State): (s': State)
  {
    s.(run := Schedule(s.run.(status := s.run.status - {s.run.current})))
  }

  /* ----- synch.c ----- */

  /** One turn of sema_down()'s loop by the current thread. */
  function DownTurn(s: State, k: Sid): (s': State)
  {
    var c, y := s.run.current, s.sync;
    if Num(y.value, k) == 0 then
      s.(run := Block(s.run),
         sync := y.(waiters := y.waiters[k := List(y.waiters, k) + [c]],
                    waitsFor := y.waitsFor[c := Some(k)]))
    else
      s.(sync := y.(value := y.value[k := Num(y.value, k) - 1], waitsFor := y.waitsFor[c := None]))
  }

  /** sema_try_down() */
  function TryDown(s: State, k: Sid): (s': State)
  {
    var y := s.sync;
    if Num(y.value, k) > 0 then s.(sync := y.(value := y.value[k := Num(y.value, k) - 1])) else s
  }

  /** sema_up() up to the call of thread_max_yield(): the waiter of highest priority
      moves to the ready list and the value goes up. */
  function WakeOne(s: State, k: Sid): (s': State)
  {
    var y := s.sync.(value := s.sync.value[k := Num(s.sync.value, k) + 1]);
    var ws := List(y.waiters, k);
    if ws == [] then s.(sync := y)
    else
      var w := Highest(ws, s.don.priority);
      s.(run := Unblock(s.run, w, s.don.priority),
         sync := y.(waiters := y.waiters[k := Without(ws, w)]))
  }

  /** One turn of the wait inside lock_acquire(): on success the thread becomes the holder. */
  function AcquireTurn(s: State, l: Sid): (s': State)
  {
    var c, s1 := s.run.current, DownTurn(s, l);
    if Num(s.sync.value, l) == 0 then s1
    else
      s1.(sync := s1.sync.(holder := s1.sync.holder[l := Some(c)],
                           required := s1.sync.required[c := None]))
  }

  /** lock_try_acquire() */
  function TryAcquire(s: State, l: Sid): (s': State)
  {
    var s1 := TryDown(s, l);
    if Num(s.sync.value, l) == 0 then s1
    else s1.(sync := s1.sync.(holder := s1.sync.holder[l := Some(s.run.current)]))
  }

  /** The loop of lock_release() over the threads waiting for the lock. */
  function RemoveDonations(d: Donations, ts: seq<Tid>): (d': Donations)
    decreases |ts|
  {
    if ts == [] then d else RemoveDonations(RemoveDonation(d, ts[0]), ts[1..])
  }

  /** lock_release() up to the call of sema_up() */
  function Retract(s: State, l: Sid): (s': State)
  {
    var ws := List(s.sync.waiters, l);
    var s1 := if ws == [] then s
              else ResetPriority(s.(don := RemoveDonations(s.don, ws)), s.run.current);
    s1.(sync := s1.sync.(holder := s1.sync.holder[l := None]))
  }

  /** lock_release(), all of it with interrupts off */
  function Release(s: State, l: Sid): (s': State)
  {
    Preempt(WakeOne(Retract(s, l), l))
  }

  /* ----- List facts ----- */

  /** Taking `t` out of a list without repetitions leaves the others, in order. */
  lemma {:induction false} WithoutAt(xs: seq<Tid>, i: nat)
    requires i < |xs| && Distinct(xs)
    ensures Without(xs, xs[i]) == xs[..i] + xs[i + 1..]
  {
    if i > 0 {
      var tail := xs[1..];
      assert tail[i - 1] == xs[i];
      WithoutAt(tail, i - 1);
      assert [xs[0]] + (tail[..i - 1] + tail[i..]) == xs[..i] + xs[i + 1..];
    }
  }

  lemma {:induction false} WithoutAbsent(xs: seq<Tid>, t: Tid)
    requires t !in xs
    ensures Without(xs, t) == xs
  {
    if xs != [] {
      WithoutAbsent(xs[1..], t);
    }
  }

  lemma WithoutElems(xs: seq<Tid>, t: Tid)
    requires Distinct(xs)
    ensures Distinct(Without(xs, t))
    ensures t !in Without(xs, t)
    ensures forall x :: x in Without(xs, t) <==> x in xs && x != t
  {
    if t in xs {
      var i :| 0 <= i < |xs| && xs[i] == t;
      WithoutAt(xs, i);
      var r := xs[..i] + xs[i + 1..];
      forall x | x in xs && x != t
        ensures x in r
      {
        var j :| 0 <= j < |xs| && xs[j] == x;
        assert r[if j < i then j else j - 1] == x;
      }
    } else {
      WithoutAbsent(xs, t);
    }
  }

  lemma WithoutSorted(xs: seq<Tid>, t: Tid, pri: map<Tid, int>)
    requires Distinct(xs) && Sorted(xs, pri)
    ensures Sorted(Without(xs, t), pri)
  {
    if t in xs {
      var i :| 0 <= i < |xs| && xs[i] == t;
      WithoutAt(xs, i);
    } else {
      WithoutAbsent(xs, t);
    }
  }

  /** As WithoutSorted, when only `t`'s own priority may have lost its place. */
  lemma WithoutSortedAfter(xs: seq<Tid>, t: Tid, pri: map<Tid, int>, p: int)
    requires Distinct(xs) && Sorted(xs, pri)
    ensures Sorted(Without(xs, t), pri[t := p])
  {
    WithoutSorted(xs, t, pri);
    WithoutElems(xs, t);
    var r := Without(xs, t);
    forall i, j | 0 <= i < j < |r|
      ensures Num(pri[t := p], r[i]) >= Num(pri[t := p], r[j])
    {
      assert r[i] in r && r[j] in r;
    }
  }

  lemma InsertElems(xs: seq<Tid>, t: Tid, pri: map<Tid, int>)
    ensures forall x :: x in InsertOrdered(xs, t, pri) <==> x == t || x in xs
  {
    var p := InsertPos(xs, Num(pri, t), pri);
    var r := InsertOrdered(xs, t, pri);
    assert r[p] == t;
    forall x | x in xs
      ensures x in r
    {
      var i :| 0 <= i < |xs| && xs[i] == x;
      assert r[if i < p then i else i + 1] == x;
    }
  }

  lemma InsertDistinct(xs: seq<Tid>, t: Tid, pri: map<Tid, int>)
    requires Distinct(xs) && t !in xs
    ensures Distinct(InsertOrdered(xs, t, pri))
  {
    var p := InsertPos(xs, Num(pri, t), pri);
    var r := InsertOrdered(xs, t, pri);
    forall i, j | 0 <= i < j < |r|
      ensures r[i] != r[j]
    {
      var i' := if i < p then i else i - 1;
      var j' := if j < p then j else j - 1;
      if i != p && j != p {
        assert r[i] == xs[i'] && r[j] == xs[j'];
      } else if i == p {
        assert r[j] == xs[j'];
      } else {
        assert r[i] == xs[i'];
      }
    }
  }

  /** Ordered insertion keeps a list sorted; equal priorities stay in arrival order
      because the new element goes behind them (InsertPos). */
  lemma InsertSorted(xs: seq<Tid>, t: Tid, pri: map<Tid, int>)
    requires Sorted(xs, pri)
    ensures Sorted(InsertOrdered(xs, t, pri), pri)
  {
    var p := InsertPos(xs, Num(pri, t), pri);
    var r := InsertOrdered(xs, t, pri);
    forall i, j | 0 <= i < j < |r|
      ensures Num(pri, r[i]) >= Num(pri, r[j])
    {
      InsertedIs(xs, t, p, i);
      InsertedIs(xs, t, p, j);
      if i == p && j - 1 > p { assert Num(pri, xs[p]) >= Num(pri, xs[j - 1]); }
    }
  }

  lemma InsertedIs(xs: seq<Tid>, t: Tid, p: nat, i: nat)
    requires p <= |xs| && i <= |xs|
    ensures (xs[..p] + [t] + xs[p..])[i] == if i < p then xs[i] else if i == p then t else xs[i - 1]
  {
  }
}
