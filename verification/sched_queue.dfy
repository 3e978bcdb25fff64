/** The ready list: who is on it, in which order, and who runs. */
module SchedQueue {
  import opened SchedState

  /** Exactly one thread runs; the threads in state READY, the idle thread aside, are
      those on the ready list, each once. */
  ghost predicate RunOk(q: RunQueue)
  {
    && StatusOf(q.status, q.current) == Running
    && (forall t | StatusOf(q.status, t) == Running :: t == q.current)
    && (forall t :: t in q.ready <==> StatusOf(q.status, t) == Ready && t != q.idle)
    && Distinct(q.ready)
    && StatusOf(q.status, q.idle) != NoThread
  }

  /** No ready thread has a higher priority than the running one. */
  ghost predicate TopRuns(q: RunQueue, pri: map<Tid, int>)
  {
    forall t | t in q.ready :: Num(pri, t) <= Num(pri, q.current)
  }

  ghost predicate QueueOk(q: RunQueue, pri: map<Tid, int>)
  {
    RunOk(q) && Sorted(q.ready, pri) && TopRuns(q, pri)
  }

  /** Asleep until somebody calls thread_unblock().  The idle thread does not count: it
      is scheduled whenever the ready list is empty. */
  predicate Asleep(q: RunQueue, t: Tid)
  {
    t != q.idle && StatusOf(q.status, t) == Blocked
  }

  /** The threads that exist. */
  ghost predicate Alive(q: RunQueue, t: Tid)
  {
    StatusOf(q.status, t) != NoThread
  }

  /** The queue as schedule() finds it, once the running thread has taken status `st`. */
  function Leaving(q: RunQueue, st: Status, ready: seq<Tid>): RunQueue
  {
    q.(status := q.status[q.current := st], ready := ready)
  }

  ghost predicate MayLeave(q: RunQueue, st: Status, ready: seq<Tid>)
  {
    && RunOk(q) && st != Running && (q.current == q.idle ==> st != NoThread)
    && Distinct(ready)
    && forall t :: t in ready <==> t in q.ready || (t == q.current && st == Ready && t != q.idle)
  }

  lemma PopFront(xs: seq<Tid>, pri: map<Tid, int>)
    requires xs != [] && Distinct(xs) && Sorted(xs, pri)
    ensures Sorted(xs[1..], pri) && Distinct(xs[1..])
    ensures forall t :: t in xs[1..] <==> t in xs && t != xs[0]
    ensures forall t | t in xs :: Num(pri, t) <= Num(pri, xs[0])
  {
    forall t | t in xs && t != xs[0]
      ensures t in xs[1..]
    {
      var i :| 0 <= i < |xs| && xs[i] == t;
      assert xs[1..][i - 1] == t;
    }
    forall t | t in xs
      ensures Num(pri, t) <= Num(pri, xs[0])
    {
      var i :| 0 <= i < |xs| && xs[i] == t;
    }
  }

  lemma ScheduleStatus(q: RunQueue, st: Status, ready: seq<Tid>, t: Tid)
    ensures var q' := Schedule(Leaving(q, st, ready));
            && q'.current == (if ready == [] then q.idle else ready[0])
            && StatusOf(q'.status, t) == (if t == q'.current then Running
                                          else if t == q.current then st
                                          else StatusOf(q.status, t))
  {
  }

  lemma ScheduleRunOk(q: RunQueue, st: Status, ready: seq<Tid>, pri: map<Tid, int>)
    requires MayLeave(q, st, ready) && Sorted(ready, pri)
    ensures RunOk(Schedule(Leaving(q, st, ready)))
  {
    var q' := Schedule(Leaving(q, st, ready));
    if ready != [] {
      PopFront(ready, pri);
      assert ready[0] in ready;
    }
    forall t
      ensures t in q'.ready <==> StatusOf(q'.status, t) == Ready && t != q'.idle
      ensures StatusOf(q'.status, t) == Running ==> t == q'.current
    {
      ScheduleStatus(q, st, ready, t);
      assert t in ready <==> t in q.ready || (t == q.current && st == Ready && t != q.idle);
      assert t in q.ready <==> StatusOf(q.status, t) == Ready && t != q.idle;
      if ready == [] { assert t !in ready; }
    }
  }

  /** schedule(): the front of the ready list runs. */
  lemma ScheduleOk(q: RunQueue, st: Status, ready: seq<Tid>, pri: map<Tid, int>)
    requires MayLeave(q, st, ready) && Sorted(ready, pri)
    ensures QueueOk(Schedule(Leaving(q, st, ready)), pri)
    ensures forall t :: Asleep(Schedule(Leaving(q, st, ready)), t) <==>
                        Asleep(q, t) || (t == q.current && t != q.idle && st == Blocked)
    ensures forall t :: Alive(Schedule(Leaving(q, st, ready)), t) <==>
                        Alive(q, t) && (t == q.current ==> st != NoThread)
  {
    var q' := Schedule(Leaving(q, st, ready));
    ScheduleRunOk(q, st, ready, pri);
    if ready != [] {
      PopFront(ready, pri);
      assert ready[0] in ready;
    }
    forall t
      ensures Asleep(q', t) <==> Asleep(q, t) || (t == q.current && t != q.idle && st == Blocked)
      ensures Alive(q', t) <==> Alive(q, t) && (t == q.current ==> st != NoThread)
    {
      ScheduleStatus(q, st, ready, t);
    }
  }

  lemma BlockOk(q: RunQueue, pri: map<Tid, int>)
    requires RunOk(q) && Sorted(q.ready, pri)
    ensures QueueOk(Block(q), pri) && Block(q).idle == q.idle
    ensures forall t :: Asleep(Block(q), t) <==> Asleep(q, t) || (t == q.current && t != q.idle)
    ensures forall t :: Alive(Block(q), t) <==> Alive(q, t)
  {
    ScheduleOk(q, Blocked, q.ready, pri);
    assert Block(q) == Schedule(Leaving(q, Blocked, q.ready));
  }

  lemma YieldOk(q: RunQueue, pri: map<Tid, int>)
    requires RunOk(q) && Sorted(q.ready, pri)
    ensures QueueOk(Yield(q, pri), pri) && Yield(q, pri).idle == q.idle
    ensures forall t :: Asleep(Yield(q, pri), t) <==> Asleep(q, t)
    ensures forall t :: Alive(Yield(q, pri), t) <==> Alive(q, t)
  {
    var c := q.current;
    if c != q.idle {
      assert c !in q.ready;
      InsertSorted(q.ready, c, pri);
      InsertDistinct(q.ready, c, pri);
      InsertElems(q.ready, c, pri);
      ScheduleOk(q, Ready, InsertOrdered(q.ready, c, pri), pri);
    } else {
      ScheduleOk(q, Ready, q.ready, pri);
    }
  }

  /** thread_max_yield() puts the highest priority back on the processor. */
  lemma MaxYieldOk(q: RunQueue, pri: map<Tid, int>)
    requires RunOk(q) && Sorted(q.ready, pri)
    ensures QueueOk(MaxYield(q, pri), pri) && MaxYield(q, pri).idle == q.idle
    ensures forall t :: Asleep(MaxYield(q, pri), t) <==> Asleep(q, t)
    ensures forall t :: Alive(MaxYield(q, pri), t) <==> Alive(q, t)
  {
    if MaxReadyPriority(q, pri) > Num(pri, q.current) {
      YieldOk(q, pri);
    } else {
      forall t | t in q.ready
        ensures Num(pri, t) <= Num(pri, q.current)
      {
        var i :| 0 <= i < |q.ready| && q.ready[i] == t;
        assert Num(pri, q.ready[0]) >= Num(pri, q.ready[i]);
      }
    }
  }

  lemma UnblockOk(q: RunQueue, t: Tid, pri: map<Tid, int>)
    requires RunOk(q) && Sorted(q.ready, pri)
    requires t != q.idle && t != q.current && t !in q.ready
    ensures RunOk(Unblock(q, t, pri)) && Sorted(Unblock(q, t, pri).ready, pri)
    ensures forall u :: Asleep(Unblock(q, t, pri), u) <==> Asleep(q, u) && u != t
    ensures forall u :: Alive(Unblock(q, t, pri), u) <==> Alive(q, u) || u == t
  {
    InsertSorted(q.ready, t, pri);
    InsertDistinct(q.ready, t, pri);
    InsertElems(q.ready, t, pri);
    assert forall u :: StatusOf(Unblock(q, t, pri).status, u) == (if u == t then Ready else StatusOf(q.status, u));
  }

  /** thread_reinsert_ready_list() after `t`'s priority, and no other, has changed. */
  lemma ReinsertOk(q: RunQueue, t: Tid, pri: map<Tid, int>, p: int)
    requires RunOk(q) && Sorted(q.ready, pri) && t != q.idle
    ensures RunOk(Reinsert(q, t, pri[t := p])) && Sorted(Reinsert(q, t, pri[t := p]).ready, pri[t := p])
  {
    WithoutSortedAfter(q.ready, t, pri, p);
    WithoutElems(q.ready, t);
    if StatusOf(q.status, t) == Ready {
      var rest := Without(q.ready, t);
      InsertSorted(rest, t, pri[t := p]);
      InsertDistinct(rest, t, pri[t := p]);
      InsertElems(rest, t, pri[t := p]);
    } else {
      WithoutAbsent(q.ready, t);
    }
  }

  lemma ExitOk(q: RunQueue, pri: map<Tid, int>)
    requires RunOk(q) && Sorted(q.ready, pri) && q.current != q.idle
    ensures var q' := Schedule(q.(status := q.status - {q.current}));
            && QueueOk(q', pri) && q'.idle == q.idle
            && (forall t :: Asleep(q', t) <==> Asleep(q, t))
            && (forall t :: Alive(q', t) <==> Alive(q, t) && t != q.current)
  {
    var c := q.current;
    var q1 := Schedule(Leaving(q, NoThread, q.ready));
    var q' := Schedule(q.(status := q.status - {c}));
    ScheduleOk(q, NoThread, q.ready, pri);
    assert q'.current == q1.current && q'.ready == q1.ready && q'.idle == q1.idle;
    assert q'.current != c;
    forall t
      ensures StatusOf(q'.status, t) == StatusOf(q1.status, t)
    {
    }
  }
}
