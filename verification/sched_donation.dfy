/** Nested priority donation: the walk of thread_donate_priority() up the chain of
    lock holders, when it ends, and what it restores. */
module SchedDonation {
  import opened SchedState

  /* ----- The wait-for chain ----- */

  predicate Requires(y: Sync, t: Tid)
  {
    Link(y.required, t).Some?
  }

  /** The holder of the lock `t` requires. */
  function HolderFor(y: Sync, t: Tid): Option<Tid>
    requires Requires(y, t)
  {
    Link(y.holder, Link(y.required, t).value)
  }

  /** Starting at `t`, `n` hops from a thread to the holder of the lock it requires
      end at a thread that requires none; every lock on the way has a holder. */
  ghost predicate ChainEnds(y: Sync, t: Tid, n: nat)
    decreases n
  {
    if n == 0 then !Requires(y, t)
    else Requires(y, t) && HolderFor(y, t).Some? && ChainEnds(y, HolderFor(y, t).value, n - 1)
  }

  ghost predicate ChainFinite(y: Sync, t: Tid)
  {
    exists n: nat :: ChainEnds(y, t, n)
  }

  /** `u` is the thread `i` hops up the chain from `t`. */
  ghost predicate OnChain(y: Sync, t: Tid, i: nat, u: Tid)
    decreases i
  {
    if i == 0 then u == t
    else Requires(y, t) && HolderFor(y, t).Some? && OnChain(y, HolderFor(y, t).value, i - 1, u)
  }

  lemma {:induction false} ChainFrom(y: Sync, t: Tid, n: nat, i: nat, u: Tid)
    requires ChainEnds(y, t, n) && OnChain(y, t, i, u)
    ensures i <= n && ChainEnds(y, u, n - i)
    decreases n
  {
    if i > 0 {
      ChainFrom(y, HolderFor(y, t).value, n - 1, i - 1, u);
    }
  }

  lemma {:induction false} ChainLengthUnique(y: Sync, t: Tid, m: nat, n: nat)
    ensures ChainEnds(y, t, m) && ChainEnds(y, t, n) ==> m == n
    decreases m
  {
    if m > 0 && n > 0 && Requires(y, t) && HolderFor(y, t).Some? {
      ChainLengthUnique(y, HolderFor(y, t).value, m - 1, n - 1);
    }
  }

  /** A chain that ends never comes back to a thread it has left. */
  lemma ChainAcyclic(y: Sync, t: Tid, n: nat, i: nat)
    requires ChainEnds(y, t, n) && OnChain(y, t, i, t)
    ensures i == 0
  {
    ChainFrom(y, t, n, i, t);
    ChainLengthUnique(y, t, n, n - i);
  }

  /* ----- When a chain ends ----- */

  /** Every thread up the chain from `t` finds the lock it requires held by somebody. */
  ghost predicate HoldersFound(y: Sync, t: Tid)
  {
    forall i: nat, u | OnChain(y, t, i, u) && Requires(y, u) :: HolderFor(y, u).Some?
  }

  /** No thread is met twice. */
  ghost predicate NeverTwice(y: Sync, t: Tid)
  {
    forall i: nat, j: nat, u | OnChain(y, t, i, u) && OnChain(y, t, j, u) :: i == j
  }

  /** The chain ends exactly if all its locks are held and no thread is met twice. */
  lemma ChainFiniteIff(y: Sync, t: Tid)
    ensures ChainFinite(y, t) <==> HoldersFound(y, t) && NeverTwice(y, t)
  {
    if ChainFinite(y, t) {
      var n: nat :| ChainEnds(y, t, n);
      forall i: nat, u | OnChain(y, t, i, u) && Requires(y, u)
        ensures HolderFor(y, u).Some?
      {
        ChainFrom(y, t, n, i, u);
      }
      forall i: nat, j: nat, u | OnChain(y, t, i, u) && OnChain(y, t, j, u)
        ensures i == j
      {
        ChainFrom(y, t, n, i, u);
        ChainFrom(y, t, n, j, u);
        ChainLengthUnique(y, u, n - i, n - j);
      }
    }
    if HoldersFound(y, t) && NeverTwice(y, t) {
      var n := ChainRuns(y, t, 0, t, {});
    }
  }

  ghost predicate Earlier(y: Sync, t: Tid, i: nat, u: Tid)
  {
    exists j: nat :: j < i && OnChain(y, t, j, u)
  }

  /** Only finitely many threads require a lock, so the chain runs out of threads it has
      not met. */
  lemma {:induction false} ChainRuns(y: Sync, t: Tid, i: nat, u: Tid, seen: set<Tid>) returns (n: nat)
    requires HoldersFound(y, t) && NeverTwice(y, t) && OnChain(y, t, i, u)
    requires forall v | v in seen :: v in y.required && Earlier(y, t, i, v)
    ensures ChainEnds(y, u, n)
    decreases |y.required.Keys - seen|
  {
    if !Requires(y, u) {
      n := 0;
    } else {
      assert u !in seen;
      OnChainNext(y, t, i, u);
      forall v | v in seen + {u}
        ensures v in y.required && Earlier(y, t, i + 1, v)
      {
        if v != u {
          var j: nat :| j < i && OnChain(y, t, j, v);
        }
      }
      assert y.required.Keys - (seen + {u}) == (y.required.Keys - seen) - {u};
      n := ChainRuns(y, t, i + 1, HolderFor(y, u).value, seen + {u});
      n := n + 1;
    }
  }

  lemma {:induction false} OnChainNext(y: Sync, t: Tid, i: nat, u: Tid)
    requires OnChain(y, t, i, u) && Requires(y, u) && HolderFor(y, u).Some?
    ensures OnChain(y, t, i + 1, HolderFor(y, u).value)
    decreases i
  {
    if i == 0 {
      assert OnChain(y, HolderFor(y, t).value, 0, HolderFor(y, t).value);
    } else {
      OnChainNext(y, HolderFor(y, t).value, i - 1, u);
    }
  }

  /* ----- The walk ----- */

  /** What one iteration of the loop does to the donation lists before it looks at the
      holder: `t`'s priority is brought up to date and its old donation withdrawn. */
  function Refresh(d: Donations, t: Tid, isCurrent: bool): (d': Donations)
  {
    if isCurrent then Renew(d, t) else RemoveDonation(Renew(d, t), t)
  }

  /** ... and all of it, on a chain thread whose lock has the holder `h`. */
  function Pass(d: Donations, t: Tid, h: Tid, isCurrent: bool): (d': Donations)
  {
    AddDonation(Refresh(d, t, isCurrent), h, t)
  }

  /** One iteration of thread_donate_priority()'s loop: what it leaves behind ... */
  function WalkState(s: State, t: Tid): (s': State)
    requires Requires(s.sync, t)
  {
    var isCurrent := s.run.current == t;
    var q := Reinsert(s.run, t, Renew(s.don, t).priority);
    match HolderFor(s.sync, t)
    case None => State(q, Refresh(s.don, t, isCurrent), s.sync)
    case Some(h) => State(q, Pass(s.don, t, h, isCurrent), s.sync)
  }

  /** ... and where the loop variable goes.  Without a holder it does not move. */
  function WalkNext(y: Sync, t: Tid): (u: Tid)
    requires Requires(y, t)
  {
    match HolderFor(y, t)
    case None => t
    case Some(h) => h
  }

  /** The loop's state after `n` iterations, or where it stopped earlier. */
  function Walk(s: State, t: Tid, n: nat): (r: (State, Tid))
    decreases n
  {
    if n == 0 || !Requires(s.sync, t) then (s, t)
    else var s1, h := WalkState(s, t), WalkNext(s.sync, t); Walk(s1, h, n - 1)
  }

  ghost predicate StopsWithin(s: State, t: Tid, n: nat)
  {
    var (s1, u) := Walk(s, t, n);
    !Requires(s1.sync, u)
  }

  /** The loop of thread_donate_priority() ends. */
  ghost predicate WalkStops(s: State, t: Tid)
  {
    exists n: nat :: StopsWithin(s, t, n)
  }

  /** thread_donate_priority() along a chain of `n` hops */
  function Donate(s: State, t: Tid, ghost n: nat): (s': State)
    requires ChainEnds(s.sync, t, n)
    decreases n
  {
    if !Requires(s.sync, t) then ResetPriority(s, t)
    else var s1, h := WalkState(s, t), WalkNext(s.sync, t); Donate(s1, h, n - 1)
  }

  /** Where the loop variable is after `n` iterations. */
  function WalkPos(y: Sync, t: Tid, n: nat): (u: Tid)
    decreases n
  {
    if n == 0 || !Requires(y, t) then t else WalkPos(y, WalkNext(y, t), n - 1)
  }

  /** The walk changes neither what threads require nor who holds what. */
  lemma {:induction false} WalkAt(s: State, t: Tid, n: nat)
    ensures Walk(s, t, n).0.sync == s.sync && Walk(s, t, n).1 == WalkPos(s.sync, t, n)
    decreases n
  {
    if n > 0 && Requires(s.sync, t) {
      WalkAt(WalkState(s, t), WalkNext(s.sync, t), n - 1);
    }
  }

  /** Exactly when the loop of thread_donate_priority() ends: it meets no required lock
      whose holder is null, and no thread twice. */
  lemma WalkStopsIff(s: State, t: Tid)
    ensures WalkStops(s, t) <==> ChainFinite(s.sync, t)
    ensures WalkStops(s, t) <==> HoldersFound(s.sync, t) && NeverTwice(s.sync, t)
  {
    ChainFiniteIff(s.sync, t);
    if WalkStops(s, t) {
      var n: nat :| StopsWithin(s, t, n);
      WalkAt(s, t, n);
      var m := StopGivesChain(s.sync, t, n);
      assert ChainEnds(s.sync, t, m);
    }
    if ChainFinite(s.sync, t) {
      var n: nat :| ChainEnds(s.sync, t, n);
      ChainGivesStop(s.sync, t, n);
      WalkAt(s, t, n);
      assert StopsWithin(s, t, n);
    }
  }

  lemma {:induction false} StopGivesChain(y: Sync, t: Tid, n: nat) returns (m: nat)
    requires !Requires(y, WalkPos(y, t, n))
    ensures ChainEnds(y, t, m)
    decreases n
  {
    if !Requires(y, t) {
      m := 0;
    } else {
      m := StopGivesChain(y, WalkNext(y, t), n - 1);
      m := m + 1;
    }
  }

  lemma {:induction false} ChainGivesStop(y: Sync, t: Tid, n: nat)
    requires ChainEnds(y, t, n)
    ensures !Requires(y, WalkPos(y, t, n))
    decreases n
  {
    if n > 0 {
      ChainGivesStop(y, WalkNext(y, t), n - 1);
    }
  }

  /** thread_donate_priority() is its loop followed by a last reset. */
  lemma {:induction false} DonateIsWalk(s: State, t: Tid, n: nat)
    requires ChainEnds(s.sync, t, n)
    ensures Donate(s, t, n) == ResetPriority(Walk(s, t, n).0, Walk(s, t, n).1)
    decreases n
  {
    if n > 0 {
      DonateUnfolds(s, t, n);
      DonateIsWalk(WalkState(s, t), WalkNext(s.sync, t), n - 1);
    }
  }

  lemma DonateUnfolds(s: State, t: Tid, n: nat)
    requires n > 0 && ChainEnds(s.sync, t, n)
    ensures var s1, h := WalkState(s, t), WalkNext(s.sync, t);
            s1.sync == s.sync && ChainEnds(s.sync, h, n - 1) && Donate(s, t, n) == Donate(s1, h, n - 1)
  {
  }

  /* ----- What the walk restores ----- */

  /** `t`'s priority is the largest among its base priority and its donors' priorities. */
  ghost predicate Effective(d: Donations, t: Tid)
  {
    var p := Num(d.priority, t);
    && Num(d.base, t) <= p
    && (forall u | u in List(d.donors, t) :: Num(d.priority, u) <= p)
    && (p == Num(d.base, t) || exists u | u in List(d.donors, t) :: Num(d.priority, u) == p)
  }

  ghost predicate Fixpoint(d: Donations)
  {
    forall t :: Effective(d, t)
  }

  ghost predicate FixpointBut(d: Donations, x: Tid)
  {
    forall t | t != x :: Effective(d, t)
  }

  ghost predicate BaseInRange(d: Donations)
  {
    forall t :: PRI_MIN <= Num(d.base, t) <= PRI_MAX
  }

  ghost predicate ListsSorted(d: Donations)
  {
    forall h :: Sorted(List(d.donors, h), d.priority)
  }

  ghost predicate ListsDistinct(d: Donations)
  {
    forall h :: Distinct(List(d.donors, h))
  }

  /** `t` is on `h`'s list and on no other exactly if its link says so. */
  ghost predicate LinksAgree(d: Donations)
  {
    forall h, u :: u in List(d.donors, h) <==> Link(d.donatedTo, u) == Some(h)
  }

  /** Donation lists are sorted and free of repetitions, a thread is on at most one of
      them, and its link says which. */
  ghost predicate Linked(d: Donations)
  {
    ListsSorted(d) && ListsDistinct(d) && LinksAgree(d)
  }

  /** A donor requires a lock that its recipient holds. */
  ghost predicate DonorsRequire(d: Donations, y: Sync)
  {
    forall u | Link(d.donatedTo, u).Some? :: Requires(y, u) && HolderFor(y, u) == Link(d.donatedTo, u)
  }

  /** thread_reset_priority() takes only the front donor; on a sorted list that is enough. */
  lemma RenewIsEffective(d: Donations, t: Tid)
    requires Linked(d) && BaseInRange(d)
    requires Link(d.donatedTo, t) != Some(t)
    ensures Effective(Renew(d, t), t)
  {
    var us := List(d.donors, t);
    var d' := Renew(d, t);
    forall u | u in us
      ensures Num(d'.priority, u) <= Num(d'.priority, t)
    {
      var i :| 0 <= i < |us| && us[i] == u;
      assert Num(d.priority, us[0]) >= Num(d.priority, us[i]);
    }
    if us != [] {
      assert us[0] in us;
    }
  }

  /** A thread whose list, and whose donors' priorities, did not change is still in order. */
  lemma EffectiveFrame(d: Donations, d': Donations, t: Tid)
    requires Effective(d, t)
    requires Num(d'.base, t) == Num(d.base, t) && List(d'.donors, t) == List(d.donors, t)
    requires Num(d'.priority, t) == Num(d.priority, t)
    requires forall u | u in List(d.donors, t) :: Num(d'.priority, u) == Num(d.priority, u)
    ensures Effective(d', t)
  {
    if Num(d.priority, t) != Num(d.base, t) {
      var u :| u in List(d.donors, t) && Num(d.priority, u) == Num(d.priority, t);
      assert u in List(d'.donors, t) && Num(d'.priority, u) == Num(d'.priority, t);
    }
  }

  lemma RemoveDonationLists(d: Donations, t: Tid, h: Tid)
    requires LinksAgree(d)
    ensures List(RemoveDonation(d, t).donors, h) == Without(List(d.donors, h), t)
    ensures Link(d.donatedTo, t) != Some(h) ==> List(RemoveDonation(d, t).donors, h) == List(d.donors, h)
  {
    if Link(d.donatedTo, t) != Some(h) {
      WithoutAbsent(List(d.donors, h), t);
    }
  }

  /** Removing a donation keeps the lists linked and sorted, even when the donor's
      priority has just changed. */
  lemma RemoveRenewedLinked(d: Donations, t: Tid, p: int)
    requires Linked(d)
    ensures Linked(RemoveDonation(d.(priority := d.priority[t := p]), t))
  {
    var d1 := d.(priority := d.priority[t := p]);
    var d' := RemoveDonation(d1, t);
    assert LinksAgree(d1);
    forall h
      ensures Sorted(List(d'.donors, h), d'.priority) && Distinct(List(d'.donors, h))
    {
      RemoveDonationLists(d1, t, h);
      WithoutSortedAfter(List(d.donors, h), t, d.priority, p);
      WithoutElems(List(d.donors, h), t);
    }
    forall h, u
      ensures u in List(d'.donors, h) <==> Link(d'.donatedTo, u) == Some(h)
    {
      RemoveDonationLists(d1, t, h);
      WithoutElems(List(d.donors, h), t);
      assert u in List(d.donors, h) <==> Link(d.donatedTo, u) == Some(h);
    }
  }

  /** Changing the priority of a thread that is on no list. */
  lemma RenewLinked(d: Donations, t: Tid)
    requires Linked(d) && Link(d.donatedTo, t).None?
    ensures Linked(Renew(d, t))
  {
    RemoveRenewedLinked(d, t, Num(Renew(d, t).priority, t));
  }

  lemma RefreshLinked(d: Donations, t: Tid, isCurrent: bool)
    requires Linked(d)
    requires isCurrent ==> Link(d.donatedTo, t).None?
    ensures Linked(Refresh(d, t, isCurrent))
    ensures Link(Refresh(d, t, isCurrent).donatedTo, t).None?
  {
    RemoveRenewedLinked(d, t, Num(Renew(d, t).priority, t));
  }

  lemma AddDonationLists(d: Donations, h: Tid, t: Tid, x: Tid)
    ensures List(AddDonation(d, h, t).donors, x)
         == if x == h then InsertOrdered(List(d.donors, h), t, d.priority) else List(d.donors, x)
  {
  }

  /** Linking `t` on `h`'s list, in order, by its present priority. */
  lemma AddDonationLinked(d: Donations, h: Tid, t: Tid)
    requires Linked(d) && Link(d.donatedTo, t).None?
    ensures Linked(AddDonation(d, h, t))
  {
    var us := List(d.donors, h);
    var d' := AddDonation(d, h, t);
    assert t !in us;
    forall x
      ensures Sorted(List(d'.donors, x), d'.priority)
    {
      AddDonationLists(d, h, t, x);
      InsertSorted(us, t, d.priority);
    }
    forall x
      ensures Distinct(List(d'.donors, x))
    {
      AddDonationLists(d, h, t, x);
      InsertDistinct(us, t, d.priority);
    }
    forall x, u
      ensures u in List(d'.donors, x) <==> Link(d'.donatedTo, u) == Some(x)
    {
      AddDonationLists(d, h, t, x);
      InsertElems(us, t, d.priority);
      assert u in List(d.donors, x) <==> Link(d.donatedTo, u) == Some(x);
    }
  }

  /** Everything the walk relies on except the equations themselves. */
  ghost predicate Coherent(d: Donations, y: Sync)
  {
    Linked(d) && DonorsRequire(d, y) && BaseInRange(d)
  }

  lemma PassRequire(d: Donations, y: Sync, t: Tid, isCurrent: bool)
    requires DonorsRequire(d, y)
    requires Requires(y, t) && HolderFor(y, t).Some?
    ensures DonorsRequire(Pass(d, t, HolderFor(y, t).value, isCurrent), y)
  {
  }

  lemma PassCoherent(d: Donations, y: Sync, t: Tid, isCurrent: bool)
    requires Coherent(d, y)
    requires Requires(y, t) && HolderFor(y, t).Some?
    requires isCurrent ==> Link(d.donatedTo, t).None?
    ensures Coherent(Pass(d, t, HolderFor(y, t).value, isCurrent), y)
  {
    var h := HolderFor(y, t).value;
    PassRequire(d, y, t, isCurrent);
    assert Linked(Pass(d, t, h, isCurrent)) by {
      RefreshLinked(d, t, isCurrent);
      AddDonationLinked(Refresh(d, t, isCurrent), h, t);
    }
  }

  /** Passing `t`'s donation on to the holder leaves every other list as it was. */
  lemma PassLists(d: Donations, y: Sync, t: Tid, isCurrent: bool, u: Tid)
    requires Linked(d) && DonorsRequire(d, y)
    requires Requires(y, t) && HolderFor(y, t).Some? && u != HolderFor(y, t).value
    ensures List(Pass(d, t, HolderFor(y, t).value, isCurrent).donors, u) == List(d.donors, u)
    ensures t !in List(d.donors, u)
  {
    var h := HolderFor(y, t).value;
    assert Link(d.donatedTo, t) != Some(u);
    RemoveDonationLists(Renew(d, t), t, u);
    AddDonationLists(Refresh(d, t, isCurrent), h, t, u);
  }

  lemma PassEffective(d: Donations, y: Sync, t: Tid, isCurrent: bool, u: Tid)
    requires Coherent(d, y)
    requires Requires(y, t) && HolderFor(y, t).Some? && HolderFor(y, t).value != t
    requires u != t ==> Effective(d, u)
    requires u != HolderFor(y, t).value
    ensures Effective(Pass(d, t, HolderFor(y, t).value, isCurrent), u)
  {
    var d' := Pass(d, t, HolderFor(y, t).value, isCurrent);
    PassLists(d, y, t, isCurrent, u);
    assert d'.priority == Renew(d, t).priority && d'.base == d.base;
    if u == t {
      RenewIsEffective(d, t);
      EffectiveFrame(Renew(d, t), d', t);
    } else {
      EffectiveFrame(d, d', u);
    }
  }

  /** One iteration moves the one thread whose equation may fail one hop up the chain. */
  lemma PassMovesDefect(d: Donations, y: Sync, t: Tid, isCurrent: bool)
    requires Coherent(d, y) && FixpointBut(d, t)
    requires Requires(y, t) && HolderFor(y, t).Some? && HolderFor(y, t).value != t
    requires isCurrent ==> Link(d.donatedTo, t).None?
    ensures var h := HolderFor(y, t).value;
            var d' := Pass(d, t, h, isCurrent);
            Coherent(d', y) && FixpointBut(d', h)
  {
    PassCoherent(d, y, t, isCurrent);
    forall u | u != HolderFor(y, t).value
      ensures Effective(Pass(d, t, HolderFor(y, t).value, isCurrent), u)
    {
      PassEffective(d, y, t, isCurrent, u);
    }
  }

  /** The reset that ends the walk, at a thread that requires no lock. */
  lemma RenewEndsDefect(d: Donations, y: Sync, t: Tid)
    requires Coherent(d, y) && FixpointBut(d, t) && Link(d.donatedTo, t).None?
    ensures Coherent(Renew(d, t), y) && Fixpoint(Renew(d, t))
  {
    RenewLinked(d, t);
    RenewIsEffective(d, t);
    forall u | u != t
      ensures Effective(Renew(d, t), u)
    {
      assert t !in List(d.donors, u);
      EffectiveFrame(d, Renew(d, t), u);
    }
  }

  /** The walk has not been at the current thread with its donation still linked. */
  ghost predicate CurrentAhead(s: State, t: Tid)
  {
    Link(s.don.donatedTo, s.run.current).Some? ==> !Meets(s.sync, t, s.run.current)
  }

  ghost predicate Meets(y: Sync, t: Tid, u: Tid)
  {
    exists i: nat :: OnChain(y, t, i, u)
  }

  lemma CurrentStaysAhead(s: State, t: Tid, n: nat)
    requires n > 0 && ChainEnds(s.sync, t, n) && CurrentAhead(s, t)
    ensures CurrentAhead(WalkState(s, t), WalkNext(s.sync, t))
  {
    var s1, h := WalkState(s, t), WalkNext(s.sync, t);
    if Meets(s.sync, h, s.run.current) {
      var i: nat :| OnChain(s.sync, h, i, s.run.current);
      assert OnChain(s.sync, t, i + 1, s.run.current);
      if s.run.current == t {
        ChainAcyclic(s.sync, t, n, i + 1);
      }
    }
  }

  /** The walk restores the fixpoint.  Before it, the lists are sorted and every
      thread but `t` has the largest of its base and its donors' priorities; after it,
      every thread has, on the chain or off it. */
  lemma DonateRestoresFixpoint(s: State, t: Tid, n: nat)
    requires ChainEnds(s.sync, t, n)
    requires Coherent(s.don, s.sync) && FixpointBut(s.don, t) && CurrentAhead(s, t)
    ensures Coherent(Donate(s, t, n).don, s.sync) && Fixpoint(Donate(s, t, n).don)
  {
    WalkRestores(s, t, n, s.sync, Donate(s, t, n).don);
  }

  /** Only `t`'s equation may fail. */
  ghost predicate WalkOk(s: State, t: Tid)
  {
    Coherent(s.don, s.sync) && FixpointBut(s.don, t) && CurrentAhead(s, t)
  }

  lemma WalkStaysOk(s: State, t: Tid, n: nat)
    requires n > 0 && ChainEnds(s.sync, t, n) && WalkOk(s, t)
    ensures WalkOk(WalkState(s, t), WalkNext(s.sync, t))
  {
    HolderIsAnother(s.sync, t, n);
    assert OnChain(s.sync, t, 0, t);
    PassMovesDefect(s.don, s.sync, t, s.run.current == t);
    CurrentStaysAhead(s, t, n);
    assert WalkState(s, t).don == Pass(s.don, t, WalkNext(s.sync, t), s.run.current == t);
  }

  lemma {:induction false} WalkRestores(s: State, t: Tid, n: nat, y: Sync, d': Donations)
    requires y == s.sync && ChainEnds(y, t, n) && d' == Donate(s, t, n).don
    requires WalkOk(s, t)
    ensures Coherent(d', y) && Fixpoint(d')
    decreases n
  {
    if n == 0 {
      RenewEndsDefect(s.don, y, t);
    } else {
      DonateUnfolds(s, t, n);
      WalkStaysOk(s, t, n);
      WalkRestores(WalkState(s, t), WalkNext(y, t), n - 1, y, d');
    }
  }

  /* ----- The priority that reaches the end ----- */

  /** What thread_reset_priority() would store now. */
  function Renewed(d: Donations, t: Tid): (p: int)
  {
    Max(DonatedPriority(d, t), Num(d.base, t))
  }

  /** A thread in order would be given the priority it has. */
  lemma RenewedIsOwn(d: Donations, t: Tid)
    requires Linked(d) && BaseInRange(d) && Effective(d, t) && Link(d.donatedTo, t) != Some(t)
    ensures Renewed(d, t) == Num(d.priority, t)
  {
    RenewIsEffective(d, t);
    if Num(d.priority, t) != Num(d.base, t) {
      var u :| u in List(d.donors, t) && Num(d.priority, u) == Num(d.priority, t);
      assert Num(Renew(d, t).priority, u) == Num(d.priority, u);
    }
    if Renewed(d, t) != Num(d.base, t) {
      assert List(d.donors, t)[0] in List(d.donors, t);
    }
  }

  /** One iteration: the holder is due the larger of what it has and what the donor gets. */
  lemma PassRaises(d: Donations, y: Sync, t: Tid, isCurrent: bool)
    requires Coherent(d, y) && Requires(y, t) && HolderFor(y, t).Some? && HolderFor(y, t).value != t
    requires Effective(d, HolderFor(y, t).value)
    requires isCurrent ==> Link(d.donatedTo, t).None?
    requires Num(d.priority, t) <= Renewed(d, t)
    ensures var h := HolderFor(y, t).value;
            Renewed(Pass(d, t, h, isCurrent), h) == Max(Num(d.priority, h), Renewed(d, t))
  {
    var h := HolderFor(y, t).value;
    var d' := Pass(d, t, h, isCurrent);
    PassCoherent(d, y, t, isCurrent);
    PassDonors(d, y, t, isCurrent);
    assert d'.base == d.base && d'.priority == d.priority[t := Renewed(d, t)];
    OneMoreDonor(d, d', h, t, Renewed(d, t));
  }

  /** `h`'s due when `t`, with priority `p` by now, is among its donors, or is so again */
  lemma OneMoreDonor(d: Donations, d': Donations, h: Tid, t: Tid, p: int)
    requires Effective(d, h) && h != t && Num(d.priority, t) <= p
    requires d'.base == d.base && d'.priority == d.priority[t := p] && Sorted(List(d'.donors, h), d'.priority)
    requires forall u :: u in List(d'.donors, h) <==> u == t || u in List(d.donors, h)
    ensures Renewed(d', h) == Max(Num(d.priority, h), p)
  {
    var us, us' := List(d.donors, h), List(d'.donors, h);
    assert t in us';
    FrontIsLargest(us', d'.priority, t);
    if Num(d.priority, h) != Num(d.base, h) {
      var u :| u in us && Num(d.priority, u) == Num(d.priority, h);
      FrontIsLargest(us', d'.priority, u);
    }
    if us'[0] != t { assert us'[0] in us; }
  }

  lemma FrontIsLargest(xs: seq<Tid>, pri: map<Tid, int>, u: Tid)
    requires Sorted(xs, pri) && u in xs
    ensures Num(pri, u) <= Num(pri, xs[0])
  {
    var i :| 0 <= i < |xs| && xs[i] == u;
  }

  /** The holder's donors afterwards: those it had and `t`. */
  lemma PassDonors(d: Donations, y: Sync, t: Tid, isCurrent: bool)
    requires Linked(d) && DonorsRequire(d, y) && Requires(y, t) && HolderFor(y, t).Some?
    requires isCurrent ==> Link(d.donatedTo, t).None?
    ensures var h := HolderFor(y, t).value;
            forall u :: u in List(Pass(d, t, h, isCurrent).donors, h) <==> u == t || u in List(d.donors, h)
  {
    var h := HolderFor(y, t).value;
    var d1 := Refresh(d, t, isCurrent);
    assert Distinct(List(d.donors, h));
    RemoveDonationLists(Renew(d, t), t, h);
    WithoutElems(List(d.donors, h), t);
    AddDonationLists(d1, h, t, h);
    InsertElems(List(d1.donors, h), t, d1.priority);
  }

  /** The largest priority on the chain of `n` hops from `t` */
  ghost function ChainTop(y: Sync, pri: map<Tid, int>, t: Tid, n: nat): (p: int)
    requires ChainEnds(y, t, n)
    decreases n
  {
    if n == 0 then Num(pri, t) else Max(Num(pri, t), ChainTop(y, pri, HolderFor(y, t).value, n - 1))
  }

  /** ... does not depend on threads that are not on it. */
  lemma {:induction false} ChainTopFrame(y: Sync, pri: map<Tid, int>, t: Tid, n: nat, u: Tid, p: int, n0: nat)
    requires ChainEnds(y, t, n) && ChainEnds(y, u, n0) && n < n0
    ensures ChainTop(y, pri[u := p], t, n) == ChainTop(y, pri, t, n)
    decreases n
  {
    ChainLengthUnique(y, t, n, n0);
    if n > 0 {
      ChainTopFrame(y, pri, HolderFor(y, t).value, n - 1, u, p, n0);
    }
  }

  /** At `t` the walk of `n` hops still leads to `d'`; `t` has its old priority and is due `p`. */
  ghost predicate WalkDue(s: State, t: Tid, n: nat, d': Donations, p: int)
  {
    && ChainEnds(s.sync, t, n) && d' == Donate(s, t, n).don && WalkOk(s, t)
    && p == Renewed(s.don, t) && Num(s.don.priority, t) <= p
  }

  lemma WalkDueNext(s: State, t: Tid, n: nat, d': Donations, p: int) returns (s1: State)
    requires WalkDue(s, t, n, d', p) && n > 0
    ensures var h := WalkNext(s.sync, t);
            && s1.sync == s.sync && s1.don.priority == s.don.priority[t := p]
            && WalkDue(s1, h, n - 1, d', Max(Num(s.don.priority, h), p))
  {
    s1 := WalkState(s, t);
    DonateUnfolds(s, t, n);
    WalkStaysOk(s, t, n);
    if s.run.current == t { CurrentIsNoDonor(s, t); }
    WalkStepRaises(s, t, n);
  }

  /** The walk gives the end of the chain the largest priority found on the chain. */
  lemma {:induction false} WalkRaises(s: State, t: Tid, n: nat, d': Donations, p: int, end: Tid, top: int)
    requires WalkDue(s, t, n, d', p)
    requires end == WalkPos(s.sync, t, n) && top == Max(p, ChainTop(s.sync, s.don.priority, t, n))
    ensures Num(d'.priority, end) == top
    decreases n
  {
    if n == 0 {
      WalkRaisesEnd(s, t, d', p);
    } else {
      var y, pri, h := s.sync, s.don.priority, WalkNext(s.sync, t);
      var s1 := WalkDueNext(s, t, n, d', p);
      ChainTopNext(y, pri, t, n, p);
      WalkRaises(s1, h, n - 1, d', Max(Num(pri, h), p), end, top);
    }
  }

  lemma WalkRaisesEnd(s: State, t: Tid, d': Donations, p: int)
    requires !Requires(s.sync, t) && d' == ResetPriority(s, t).don
    requires p == Renewed(s.don, t) && Num(s.don.priority, t) <= p
    ensures Num(d'.priority, t) == Max(p, Num(s.don.priority, t))
  {
  }

  lemma ChainTopNext(y: Sync, pri: map<Tid, int>, t: Tid, n: nat, p: int)
    requires ChainEnds(y, t, n) && n > 0 && Num(pri, t) <= p
    ensures var h := WalkNext(y, t);
            && WalkPos(y, t, n) == WalkPos(y, h, n - 1) && ChainEnds(y, h, n - 1)
            && Max(Max(Num(pri, h), p), ChainTop(y, pri[t := p], h, n - 1)) == Max(p, ChainTop(y, pri, t, n))
  {
    ChainTopFrame(y, pri, WalkNext(y, t), n - 1, t, p, n);
  }

  lemma WalkStepRaises(s: State, t: Tid, n: nat)
    requires n > 0 && ChainEnds(s.sync, t, n) && Coherent(s.don, s.sync) && FixpointBut(s.don, t)
    requires s.run.current == t ==> Link(s.don.donatedTo, t).None?
    requires Num(s.don.priority, t) <= Renewed(s.don, t)
    ensures var s1, h := WalkState(s, t), WalkNext(s.sync, t);
            && Renewed(s1.don, h) == Max(Num(s.don.priority, h), Renewed(s.don, t))
            && s1.don.priority == s.don.priority[t := Renewed(s.don, t)] && h != t
  {
    HolderIsAnother(s.sync, t, n);
    PassRaises(s.don, s.sync, t, s.run.current == t);
  }

  lemma CurrentIsNoDonor(s: State, t: Tid)
    requires CurrentAhead(s, t) && s.run.current == t
    ensures Link(s.don.donatedTo, t).None?
  {
    assert OnChain(s.sync, t, 0, t);
  }

  lemma HolderIsAnother(y: Sync, t: Tid, n: nat)
    requires n > 0 && ChainEnds(y, t, n)
    ensures HolderFor(y, t).value != t
  {
    ChainLengthUnique(y, HolderFor(y, t).value, n - 1, n);
  }
}
