/** Sequences under a comparison: what list.c's ordered operations compute, and that
    its natural merge sort is a stable sort. */
module ListSpec {

  /** `less` is a strict weak order on `dom`: asymmetric, and "not less" is transitive. */
  ghost predicate StrictWeak<T>(dom: set<T>, less: (T, T) -> bool)
  {
    && (forall a, b {:trigger less(a, b)} | a in dom && b in dom && less(a, b) :: !less(b, a))
    && (forall a, b, c {:trigger less(a, b), less(b, c)} |
          a in dom && b in dom && c in dom && !less(a, b) && !less(b, c) :: !less(a, c))
  }

  ghost predicate Within<T>(s: seq<T>, dom: set<T>)
  {
    forall i | 0 <= i < |s| :: s[i] in dom
  }

  ghost function Elems<T>(s: seq<T>): set<T>
  {
    set x | x in s
  }

  /** Nothing that comes later is less than something before it. */
  ghost predicate Sorted<T>(s: seq<T>, less: (T, T) -> bool)
  {
    forall i, j | 0 <= i < j < |s| :: !less(s[j], s[i])
  }

  /** No element is less than the one just before it. */
  ghost predicate Ascending<T>(s: seq<T>, less: (T, T) -> bool)
  {
    forall i | 0 < i < |s| :: !less(s[i], s[i - 1])
  }

  predicate Same<T>(x: T, y: T, less: (T, T) -> bool)
  {
    !less(x, y) && !less(y, x)
  }

  /** The members of `s` equivalent to `x`, in order. */
  function Alike<T>(s: seq<T>, x: T, less: (T, T) -> bool): (r: seq<T>)
  {
    if s == [] then []
    else if Same(x, s[0], less) then [s[0]] + Alike(s[1..], x, less)
    else Alike(s[1..], x, less)
  }

  /** `t` holds the members of `s`, and equivalent ones in the same order. */
  ghost predicate Stable<T>(s: seq<T>, t: seq<T>, less: (T, T) -> bool)
  {
    && multiset(t) == multiset(s)
    && forall x | x in s :: Alike(t, x, less) == Alike(s, x, less)
  }

  /* ----- find_end_of_run(), inplace_merge(), list_sort() ----- */

  function RunLength<T>(s: seq<T>, less: (T, T) -> bool): (n: nat)
    requires s != []
    ensures 1 <= n <= |s|
  {
    if |s| == 1 || less(s[1], s[0]) then 1 else 1 + RunLength(s[1..], less)
  }

  function Merge<T>(a: seq<T>, b: seq<T>, less: (T, T) -> bool): (r: seq<T>)
    ensures |r| == |a| + |b|
    decreases |a| + |b|
  {
    if a == [] then b
    else if b == [] then a
    else if !less(b[0], a[0]) then [a[0]] + Merge(a[1..], b, less)
    else [b[0]] + Merge(a, b[1..], less)
  }

  /** `s` is more than one run. */
  predicate ManyRuns<T>(s: seq<T>, less: (T, T) -> bool)
  {
    s != [] && RunLength(s, less) < |s|
  }

  /** Where the second run ends. */
  function SecondEnd<T>(s: seq<T>, less: (T, T) -> bool): (b: nat)
    requires ManyRuns(s, less)
    ensures RunLength(s, less) < b <= |s|
  {
    var a := RunLength(s, less);
    a + RunLength(s[a..], less)
  }

  /** The first two runs merged. */
  function FirstMerge<T>(s: seq<T>, less: (T, T) -> bool): (r: seq<T>)
    requires ManyRuns(s, less)
    ensures |r| == SecondEnd(s, less)
  {
    var a := RunLength(s, less);
    Merge(s[..a], s[a..SecondEnd(s, less)], less)
  }

  /** One pass of list_sort(): adjacent runs merged in pairs. */
  function Pass<T>(s: seq<T>, less: (T, T) -> bool): (r: seq<T>)
    ensures |r| == |s|
    decreases |s|
  {
    if ManyRuns(s, less) then FirstMerge(s, less) + Pass(s[SecondEnd(s, less)..], less) else s
  }

  /** The number of runs that pass outputs. */
  function PassRuns<T>(s: seq<T>, less: (T, T) -> bool): (n: nat)
    decreases |s|
  {
    if ManyRuns(s, less) then 1 + PassRuns(s[SecondEnd(s, less)..], less)
    else if s == [] then 0 else 1
  }

  /** The number of runs `s` consists of. */
  function Runs<T>(s: seq<T>, less: (T, T) -> bool): (n: nat)
    decreases |s|
  {
    if s == [] then 0 else 1 + Runs(s[RunLength(s, less)..], less)
  }

  /** list_sort(): passes until one outputs at most a single run. */
  function MergeSort<T>(s: seq<T>, less: (T, T) -> bool): (r: seq<T>)
    requires StrictWeak(Elems(s), less)
    decreases Runs(s, less)
  {
    PassShrinks(s, Elems(s), less);
    PassElems(s, less);
    if PassRuns(s, less) > 1 then MergeSort(Pass(s, less), less) else Pass(s, less)
  }

  /* ----- Runs ----- */

  lemma {:induction false} RunIsAscending<T>(s: seq<T>, less: (T, T) -> bool)
    requires s != []
    ensures Ascending(s[..RunLength(s, less)], less)
  {
    var n := RunLength(s, less);
    if n > 1 {
      RunIsAscending(s[1..], less);
      assert s[1..][..n - 1] == s[1..n];
      forall i | 0 < i < n
        ensures !less(s[..n][i], s[..n][i - 1])
      {
        if i > 1 { assert s[1..n][i - 1] == s[i] && s[1..n][i - 2] == s[i - 1]; }
      }
    }
  }

  lemma {:induction false} AscendingIsSorted<T>(s: seq<T>, dom: set<T>, less: (T, T) -> bool)
    requires StrictWeak(dom, less) && Within(s, dom) && Ascending(s, less)
    ensures Sorted(s, less)
  {
    if s != [] {
      var t := s[..|s| - 1];
      AscendingIsSorted(t, dom, less);
      forall i, j | 0 <= i < j < |s|
        ensures !less(s[j], s[i])
      {
        if j < |s| - 1 {
          assert t[i] == s[i] && t[j] == s[j];
        } else if i < j - 1 {
          assert t[i] == s[i] && t[j - 1] == s[j - 1];
        }
      }
    }
  }

  lemma {:induction false} AscendingIsOneRun<T>(s: seq<T>, less: (T, T) -> bool)
    requires Ascending(s, less)
    ensures s != [] ==> RunLength(s, less) == |s|
    ensures Runs(s, less) <= 1
  {
    if |s| > 1 {
      AscendingIsOneRun(s[1..], less);
    }
  }

  lemma TwoRuns<T>(s: seq<T>, less: (T, T) -> bool)
    requires ManyRuns(s, less)
    ensures Runs(s, less) == 2 + Runs(s[SecondEnd(s, less)..], less)
  {
    var a, b := RunLength(s, less), SecondEnd(s, less);
    assert s[a..][b - a..] == s[b..];
  }

  /** Every output run of a pass took two input runs, the last one perhaps one. */
  lemma {:induction false} PassHalves<T>(s: seq<T>, less: (T, T) -> bool)
    ensures 2 * PassRuns(s, less) - 1 <= Runs(s, less) <= 2 * PassRuns(s, less)
    decreases |s|
  {
    if ManyRuns(s, less) {
      TwoRuns(s, less);
      PassHalves(s[SecondEnd(s, less)..], less);
    }
  }

  lemma {:induction false} RunOfPrefix<T>(s: seq<T>, t: seq<T>, less: (T, T) -> bool)
    requires s != [] && RunLength(s, less) < |s|
    ensures RunLength(s + t, less) == RunLength(s, less)
  {
    if RunLength(s, less) > 1 {
      RunOfPrefix(s[1..], t, less);
      assert (s + t)[1..] == s[1..] + t;
    }
  }

  lemma {:induction false} OneRunInFront<T>(s: seq<T>, t: seq<T>, less: (T, T) -> bool)
    requires s != [] && RunLength(s, less) == |s|
    ensures Runs(s + t, less) <= 1 + Runs(t, less)
    decreases |s|
  {
    var u := s + t;
    if |s| > 1 {
      OneRunInFront(s[1..], t, less);
      assert u[1..] == s[1..] + t;
      var n := RunLength(u[1..], less);
      assert RunLength(u, less) == n + 1 && u[n + 1..] == u[1..][n..];
    } else if t != [] {
      assert u[1..] == t;
      if !less(t[0], s[0]) {
        var n := RunLength(t, less);
        assert RunLength(u, less) == n + 1 && u[n + 1..] == t[n..];
      }
    } else {
      assert u == s;
    }
  }

  /** Putting one sequence behind another makes no new runs. */
  lemma {:induction false} RunsOfConcat<T>(s: seq<T>, t: seq<T>, less: (T, T) -> bool)
    ensures Runs(s + t, less) <= Runs(s, less) + Runs(t, less)
    decreases |s|
  {
    if s == [] {
      assert s + t == t;
    } else {
      var a := RunLength(s, less);
      if a < |s| {
        RunOfPrefix(s, t, less);
        assert (s + t)[a..] == s[a..] + t;
        RunsOfConcat(s[a..], t, less);
      } else {
        OneRunInFront(s, t, less);
      }
    }
  }

  /* ----- Merging ----- */

  lemma HeadElem<T>(s: seq<T>)
    requires s != []
    ensures multiset(s) == multiset{s[0]} + multiset(s[1..])
  {
    assert s == [s[0]] + s[1..];
  }

  lemma ConsElems<T>(x: T, s: seq<T>)
    ensures multiset([x] + s) == multiset{x} + multiset(s)
  {
  }

  lemma {:induction false} MergeElems<T>(a: seq<T>, b: seq<T>, less: (T, T) -> bool)
    ensures multiset(Merge(a, b, less)) == multiset(a) + multiset(b)
    decreases |a| + |b|
  {
    if a != [] && b != [] {
      if !less(b[0], a[0]) {
        MergeElems(a[1..], b, less);
        HeadElem(a);
        ConsElems(a[0], Merge(a[1..], b, less));
      } else {
        MergeElems(a, b[1..], less);
        HeadElem(b);
        ConsElems(b[0], Merge(a, b[1..], less));
      }
    }
  }

  /** `x` is not after anything in `s`. */
  ghost predicate Least<T>(x: T, s: seq<T>, less: (T, T) -> bool)
  {
    forall i | 0 <= i < |s| :: !less(s[i], x)
  }

  lemma SortedCons<T>(x: T, s: seq<T>, less: (T, T) -> bool)
    requires Sorted(s, less) && Least(x, s, less)
    ensures Sorted([x] + s, less)
  {
    var t := [x] + s;
    forall i, j | 0 <= i < j < |t|
      ensures !less(t[j], t[i])
    {
      assert t[j] == s[j - 1];
      if i > 0 { assert t[i] == s[i - 1]; }
    }
  }

  lemma HeadIsLeast<T>(s: seq<T>, x: T, dom: set<T>, less: (T, T) -> bool)
    requires StrictWeak(dom, less) && Within(s, dom) && x in dom
    requires Sorted(s, less) && (s != [] ==> !less(s[0], x))
    ensures Least(x, s, less)
  {
    forall i | 0 <= i < |s|
      ensures !less(s[i], x)
    {
      if i > 0 { assert !less(s[i], s[0]); }
    }
  }

  lemma {:induction false} LeastOfMerge<T>(x: T, a: seq<T>, b: seq<T>, less: (T, T) -> bool)
    requires Least(x, a, less) && Least(x, b, less)
    ensures Least(x, Merge(a, b, less), less)
    decreases |a| + |b|
  {
    if a != [] && b != [] {
      if !less(b[0], a[0]) {
        LeastOfMerge(x, a[1..], b, less);
      } else {
        LeastOfMerge(x, a, b[1..], less);
      }
    }
  }

  lemma {:induction false} MergeSorted<T>(a: seq<T>, b: seq<T>, dom: set<T>, less: (T, T) -> bool)
    requires StrictWeak(dom, less) && Within(a, dom) && Within(b, dom)
    requires Sorted(a, less) && Sorted(b, less)
    ensures Sorted(Merge(a, b, less), less)
    decreases |a| + |b|
  {
    if a != [] && b != [] {
      if !less(b[0], a[0]) {
        MergeSorted(a[1..], b, dom, less);
        HeadIsLeast(b, a[0], dom, less);
        assert Least(a[0], a[1..], less);
        LeastOfMerge(a[0], a[1..], b, less);
        SortedCons(a[0], Merge(a[1..], b, less), less);
      } else {
        MergeSorted(a, b[1..], dom, less);
        HeadIsLeast(a, b[0], dom, less);
        assert Least(b[0], b[1..], less);
        LeastOfMerge(b[0], a, b[1..], less);
        SortedCons(b[0], Merge(a, b[1..], less), less);
      }
    }
  }

  lemma {:induction false} AlikeConcat<T>(s: seq<T>, t: seq<T>, x: T, less: (T, T) -> bool)
    ensures Alike(s + t, x, less) == Alike(s, x, less) + Alike(t, x, less)
  {
    if s == [] {
      assert s + t == t;
    } else {
      assert (s + t)[1..] == s[1..] + t;
      AlikeConcat(s[1..], t, x, less);
    }
  }

  lemma {:induction false} AlikeNone<T>(s: seq<T>, x: T, less: (T, T) -> bool)
    requires forall i | 0 <= i < |s| :: !Same(x, s[i], less)
    ensures Alike(s, x, less) == []
  {
    if s != [] {
      AlikeNone(s[1..], x, less);
    }
  }

  /** If `y` goes in front of `a`, nothing in `a` is equivalent to it. */
  lemma NoneAlike<T>(a: seq<T>, y: T, x: T, dom: set<T>, less: (T, T) -> bool)
    requires StrictWeak(dom, less) && Within(a, dom) && y in dom && x in dom
    requires a != [] && Sorted(a, less) && less(y, a[0]) && Same(x, y, less)
    ensures Alike(a, x, less) == []
  {
    HeadIsLeast(a, a[0], dom, less);
    forall i | 0 <= i < |a|
      ensures !Same(x, a[i], less)
    {
      var u, v := a[0], a[i];
      assert !less(v, u) && !less(y, x);
      assert less(x, v) || less(y, v);
    }
    AlikeNone(a, x, less);
  }

  /** Merging keeps equivalent elements in order, those of the first run first. */
  lemma {:induction false} MergeAlike<T>(a: seq<T>, b: seq<T>, x: T, dom: set<T>, less: (T, T) -> bool)
    requires StrictWeak(dom, less) && Within(a, dom) && Within(b, dom) && x in dom
    requires Sorted(a, less) && Sorted(b, less)
    ensures Alike(Merge(a, b, less), x, less) == Alike(a, x, less) + Alike(b, x, less)
    decreases |a| + |b|
  {
    if a != [] && b != [] {
      if !less(b[0], a[0]) {
        MergeAlike(a[1..], b, x, dom, less);
        var m := Merge(a[1..], b, less);
        assert ([a[0]] + m)[1..] == m;
      } else {
        MergeAlike(a, b[1..], x, dom, less);
        var m := Merge(a, b[1..], less);
        assert ([b[0]] + m)[1..] == m;
        if Same(x, b[0], less) {
          NoneAlike(a, b[0], x, dom, less);
        }
      }
    }
  }

  /* ----- A pass ----- */

  lemma FirstMergeElems<T>(s: seq<T>, less: (T, T) -> bool)
    requires ManyRuns(s, less)
    ensures multiset(s) == multiset(FirstMerge(s, less)) + multiset(s[SecondEnd(s, less)..])
  {
    var a, b := RunLength(s, less), SecondEnd(s, less);
    MergeElems(s[..a], s[a..b], less);
    SplitElems(s, a, b);
  }

  lemma SplitElems<T>(s: seq<T>, a: nat, b: nat)
    requires a <= b <= |s|
    ensures multiset(s) == multiset(s[..a]) + multiset(s[a..b]) + multiset(s[b..])
  {
    assert s == s[..a] + s[a..b] + s[b..];
  }

  lemma {:induction false} PassPermutes<T>(s: seq<T>, less: (T, T) -> bool)
    ensures multiset(Pass(s, less)) == multiset(s)
    decreases |s|
  {
    if ManyRuns(s, less) {
      FirstMergeElems(s, less);
      PassPermutes(s[SecondEnd(s, less)..], less);
    }
  }

  lemma PassElems<T>(s: seq<T>, less: (T, T) -> bool)
    ensures Elems(Pass(s, less)) == Elems(s)
  {
    PassPermutes(s, less);
    SameElems(Pass(s, less), s);
  }

  lemma SameElems<T>(s: seq<T>, t: seq<T>)
    requires multiset(s) == multiset(t)
    ensures Elems(s) == Elems(t)
  {
    forall x
      ensures x in s <==> x in t
    {
      assert x in multiset(s) <==> x in multiset(t);
    }
  }

  /** The two runs a pass merges first are sorted. */
  lemma FirstRunsSorted<T>(s: seq<T>, dom: set<T>, less: (T, T) -> bool)
    requires StrictWeak(dom, less) && Within(s, dom) && ManyRuns(s, less)
    ensures Sorted(s[..RunLength(s, less)], less)
    ensures Sorted(s[RunLength(s, less)..SecondEnd(s, less)], less)
  {
    var a, b := RunLength(s, less), SecondEnd(s, less);
    RunIsAscending(s, less);
    AscendingIsSorted(s[..a], dom, less);
    RunIsAscending(s[a..], less);
    assert s[a..][..b - a] == s[a..b];
    AscendingIsSorted(s[a..b], dom, less);
  }

  lemma {:induction false} PassOutput<T>(s: seq<T>, dom: set<T>, less: (T, T) -> bool)
    requires StrictWeak(dom, less) && Within(s, dom)
    ensures Runs(Pass(s, less), less) <= PassRuns(s, less)
    decreases |s|
  {
    if ManyRuns(s, less) {
      var a, b := RunLength(s, less), SecondEnd(s, less);
      FirstRunsSorted(s, dom, less);
      MergeSorted(s[..a], s[a..b], dom, less);
      AscendingIsOneRun(FirstMerge(s, less), less);
      PassOutput(s[b..], dom, less);
      RunsOfConcat(FirstMerge(s, less), Pass(s[b..], less), less);
    } else if s != [] {
      RunIsAscending(s, less);
      assert s[..RunLength(s, less)] == s;
      AscendingIsOneRun(s, less);
    }
  }

  /** A pass that outputs more than one run leaves fewer runs than it found. */
  lemma PassShrinks<T>(s: seq<T>, dom: set<T>, less: (T, T) -> bool)
    requires StrictWeak(dom, less) && Within(s, dom)
    ensures PassRuns(s, less) > 1 ==> Runs(Pass(s, less), less) < Runs(s, less)
  {
    PassOutput(s, dom, less);
    PassHalves(s, less);
  }

  lemma FirstMergeAlike<T>(s: seq<T>, x: T, dom: set<T>, less: (T, T) -> bool)
    requires StrictWeak(dom, less) && Within(s, dom) && x in dom && ManyRuns(s, less)
    ensures Alike(FirstMerge(s, less), x, less) == Alike(s[..SecondEnd(s, less)], x, less)
  {
    var a, b := RunLength(s, less), SecondEnd(s, less);
    FirstRunsSorted(s, dom, less);
    MergeAlike(s[..a], s[a..b], x, dom, less);
    AlikeConcat(s[..a], s[a..b], x, less);
    assert s[..a] + s[a..b] == s[..b];
  }

  lemma {:induction false} PassAlike<T>(s: seq<T>, x: T, dom: set<T>, less: (T, T) -> bool)
    requires StrictWeak(dom, less) && Within(s, dom) && x in dom
    ensures Alike(Pass(s, less), x, less) == Alike(s, x, less)
    decreases |s|
  {
    if ManyRuns(s, less) {
      var b := SecondEnd(s, less);
      PassAlike(s[b..], x, dom, less);
      FirstMergeAlike(s, x, dom, less);
      AlikeConcat(FirstMerge(s, less), Pass(s[b..], less), x, less);
      AlikeConcat(s[..b], s[b..], x, less);
      assert s[..b] + s[b..] == s;
    }
  }

  lemma PassStable<T>(s: seq<T>, less: (T, T) -> bool)
    requires StrictWeak(Elems(s), less)
    ensures Stable(s, Pass(s, less), less)
  {
    PassPermutes(s, less);
    forall x | x in s
      ensures Alike(Pass(s, less), x, less) == Alike(s, x, less)
    {
      PassAlike(s, x, Elems(s), less);
    }
  }

  /* ----- The whole sort ----- */

  lemma OneRunIsSorted<T>(s: seq<T>, dom: set<T>, less: (T, T) -> bool)
    requires StrictWeak(dom, less) && Within(s, dom) && Runs(s, less) <= 1
    ensures Sorted(s, less)
  {
    if s != [] {
      var a := RunLength(s, less);
      RunIsAscending(s, less);
      NoRuns(s[a..], less);
      assert s[..a] == s;
      AscendingIsSorted(s, dom, less);
    }
  }

  lemma NoRuns<T>(s: seq<T>, less: (T, T) -> bool)
    ensures Runs(s, less) == 0 <==> s == []
  {
  }

  lemma StableTrans<T>(s: seq<T>, t: seq<T>, u: seq<T>, less: (T, T) -> bool)
    requires Stable(s, t, less) && Stable(t, u, less)
    ensures Stable(s, u, less)
  {
    SameElems(s, t);
    forall x | x in s
      ensures Alike(u, x, less) == Alike(s, x, less)
    {
      assert x in Elems(s);
      assert x in Elems(t);
    }
  }

  /** list_sort() sorts, and does so stably, for any strict weak order. */
  lemma {:induction false} MergeSortCorrect<T>(s: seq<T>, less: (T, T) -> bool)
    requires StrictWeak(Elems(s), less)
    ensures Sorted(MergeSort(s, less), less) && Stable(s, MergeSort(s, less), less)
    decreases Runs(s, less)
  {
    var t := Pass(s, less);
    PassStable(s, less);
    PassElems(s, less);
    if PassRuns(s, less) > 1 {
      PassShrinks(s, Elems(s), less);
      MergeSortCorrect(t, less);
      StableTrans(s, t, MergeSort(s, less), less);
    } else {
      PassOutput(s, Elems(s), less);
      assert Within(t, Elems(t));
      OneRunIsSorted(t, Elems(s), less);
    }
  }

  /* ----- Ordered insertion, and sorting by it ----- */

  /** Where list_insert_ordered() puts `x`: in front of the first element it is less than. */
  function InsertIndex<T>(s: seq<T>, x: T, less: (T, T) -> bool): (i: nat)
    ensures i <= |s|
    ensures forall k | 0 <= k < i :: !less(x, s[k])
    ensures i < |s| ==> less(x, s[i])
  {
    if s == [] || less(x, s[0]) then 0 else 1 + InsertIndex(s[1..], x, less)
  }

  function InsertOrdered<T>(s: seq<T>, x: T, less: (T, T) -> bool): (r: seq<T>)
  {
    var i := InsertIndex(s, x, less);
    s[..i] + [x] + s[i..]
  }

  /** The simple way to sort: insert one element after the other. */
  function InsertionSort<T>(s: seq<T>, less: (T, T) -> bool): (r: seq<T>)
  {
    if s == [] then [] else InsertOrdered(InsertionSort(s[..|s| - 1], less), s[|s| - 1], less)
  }

  lemma InsertSorted<T>(s: seq<T>, x: T, dom: set<T>, less: (T, T) -> bool)
    requires StrictWeak(dom, less) && Within(s, dom) && x in dom && Sorted(s, less)
    ensures Sorted(InsertOrdered(s, x, less), less)
  {
    var p, r := InsertIndex(s, x, less), InsertOrdered(s, x, less);
    forall i, j | 0 <= i < j < |r|
      ensures !less(r[j], r[i])
    {
      if i < p {
        assert r[i] == s[i];
        if j < p { assert r[j] == s[j]; } else if j > p { assert r[j] == s[j - 1]; }
      } else {
        assert r[j] == s[j - 1];
        if i > p { assert r[i] == s[i - 1]; } else if j - 1 > p { assert !less(s[j - 1], s[p]); assert less(x, s[p]); }
      }
    }
  }

  lemma InsertElems<T>(s: seq<T>, x: T, less: (T, T) -> bool)
    ensures multiset(InsertOrdered(s, x, less)) == multiset(s) + multiset{x}
  {
    var i := InsertIndex(s, x, less);
    assert s == s[..i] + s[i..];
  }

  lemma AlikeParts<T>(front: seq<T>, x: T, back: seq<T>, y: T, less: (T, T) -> bool)
    ensures Alike(front + [x] + back, y, less)
         == Alike(front, y, less) + Alike([x], y, less) + Alike(back, y, less)
  {
    AlikeConcat(front, [x], y, less);
    AlikeConcat(front + [x], back, y, less);
  }

  lemma AlikeSwap<T>(x: T, back: seq<T>, y: T, dom: set<T>, less: (T, T) -> bool)
    requires StrictWeak(dom, less) && Within(back, dom) && x in dom && y in dom
    requires Sorted(back, less) && (back != [] ==> less(x, back[0]))
    ensures Alike([x], y, less) == [] || Alike(back, y, less) == []
  {
    if Same(y, x, less) {
      if back != [] { NoneAlike(back, x, y, dom, less); }
    } else {
      AlikeOther(x, y, less);
    }
  }

  /** The new element goes behind its equals. */
  lemma InsertAlike<T>(s: seq<T>, x: T, y: T, dom: set<T>, less: (T, T) -> bool)
    requires StrictWeak(dom, less) && Within(s, dom) && x in dom && y in dom && Sorted(s, less)
    ensures Alike(InsertOrdered(s, x, less), y, less) == Alike(s, y, less) + Alike([x], y, less)
  {
    var i := InsertIndex(s, x, less);
    AlikeParts(s[..i], x, s[i..], y, less);
    AlikeSplit(s, i, y, less);
    AlikeSwap(x, s[i..], y, dom, less);
    SwapEmpty(Alike(s[..i], y, less), Alike([x], y, less), Alike(s[i..], y, less));
  }

  lemma SwapEmpty<T>(a: seq<T>, b: seq<T>, c: seq<T>)
    requires b == [] || c == []
    ensures a + b + c == a + c + b
  {
    if b == [] { assert a + b == a; } else { assert a + c == a; }
  }

  lemma AlikeSplit<T>(s: seq<T>, i: nat, y: T, less: (T, T) -> bool)
    requires i <= |s|
    ensures Alike(s, y, less) == Alike(s[..i], y, less) + Alike(s[i..], y, less)
  {
    AlikeConcat(s[..i], s[i..], y, less);
    assert s == s[..i] + s[i..];
  }

  lemma AlikeOther<T>(x: T, y: T, less: (T, T) -> bool)
    requires !Same(y, x, less)
    ensures Alike([x], y, less) == []
  {
    assert [x][1..] == [];
  }

  lemma {:induction false} InsertionSortSorts<T>(s: seq<T>, dom: set<T>, less: (T, T) -> bool)
    requires StrictWeak(dom, less) && Within(s, dom)
    ensures Sorted(InsertionSort(s, less), less) && Within(InsertionSort(s, less), dom)
    ensures multiset(InsertionSort(s, less)) == multiset(s)
  {
    if s != [] {
      var t, x := s[..|s| - 1], s[|s| - 1];
      InsertionSortSorts(t, dom, less);
      assert s == t + [x];
      InsertSorted(InsertionSort(t, less), x, dom, less);
      InsertElems(InsertionSort(t, less), x, less);
    }
  }

  lemma {:induction false} InsertionSortAlike<T>(s: seq<T>, y: T, dom: set<T>, less: (T, T) -> bool)
    requires StrictWeak(dom, less) && Within(s, dom) && y in dom
    ensures Alike(InsertionSort(s, less), y, less) == Alike(s, y, less)
  {
    if s != [] {
      var t, x := s[..|s| - 1], s[|s| - 1];
      InsertionSortSorts(t, dom, less);
      InsertionSortAlike(t, y, dom, less);
      InsertAlike(InsertionSort(t, less), x, y, dom, less);
      AlikeConcat(t, [x], y, less);
      assert s == t + [x];
    }
  }

  lemma AlikeHead<T>(s: seq<T>, x: T, less: (T, T) -> bool)
    requires s != [] && Same(x, s[0], less)
    ensures Alike(s, x, less) == [s[0]] + Alike(s[1..], x, less)
  {
  }

  lemma AlikeTail<T>(s: seq<T>, t: seq<T>, x: T, less: (T, T) -> bool)
    requires s != [] && t != [] && s[0] == t[0] && Alike(s, x, less) == Alike(t, x, less)
    ensures Alike(s[1..], x, less) == Alike(t[1..], x, less)
  {
    if Same(x, s[0], less) {
      AlikeHead(s, x, less);
      AlikeHead(t, x, less);
      assert Alike(s, x, less)[1..] == Alike(s[1..], x, less);
      assert Alike(t, x, less)[1..] == Alike(t[1..], x, less);
    }
  }

  /** Two sorted arrangements of the same elements start alike. */
  lemma SameHead<T>(t: seq<T>, u: seq<T>, dom: set<T>, less: (T, T) -> bool)
    requires StrictWeak(dom, less) && Within(t, dom) && Within(u, dom)
    requires Sorted(t, less) && Sorted(u, less) && multiset(t) == multiset(u) && t != [] && u != []
    requires Alike(t, t[0], less) == Alike(u, t[0], less)
    ensures t[0] == u[0]
  {
    var x, y := t[0], u[0];
    SameElems(t, u);
    assert x in Elems(u) && y in Elems(t);
    HeadIsLeast(t, x, dom, less);
    HeadIsLeast(u, y, dom, less);
    assert !less(y, x) && !less(x, y);
    AlikeHead(t, x, less);
    AlikeHead(u, x, less);
    assert Alike(t, x, less)[0] == x && Alike(u, x, less)[0] == y;
  }

  lemma TailElems<T>(t: seq<T>, u: seq<T>)
    requires t != [] && u != [] && t[0] == u[0] && multiset(t) == multiset(u)
    ensures multiset(t[1..]) == multiset(u[1..])
  {
    HeadElem(t);
    HeadElem(u);
    assert multiset(t[1..]) == multiset(t) - multiset{t[0]};
    assert multiset(u[1..]) == multiset(u) - multiset{u[0]};
  }

  /** A stable sort is unique. */
  lemma {:induction false} SortUnique<T>(t: seq<T>, u: seq<T>, dom: set<T>, less: (T, T) -> bool)
    requires StrictWeak(dom, less) && Within(t, dom) && Within(u, dom)
    requires Sorted(t, less) && Sorted(u, less) && multiset(t) == multiset(u)
    requires forall x | x in dom :: Alike(t, x, less) == Alike(u, x, less)
    ensures t == u
  {
    assert |multiset(t)| == |multiset(u)|;
    if t != [] {
      SameHead(t, u, dom, less);
      TailElems(t, u);
      forall x | x in dom
        ensures Alike(t[1..], x, less) == Alike(u[1..], x, less)
      {
        AlikeTail(t, u, x, less);
      }
      SortUnique(t[1..], u[1..], dom, less);
      assert t == [t[0]] + t[1..] && u == [u[0]] + u[1..];
    }
  }

  /** list_sort() gives what list_insert_ordered() of one element after the other gives. */
  lemma MergeSortIsInsertionSort<T>(s: seq<T>, less: (T, T) -> bool)
    requires StrictWeak(Elems(s), less)
    ensures MergeSort(s, less) == InsertionSort(s, less)
  {
    var t, dom := MergeSort(s, less), Elems(s);
    MergeSortCorrect(s, less);
    InsertionSortSorts(s, dom, less);
    SameElems(t, s);
    assert Within(t, dom) by {
      forall i | 0 <= i < |t| ensures t[i] in dom { assert t[i] in Elems(t); }
    }
    forall x | x in dom
      ensures Alike(t, x, less) == Alike(InsertionSort(s, less), x, less)
    {
      InsertionSortAlike(s, x, dom, less);
    }
    SortUnique(t, InsertionSort(s, less), dom, less);
  }
}
