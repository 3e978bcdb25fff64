/** stdlib.c: heap sort over 1-based indexes, and binary search. */
module HeapSort {

  /** A strcmp()-type comparison: its sign flips with its arguments, and it is transitive. */
  ghost predicate Preorder<T(!new)>(cmp: (T, T) -> int)
  {
    && (forall a, b :: cmp(a, b) > 0 <==> cmp(b, a) < 0)
    && (forall a, b, c | cmp(a, b) >= 0 && cmp(b, c) >= 0 :: cmp(a, c) >= 0)
  }

  /** The element with 1-based index i */
  function At<T>(s: seq<T>, i: nat): (x: T)
    requires 1 <= i <= |s|
  {
    s[i - 1]
  }

  ghost predicate Sorted<T>(s: seq<T>, cmp: (T, T) -> int)
  {
    forall i, j | 0 <= i < j < |s| :: cmp(s[i], s[j]) <= 0
  }

  predicate IsChild(j: nat, c: nat)
  {
    c == 2 * j || c == 2 * j + 1
  }

  /** Among the first `cnt` elements, those from `lo` on except `but` are no less than their children. */
  ghost predicate HeapBut<T>(s: seq<T>, lo: nat, cnt: nat, cmp: (T, T) -> int, but: nat)
    requires cnt <= |s|
  {
    forall j: nat, c: nat | 1 <= j && lo <= j && j != but && IsChild(j, c) && c <= cnt :: cmp(At(s, j), At(s, c)) >= 0
  }

  ghost predicate Heap<T>(s: seq<T>, lo: nat, cnt: nat, cmp: (T, T) -> int)
    requires cnt <= |s|
  {
    HeapBut(s, lo, cnt, cmp, 0)
  }

  /** The parent of `i`, if it is `lo` or more, is no less than the children of `i`. */
  ghost predicate ParentAbove<T>(s: seq<T>, lo: nat, cnt: nat, cmp: (T, T) -> int, i: nat)
    requires cnt <= |s|
  {
    forall p: nat, c: nat | 1 <= p && lo <= p && IsChild(p, i) && IsChild(i, c) && c <= cnt :: cmp(At(s, p), At(s, c)) >= 0
  }

  function Swapped<T>(s: seq<T>, i: nat, j: nat): (r: seq<T>)
    requires 1 <= i <= |s| && 1 <= j <= |s|
    ensures |r| == |s|
  {
    s[i - 1 := s[j - 1]][j - 1 := s[i - 1]]
  }

  /** `r` is `s` with its first `cnt` elements rearranged. */
  ghost predicate Rearranged<T>(s: seq<T>, r: seq<T>, cnt: nat)
  {
    |r| == |s| && cnt <= |s| && r[cnt..] == s[cnt..] && multiset(r[..cnt]) == multiset(s[..cnt])
  }

  lemma SwapRearranges<T>(s: seq<T>, i: nat, j: nat, cnt: nat)
    requires 1 <= i <= cnt <= |s| && 1 <= j <= cnt
    ensures Rearranged(s, Swapped(s, i, j), cnt)
  {
    var p := s[..cnt];
    assert Swapped(s, i, j)[..cnt] == p[i - 1 := p[j - 1]][j - 1 := p[i - 1]];
  }

  lemma RearrangedChain<T>(s: seq<T>, r: seq<T>, t: seq<T>, cnt: nat)
    requires Rearranged(s, r, cnt) && Rearranged(r, t, cnt)
    ensures Rearranged(s, t, cnt)
  {
  }

  lemma RearrangedElem<T>(s: seq<T>, r: seq<T>, cnt: nat, i: nat)
    requires Rearranged(s, r, cnt) && i < cnt
    ensures r[i] in s[..cnt]
  {
    assert r[..cnt][i] in multiset(r[..cnt]);
  }

  lemma {:induction false} RootIsMax<T(!new)>(s: seq<T>, cnt: nat, cmp: (T, T) -> int, j: nat)
    requires Preorder(cmp) && cnt <= |s| && Heap(s, 1, cnt, cmp) && 1 <= j <= cnt
    ensures cmp(At(s, 1), At(s, j)) >= 0
  {
    if j == 1 {
      assert cmp(At(s, 1), At(s, 1)) >= 0;
    } else {
      RootIsMax(s, cnt, cmp, j / 2);
      assert IsChild(j / 2, j);
    }
  }

  /** The index heapify() picks among `i` and its children */
  function MaxOf<T>(s: seq<T>, i: nat, cnt: nat, cmp: (T, T) -> int): (m: nat)
    requires 1 <= i <= cnt <= |s|
    ensures m == i || (IsChild(i, m) && m <= cnt)
  {
    var m := if 2 * i <= cnt && cmp(At(s, 2 * i), At(s, i)) > 0 then 2 * i else i;
    if 2 * i + 1 <= cnt && cmp(At(s, 2 * i + 1), At(s, m)) > 0 then 2 * i + 1 else m
  }

  lemma MaxOfIsMax<T(!new)>(s: seq<T>, i: nat, cnt: nat, cmp: (T, T) -> int)
    requires Preorder(cmp) && 1 <= i <= cnt <= |s|
    ensures cmp(At(s, MaxOf(s, i, cnt, cmp)), At(s, i)) >= 0
    ensures forall c: nat | IsChild(i, c) && c <= cnt :: cmp(At(s, MaxOf(s, i, cnt, cmp)), At(s, c)) >= 0
  {
    assert cmp(At(s, i), At(s, i)) >= 0;
  }

  /** Swapping with the larger child moves the only gap in the heap one level down. */
  lemma SwapMovesGap<T(!new)>(s: seq<T>, lo: nat, i: nat, cnt: nat, cmp: (T, T) -> int)
    requires Preorder(cmp) && 1 <= lo <= i <= cnt <= |s|
    requires HeapBut(s, lo, cnt, cmp, i) && ParentAbove(s, lo, cnt, cmp, i)
    requires MaxOf(s, i, cnt, cmp) != i
    ensures var m := MaxOf(s, i, cnt, cmp);
            HeapBut(Swapped(s, i, m), lo, cnt, cmp, m) && ParentAbove(Swapped(s, i, m), lo, cnt, cmp, m)
  {
    var m := MaxOf(s, i, cnt, cmp);
    var t := Swapped(s, i, m);
    MaxOfIsMax(s, i, cnt, cmp);
    forall j: nat, c: nat | 1 <= j && lo <= j && j != m && IsChild(j, c) && c <= cnt
      ensures cmp(At(t, j), At(t, c)) >= 0
    {
      if j == i {
        assert At(t, i) == At(s, m);
        if c == m { assert At(t, c) == At(s, i); } else { assert At(t, c) == At(s, c); }
      } else if c == i {
        assert At(t, j) == At(s, j) && At(t, c) == At(s, m) && IsChild(i, m);
      } else {
        assert c != m && At(t, j) == At(s, j) && At(t, c) == At(s, c);
      }
    }
    SwapParentAbove(s, lo, i, cnt, cmp, m);
  }

  lemma SwapParentAbove<T(!new)>(s: seq<T>, lo: nat, i: nat, cnt: nat, cmp: (T, T) -> int, m: nat)
    requires 1 <= lo <= i <= cnt <= |s| && HeapBut(s, lo, cnt, cmp, i) && IsChild(i, m) && m <= cnt
    ensures ParentAbove(Swapped(s, i, m), lo, cnt, cmp, m)
  {
    var t := Swapped(s, i, m);
    forall p: nat, c: nat | 1 <= p && lo <= p && IsChild(p, m) && IsChild(m, c) && c <= cnt
      ensures cmp(At(t, p), At(t, c)) >= 0
    {
      assert p == i && At(t, p) == At(s, m) && At(t, c) == At(s, c);
    }
  }

  lemma NoGap<T(!new)>(s: seq<T>, lo: nat, i: nat, cnt: nat, cmp: (T, T) -> int)
    requires Preorder(cmp) && 1 <= lo <= i <= cnt <= |s| && HeapBut(s, lo, cnt, cmp, i) && MaxOf(s, i, cnt, cmp) == i
    ensures Heap(s, lo, cnt, cmp)
  {
    MaxOfIsMax(s, i, cnt, cmp);
  }

  /** do_swap() */
  method Swap<T>(a: array<T>, i: nat, j: nat)
    requires 1 <= i <= a.Length && 1 <= j <= a.Length
    modifies a
    ensures a[..] == Swapped(old(a[..]), i, j)
  {
    a[i - 1], a[j - 1] := a[j - 1], a[i - 1];
  }

  /** heapify() */
  method Heapify<T(!new)>(a: array<T>, lo: nat, cnt: nat, cmp: (T, T) -> int)
    requires Preorder(cmp) && 1 <= lo <= cnt <= a.Length && HeapBut(a[..], lo, cnt, cmp, lo)
    modifies a
    ensures Heap(a[..], lo, cnt, cmp) && Rearranged(old(a[..]), a[..], cnt)
  {
    var i := lo;
    ghost var start := a[..];
    var m := MaxOf(a[..], i, cnt, cmp);
    while m != i
      invariant lo <= i <= cnt && m == MaxOf(a[..], i, cnt, cmp)
      invariant HeapBut(a[..], lo, cnt, cmp, i) && ParentAbove(a[..], lo, cnt, cmp, i)
      invariant Rearranged(start, a[..], cnt)
      decreases cnt - i
    {
      ghost var s := a[..];
      SwapMovesGap(s, lo, i, cnt, cmp);
      SwapRearranges(s, i, m, cnt);
      Swap(a, i, m);
      RearrangedChain(start, s, a[..], cnt);
      i := m;
      m := MaxOf(a[..], i, cnt, cmp);
    }
    NoGap(a[..], lo, i, cnt, cmp);
  }

  /** The first `n` elements are no greater than the rest, which is sorted. */
  ghost predicate SortedFrom<T>(s: seq<T>, n: nat, cmp: (T, T) -> int)
    requires n <= |s|
  {
    && (forall x, y | n <= x < y < |s| :: cmp(s[x], s[y]) <= 0)
    && (forall x, y | 0 <= x < n <= y < |s| :: cmp(s[x], s[y]) <= 0)
  }

  lemma SwapExtends<T(!new)>(s: seq<T>, n: nat, cmp: (T, T) -> int)
    requires Preorder(cmp) && 1 < n <= |s| && Heap(s, 1, n, cmp) && SortedFrom(s, n, cmp)
    ensures SortedFrom(Swapped(s, 1, n), n - 1, cmp) && HeapBut(Swapped(s, 1, n), 1, n - 1, cmp, 1)
  {
    SwapSorts(s, n, cmp);
    SwapKeepsHeap(s, n, cmp);
  }

  lemma SwapSorts<T(!new)>(s: seq<T>, n: nat, cmp: (T, T) -> int)
    requires Preorder(cmp) && 1 < n <= |s| && Heap(s, 1, n, cmp) && SortedFrom(s, n, cmp)
    ensures SortedFrom(Swapped(s, 1, n), n - 1, cmp)
  {
    var t := Swapped(s, 1, n);
    forall x, y | n - 1 <= y < |s| && 0 <= x < y
      ensures cmp(t[x], t[y]) <= 0
    {
      if y == n - 1 { SwapBringsMax(s, t, n, cmp, x); } else { SwapKeepsBehind(s, t, n, cmp, x, y); }
    }
  }

  lemma SwapBringsMax<T(!new)>(s: seq<T>, t: seq<T>, n: nat, cmp: (T, T) -> int, x: nat)
    requires Preorder(cmp) && 1 < n <= |s| && Heap(s, 1, n, cmp) && t == Swapped(s, 1, n) && x < n - 1
    ensures cmp(t[x], t[n - 1]) <= 0
  {
    var j := if x == 0 then n else x + 1;
    RootIsMax(s, n, cmp, j);
    assert t[x] == At(s, j) && t[n - 1] == At(s, 1);
  }

  lemma SwapKeepsBehind<T(!new)>(s: seq<T>, t: seq<T>, n: nat, cmp: (T, T) -> int, x: nat, y: nat)
    requires 1 < n <= y < |s| && SortedFrom(s, n, cmp) && t == Swapped(s, 1, n) && x < y
    ensures cmp(t[x], t[y]) <= 0
  {
    var z := if x == 0 then n - 1 else if x == n - 1 then 0 else x;
    assert t[x] == s[z] && t[y] == s[y];
  }

  lemma SwapKeepsHeap<T(!new)>(s: seq<T>, n: nat, cmp: (T, T) -> int)
    requires 1 < n <= |s| && Heap(s, 1, n, cmp)
    ensures HeapBut(Swapped(s, 1, n), 1, n - 1, cmp, 1)
  {
    var t := Swapped(s, 1, n);
    forall j: nat, c: nat | 1 <= j && j != 1 && IsChild(j, c) && c <= n - 1
      ensures cmp(At(t, j), At(t, c)) >= 0
    {
      assert At(t, j) == At(s, j) && At(t, c) == At(s, c);
    }
  }

  lemma RearrangedSortedFrom<T(!new)>(s: seq<T>, r: seq<T>, n: nat, cmp: (T, T) -> int)
    requires n <= |s| && SortedFrom(s, n, cmp) && Rearranged(s, r, n)
    ensures SortedFrom(r, n, cmp)
  {
    assert forall y | n <= y < |s| :: r[y] == r[n..][y - n] == s[y];
    forall x, y | 0 <= x < n <= y < |r|
      ensures cmp(r[x], r[y]) <= 0
    {
      RearrangedElem(s, r, n, x);
      var z :| 0 <= z < n && s[z] == r[x];
    }
  }

  lemma RearrangedMore<T>(s: seq<T>, r: seq<T>, n: nat, cnt: nat)
    requires Rearranged(s, r, n) && n <= cnt <= |s|
    ensures Rearranged(s, r, cnt)
  {
    assert s[..cnt] == s[..n] + s[n..][..cnt - n] && r[..cnt] == r[..n] + r[n..][..cnt - n];
    assert s[cnt..] == s[n..][cnt - n..] && r[cnt..] == r[n..][cnt - n..];
  }

  /** The first loop of sort() */
  method BuildHeap<T(!new)>(a: array<T>, cmp: (T, T) -> int)
    requires Preorder(cmp)
    modifies a
    ensures Heap(a[..], 1, a.Length, cmp) && Rearranged(old(a[..]), a[..], a.Length)
  {
    var cnt := a.Length;
    var i := cnt / 2;
    while i > 0
      invariant 0 <= i <= cnt / 2 && Heap(a[..], i + 1, cnt, cmp)
      invariant Rearranged(old(a[..]), a[..], cnt)
    {
      ghost var s := a[..];
      Heapify(a, i, cnt, cmp);
      RearrangedChain(old(a[..]), s, a[..], cnt);
      i := i - 1;
    }
  }

  /** One turn of the second loop */
  method TakeMax<T(!new)>(a: array<T>, i: nat, cmp: (T, T) -> int)
    requires Preorder(cmp) && 1 < i <= a.Length && Heap(a[..], 1, i, cmp) && SortedFrom(a[..], i, cmp)
    modifies a
    ensures Heap(a[..], 1, i - 1, cmp) && SortedFrom(a[..], i - 1, cmp) && Rearranged(old(a[..]), a[..], a.Length)
  {
    ghost var s := a[..];
    SwapExtends(s, i, cmp);
    SwapRearranges(s, 1, i, a.Length);
    Swap(a, 1, i);
    ghost var t := a[..];
    Heapify(a, 1, i - 1, cmp);
    RearrangedSortedFrom(t, a[..], i - 1, cmp);
    RearrangedMore(t, a[..], i - 1, a.Length);
    RearrangedChain(s, t, a[..], a.Length);
  }

  /** sort() leaves the elements in order, and leaves them all there. */
  method Sort<T(!new)>(a: array<T>, cmp: (T, T) -> int)
    requires Preorder(cmp)
    modifies a
    ensures Sorted(a[..], cmp) && multiset(a[..]) == multiset(old(a[..]))
  {
    BuildHeap(a, cmp);
    ghost var start := old(a[..]);
    var i := a.Length;
    while i > 1
      invariant 0 <= i <= a.Length && Heap(a[..], 1, i, cmp) && SortedFrom(a[..], i, cmp)
      invariant Rearranged(start, a[..], a.Length)
    {
      ghost var s := a[..];
      TakeMax(a, i, cmp);
      RearrangedChain(start, s, a[..], a.Length);
      i := i - 1;
    }
    assert a[..][..a.Length] == a[..] && start[..a.Length] == start;
  }

  datatype Match = NoMatch | Match(index: nat)

  /** binary_search() of a sorted array finds an equal element exactly when there is one. */
  method BinarySearch<T(!new)>(key: T, s: seq<T>, cmp: (T, T) -> int) returns (r: Match)
    requires Preorder(cmp) && Sorted(s, cmp)
    ensures match r
            case Match(i) => i < |s| && cmp(key, s[i]) == 0
            case NoMatch => forall i | 0 <= i < |s| :: cmp(key, s[i]) != 0
  {
    var first, last := 0, |s|;
    while first < last
      invariant 0 <= first <= last <= |s|
      invariant forall i | 0 <= i < first :: cmp(key, s[i]) > 0
      invariant forall i | last <= i < |s| :: cmp(key, s[i]) < 0
    {
      var middle := first + (last - first) / 2;
      var c := cmp(key, s[middle]);
      if c < 0 {
        KeyBelow(key, s, cmp, middle);
        last := middle;
      } else if c > 0 {
        KeyAbove(key, s, cmp, middle);
        first := middle + 1;
      } else {
        return Match(middle);
      }
    }
    return NoMatch;
  }

  lemma KeyBelow<T(!new)>(key: T, s: seq<T>, cmp: (T, T) -> int, m: nat)
    requires Preorder(cmp) && Sorted(s, cmp) && m < |s| && cmp(key, s[m]) < 0
    ensures forall i | m <= i < |s| :: cmp(key, s[i]) < 0
  {
    forall i | m <= i < |s|
      ensures cmp(key, s[i]) < 0
    {
      assert i > m ==> cmp(s[i], s[m]) >= 0;
    }
  }

  lemma KeyAbove<T(!new)>(key: T, s: seq<T>, cmp: (T, T) -> int, m: nat)
    requires Preorder(cmp) && Sorted(s, cmp) && m < |s| && cmp(key, s[m]) > 0
    ensures forall i | 0 <= i <= m :: cmp(key, s[i]) > 0
  {
    forall i | 0 <= i <= m
      ensures cmp(key, s[i]) > 0
    {
      var x := s[i];
      assert i < m ==> cmp(s[m], x) >= 0;
      assert cmp(key, x) <= 0 ==> cmp(x, key) >= 0;
    }
  }
}
