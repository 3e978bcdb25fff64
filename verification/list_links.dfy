/** list.c: doubly linked lists with two header elements, changed in place. */
module ListLinks {
  import opened ListSpec

  /** struct list_elem */
  class Elem {
    var prev: Elem?
    var next: Elem?

    constructor ()
    {
      prev, next := null, null;
    }
  }

  ghost predicate Distinct(ns: seq<Elem>)
  {
    forall i, j | 0 <= i < j < |ns| :: ns[i] != ns[j]
  }

  /** `ns` are the elements of a list from its head to its tail: `next` leads from each to
      the following one and `prev` back, and beyond the ends both are null. */
  ghost predicate Linked(ns: seq<Elem>)
    reads ns
  {
    && 2 <= |ns| && Distinct(ns)
    && ns[0].prev == null && ns[|ns| - 1].next == null
    && (forall i {:trigger ns[i].next} | 0 <= i < |ns| - 1 :: ns[i].next == ns[i + 1])
    && (forall i {:trigger ns[i].prev} | 0 < i < |ns| :: ns[i].prev == ns[i - 1])
  }

  /** struct list */
  class List {
    const head: Elem
    const tail: Elem
    ghost var nodes: seq<Elem>
    ghost var repr: set<Elem>

    ghost predicate Valid()
      reads this, repr
    {
      && (forall i | 0 <= i < |nodes| :: nodes[i] in repr)
      && Linked(nodes) && nodes[0] == head && nodes[|nodes| - 1] == tail
    }

    /** What the list holds: everything between the headers. */
    ghost function Contents(): seq<Elem>
      reads this
    {
      if |nodes| < 2 then [] else nodes[1..|nodes| - 1]
    }

    /** list_init() */
    constructor ()
      ensures Valid() && fresh(repr) && Contents() == []
    {
      head := new Elem();
      tail := new Elem();
      nodes, repr := [head, tail], {head, tail};
      new;
      head.prev, head.next := null, tail;
      tail.prev, tail.next := head, null;
    }
  }

  /** list_insert(): `before` is the `k`th element of `l`. */
  method Insert(ghost l: List, ghost k: nat, before: Elem, elem: Elem)
    requires l.Valid() && 0 < k < |l.nodes| && l.nodes[k] == before && elem !in l.nodes
    modifies l, l.repr, elem
    ensures l.Valid() && l.nodes == old(l.nodes[..k] + [elem] + l.nodes[k..])
    ensures l.repr == old(l.repr) + {elem}
  {
    elem.prev := before.prev;
    elem.next := before;
    before.prev.next := elem;
    before.prev := elem;
    l.nodes, l.repr := l.nodes[..k] + [elem] + l.nodes[k..], l.repr + {elem};
  }

  /** list_remove(): takes out the `k`th element and returns the one that followed it. */
  method Remove(ghost l: List, ghost k: nat, elem: Elem) returns (after: Elem)
    requires l.Valid() && 0 < k < |l.nodes| - 1 && l.nodes[k] == elem
    modifies l`nodes, l.repr
    ensures l.Valid() && l.nodes == old(l.nodes[..k] + l.nodes[k + 1..])
    ensures after == l.nodes[k]
  {
    elem.prev.next := elem.next;
    elem.next.prev := elem.prev;
    after := elem.next;
    l.nodes := l.nodes[..k] + l.nodes[k + 1..];
  }

  /** The elements `i` up to `j` moved in front of element `b`, which is not one of them. */
  function Moved<T>(ns: seq<T>, b: nat, i: nat, j: nat): seq<T>
    requires i <= j <= |ns| && b <= |ns| && (b <= i || j <= b)
  {
    if b <= i then ns[..b] + ns[i..j] + ns[b..i] + ns[j..]
    else ns[..i] + ns[j..b] + ns[i..j] + ns[b..]
  }

  /** A stretch of elements linked to each other. */
  ghost predicate Segment(ns: seq<Elem>)
    reads ns
  {
    && ns != [] && Distinct(ns)
    && (forall i {:trigger ns[i].next} | 0 <= i < |ns| - 1 :: ns[i].next == ns[i + 1])
    && (forall i {:trigger ns[i].prev} | 0 < i < |ns| :: ns[i].prev == ns[i - 1])
  }

  /** The first half of list_splice(): `first` up to `last` leave the list. */
  method CutOut(ghost l: List, ghost i: nat, ghost j: nat, first: Elem, last: Elem)
    requires l.Valid() && 0 < i < j < |l.nodes| && l.nodes[i] == first && l.nodes[j - 1] == last
    modifies l`nodes, l.repr
    ensures l.Valid() && l.nodes == old(l.nodes[..i] + l.nodes[j..])
    ensures Segment(old(l.nodes[i..j]))
  {
    first.prev.next := last.next;
    last.next.prev := first.prev;
    l.nodes := l.nodes[..i] + l.nodes[j..];
  }

  ghost predicate Apart(ns: seq<Elem>, ms: seq<Elem>)
  {
    forall i, j | 0 <= i < |ns| && 0 <= j < |ms| :: ns[i] != ms[j]
  }

  lemma PutAt(ns: seq<Elem>, b: nat, seg: seq<Elem>)
    requires 0 < b < |ns| && seg != [] && Distinct(ns) && Distinct(seg) && Apart(ns, seg)
    ensures var ms := ns[..b] + seg + ns[b..];
            && Distinct(ms) && |ms| == |ns| + |seg|
            && ms[0] == ns[0] && ms[|ms| - 1] == ns[|ns| - 1] && ms[b - 1] == ns[b - 1] && ms[b] == seg[0]
            && ms[b + |seg| - 1] == seg[|seg| - 1] && ms[b + |seg|] == ns[b]
  {
  }

  /** The second half of list_splice(): they enter a list in front of `before`. */
  method PutIn(ghost l: List, ghost b: nat, ghost seg: seq<Elem>, before: Elem, first: Elem, last: Elem)
    requires l.Valid() && 0 < b < |l.nodes| && l.nodes[b] == before
    requires Segment(seg) && seg[0] == first && seg[|seg| - 1] == last && Apart(l.nodes, seg)
    requires forall i | 0 <= i < |seg| :: seg[i] in l.repr
    modifies l`nodes, l.repr
    ensures l.Valid() && l.nodes == old(l.nodes[..b]) + seg + old(l.nodes[b..])
  {
    first.prev := before.prev;
    last.next := before;
    before.prev.next := first;
    before.prev := last;
    ghost var ns, n := l.nodes, |seg|;
    l.nodes := ns[..b] + seg + ns[b..];
    PutAt(ns, b, seg);
    forall i | 0 <= i < |l.nodes| - 1
      ensures l.nodes[i].next == l.nodes[i + 1] && l.nodes[i + 1].prev == l.nodes[i]
    {
      if i < b - 1 {
        assert l.nodes[i] == ns[i] && l.nodes[i + 1] == ns[i + 1];
      } else if i >= b + n {
        assert l.nodes[i] == ns[i - n] && l.nodes[i + 1] == ns[i + 1 - n];
      } else if b <= i < b + n - 1 {
        assert l.nodes[i] == seg[i - b] && l.nodes[i + 1] == seg[i + 1 - b];
      }
    }
  }

  lemma CutApart(ns: seq<Elem>, i: nat, j: nat)
    requires Distinct(ns) && i <= j <= |ns|
    ensures Apart(ns[..i] + ns[j..], ns[i..j])
  {
    var rest, seg := ns[..i] + ns[j..], ns[i..j];
    forall x, y | 0 <= x < |rest| && 0 <= y < |seg|
      ensures rest[x] != seg[y]
    {
      var x' := if x < i then x else x + (j - i);
      assert rest[x] == ns[x'] && seg[y] == ns[i + y];
    }
  }

  lemma CutAndPut<T>(ns: seq<T>, b: nat, i: nat, j: nat)
    requires i <= j <= |ns| && b < |ns| && (b < i || j <= b)
    ensures var rest, b' := ns[..i] + ns[j..], if b < i then b else b - (j - i);
            rest[b'] == ns[b] && rest[..b'] + ns[i..j] + rest[b'..] == Moved(ns, b, i, j)
  {
    var rest := ns[..i] + ns[j..];
    if b < i {
      assert rest[..b] == ns[..b] && rest[b..] == ns[b..i] + ns[j..];
    } else {
      var b' := b - (j - i);
      assert rest[..b'] == ns[..i] + ns[j..b] && rest[b'..] == ns[b..];
    }
  }

  /** list_splice(), within one list */
  method Splice(ghost l: List, ghost b: nat, ghost i: nat, ghost j: nat, before: Elem, first: Elem, end: Elem)
    requires l.Valid() && 0 < b < |l.nodes| && 0 < i <= j < |l.nodes|
    requires l.nodes[b] == before && l.nodes[i] == first && l.nodes[j] == end
    requires b < i || j <= b
    modifies l`nodes, l.repr
    ensures l.Valid() && l.nodes == Moved(old(l.nodes), b, i, j)
  {
    ghost var ns, b' := l.nodes, if b < i then b else b - (j - i);
    CutAndPut(ns, b, i, j);
    if first == end {
      assert i == j;
      assert ns[..i] + ns[j..] == ns;
      assert ns[..b'] + ns[b'..] == ns;
    } else {
      var last := end.prev;
      CutOut(l, i, j, first, last);
      CutApart(ns, i, j);
      PutIn(l, b', ns[i..j], before, first, last);
    }
  }

  /** list_splice() from one list into another */
  method SpliceFrom(ghost l: List, ghost from: List, ghost b: nat, ghost i: nat, ghost j: nat,
                    before: Elem, first: Elem, end: Elem)
    requires l != from && l.Valid() && from.Valid() && l.repr !! from.repr
    requires 0 < b < |l.nodes| && l.nodes[b] == before
    requires 0 < i <= j < |from.nodes| && from.nodes[i] == first && from.nodes[j] == end
    modifies l, from, l.repr, from.repr
    ensures l.Valid() && from.Valid() && l.repr !! from.repr
    ensures l.nodes == old(l.nodes[..b]) + old(from.nodes[i..j]) + old(l.nodes[b..])
    ensures from.nodes == old(from.nodes[..i] + from.nodes[j..])
  {
    ghost var ns, seg := from.nodes, from.nodes[i..j];
    if first == end {
      assert i == j;
      assert ns[..i] + ns[j..] == ns;
      assert l.nodes[..b] + [] + l.nodes[b..] == l.nodes;
    } else {
      var last := end.prev;
      CutOut(from, i, j, first, last);
      CutApart(ns, i, j);
      HandOver(l, from, seg);
      PutIn(l, b, seg, before, first, last);
    }
  }

  /** The elements of `seg` change hands. */
  ghost method HandOver(l: List, from: List, seg: seq<Elem>)
    requires l != from && l.Valid() && from.Valid() && l.repr !! from.repr && Apart(from.nodes, seg)
    requires forall k | 0 <= k < |seg| :: seg[k] in from.repr
    modifies l`repr, from`repr
    ensures l.Valid() && from.Valid() && l.repr !! from.repr && Apart(l.nodes, seg)
    ensures forall k | 0 <= k < |seg| :: seg[k] in l.repr
    ensures l.repr + from.repr == old(l.repr + from.repr)
  {
    var moved := set k | 0 <= k < |seg| :: seg[k];
    l.repr, from.repr := l.repr + moved, from.repr - moved;
  }

  /* ----- Sorting ----- */

  /** find_end_of_run(): `a` is element `p`, `b` element `hi`. */
  method FindEndOfRun(ghost l: List, ghost p: nat, ghost hi: nat, a: Elem, b: Elem, less: (Elem, Elem) -> bool)
    returns (e: Elem, ghost q: nat)
    requires l.Valid() && 0 < p < hi < |l.nodes| && l.nodes[p] == a && l.nodes[hi] == b
    ensures q == p + RunLength(l.nodes[p..hi], less) && q <= hi && l.nodes[q] == e
  {
    ghost var ns := l.nodes;
    e, q := a.next, p + 1;
    assert ns[p..hi] == ns[q - 1..hi];
    while e != b && !less(e, e.prev)
      invariant p < q <= hi && ns[q] == e
      invariant RunLength(ns[p..hi], less) == q - 1 - p + RunLength(ns[q - 1..hi], less)
      decreases hi - q
    {
      assert ns[q - 1..hi][1..] == ns[q..hi];
      e, q := e.next, q + 1;
    }
  }

  /** Where inplace_merge() ends up, with the runs ending at `q` and `hi` still to merge
      from `p` on. */
  function MergedFrom<T>(ns: seq<T>, p: nat, q: nat, hi: nat, less: (T, T) -> bool): seq<T>
    requires p <= q <= hi <= |ns|
  {
    ns[..p] + Merge(ns[p..q], ns[q..hi], less) + ns[hi..]
  }

  lemma MergeKeepsFirst<T>(ns: seq<T>, p: nat, q: nat, hi: nat, less: (T, T) -> bool)
    requires p < q < hi <= |ns| && !less(ns[q], ns[p])
    ensures MergedFrom(ns, p + 1, q, hi, less) == MergedFrom(ns, p, q, hi, less)
  {
    assert ns[p..q][1..] == ns[p + 1..q];
    var m := Merge(ns[p + 1..q], ns[q..hi], less);
    assert ns[..p + 1] + m == ns[..p] + ([ns[p]] + m);
  }

  lemma MergeMovesSecond<T>(ns: seq<T>, p: nat, q: nat, hi: nat, less: (T, T) -> bool)
    requires p < q < hi <= |ns| && less(ns[q], ns[p])
    ensures MergedFrom(Moved(ns, p, q, q + 1), p + 1, q + 1, hi, less) == MergedFrom(ns, p, q, hi, less)
  {
    var m := Merge(ns[p..q], ns[q + 1..hi], less);
    MovedParts(ns, p, q, hi);
    assert ns[q..hi][1..] == ns[q + 1..hi];
    assert Merge(ns[p..q], ns[q..hi], less) == [ns[q]] + m;
    Assoc(ns[..p], [ns[q]], m);
  }

  lemma MovedParts<T>(ns: seq<T>, p: nat, q: nat, hi: nat)
    requires p < q < hi <= |ns|
    ensures var ms := Moved(ns, p, q, q + 1);
            && |ms| == |ns| && ms[..p + 1] == ns[..p] + [ns[q]] && ms[p + 1..q + 1] == ns[p..q]
            && ms[q + 1..hi] == ns[q + 1..hi] && ms[hi..] == ns[hi..]
  {
  }

  lemma MergeDone<T>(ns: seq<T>, p: nat, q: nat, hi: nat, less: (T, T) -> bool)
    requires p <= q <= hi <= |ns| && (p == q || q == hi)
    ensures MergedFrom(ns, p, q, hi, less) == ns
  {
    if p == q {
      assert ns[..p] + ns[q..hi] + ns[hi..] == ns;
    } else {
      assert ns[..p] + ns[p..q] + ns[hi..] == ns;
    }
  }

  lemma MovedAt<T>(ns: seq<T>, p: nat, q: nat, hi: nat)
    requires p < q < hi < |ns|
    ensures var ms := Moved(ns, p, q, q + 1);
            |ms| == |ns| && ms[p + 1] == ns[p] && ms[q + 1] == ns[q + 1] && ms[hi] == ns[hi]
  {
  }

  /** One turn of the loop of inplace_merge(). */
  method MergeTurn(ghost l: List, ghost p: nat, ghost q: nat, ghost hi: nat,
                   a0: Elem, a1b0: Elem, b1: Elem, less: (Elem, Elem) -> bool)
    returns (a: Elem, m: Elem, ghost p': nat, ghost q': nat)
    requires l.Valid() && 0 < p < q < hi < |l.nodes|
    requires l.nodes[p] == a0 && l.nodes[q] == a1b0 && l.nodes[hi] == b1
    modifies l`nodes, l.repr
    ensures l.Valid() && |l.nodes| == |old(l.nodes)| && p' == p + 1 && p' <= q' <= hi
    ensures l.nodes[p'] == a && l.nodes[q'] == m && l.nodes[hi] == b1
    ensures MergedFrom(l.nodes, p', q', hi, less) == MergedFrom(old(l.nodes), p, q, hi, less)
  {
    ghost var ns := l.nodes;
    if !less(a1b0, a0) {
      a, m, p', q' := a0.next, a1b0, p + 1, q;
      MergeKeepsFirst(ns, p, q, hi, less);
    } else {
      a, m, p', q' := a0, a1b0.next, p + 1, q + 1;
      Splice(l, p, q, q + 1, a0, m.prev, m);
      MovedAt(ns, p, q, hi);
      MergeMovesSecond(ns, p, q, hi, less);
    }
  }

  /** inplace_merge(): the runs are elements `lo` up to `mid` and `mid` up to `hi`. */
  method InplaceMerge(ghost l: List, ghost lo: nat, ghost mid: nat, ghost hi: nat,
                      start: Elem, middle: Elem, b1: Elem, less: (Elem, Elem) -> bool)
    requires l.Valid() && 0 < lo < mid < hi < |l.nodes|
    requires l.nodes[lo] == start && l.nodes[mid] == middle && l.nodes[hi] == b1
    modifies l`nodes, l.repr
    ensures l.Valid() && l.nodes == MergedFrom(old(l.nodes), lo, mid, hi, less)
    ensures |l.nodes| == |old(l.nodes)| && l.nodes[hi] == b1
  {
    var a0, a1b0 := start, middle;
    ghost var p, q, ns := lo, mid, l.nodes;
    while a0 != a1b0 && a1b0 != b1
      invariant l.Valid() && |l.nodes| == |ns| && 0 < p <= q <= hi < |l.nodes|
      invariant l.nodes[p] == a0 && l.nodes[q] == a1b0 && l.nodes[hi] == b1
      invariant MergedFrom(l.nodes, p, q, hi, less) == MergedFrom(ns, lo, mid, hi, less)
      decreases hi - p
    {
      a0, a1b0, p, q := MergeTurn(l, p, q, hi, a0, a1b0, b1, less);
    }
    MergeDone(l.nodes, p, q, hi, less);
  }

  /** A list's elements in a pass: `done` is merged, `todo` is not, headers around. */
  function Laid<T>(head: T, done: seq<T>, todo: seq<T>, tail: T): seq<T>
  {
    [head] + done + todo + [tail]
  }

  lemma MergeLaid<T>(ns: seq<T>, p: nat, mid: nat, hi: nat, head: T, done: seq<T>, x: seq<T>, y: seq<T>,
                     rest: seq<T>, tail: T, less: (T, T) -> bool)
    requires ns == [head] + done + x + y + rest + [tail]
    requires p == 1 + |done| && mid == p + |x| && hi == mid + |y|
    ensures MergedFrom(ns, p, mid, hi, less) == Laid(head, done + Merge(x, y, less), rest, tail)
  {
    assert ns[..p] == [head] + done;
    assert ns[p..mid] == x;
    assert ns[mid..hi] == y;
    assert ns[hi..] == rest + [tail];
    Regroup(head, done, Merge(x, y, less), rest, tail);
  }

  /** What is where when `x` is the run found last and `todo` follows it. */
  lemma LaidAt<T>(ns: seq<T>, p: nat, head: T, done: seq<T>, x: seq<T>, todo: seq<T>, tail: T, b: nat)
    requires ns == [head] + done + x + todo + [tail] && p == 1 + |done| && x != [] && b <= |todo|
    ensures |ns| == p + |x| + |todo| + 1 && ns[p] == x[0] && ns[|ns| - 1] == tail
    ensures ns[p + |x|..|ns| - 1] == todo
    ensures ns[p + |x| + b] == if b < |todo| then todo[b] else tail
    ensures ns == [head] + done + x + todo[..b] + todo[b..] + [tail]
  {
    assert todo == todo[..b] + todo[b..];
  }

  lemma Regroup<T>(head: T, done: seq<T>, m: seq<T>, rest: seq<T>, tail: T)
    ensures ([head] + done) + m + (rest + [tail]) == Laid(head, done + m, rest, tail)
  {
    assert ([head] + done) + m == [head] + (done + m);
  }

  /** One turn of the inner loop of list_sort() that finds two runs: they are merged. */
  method MergeNext(l: List, ghost done: seq<Elem>, ghost x: seq<Elem>, ghost todo: seq<Elem>, a0: Elem, a1b0: Elem,
                   less: (Elem, Elem) -> bool)
    returns (b1: Elem)
    requires l.Valid() && l.nodes == [l.head] + done + x + todo + [l.tail]
    requires x != [] && todo != [] && x[0] == a0 && todo[0] == a1b0
    modifies l`nodes, l.repr
    ensures l.Valid()
    ensures var b := RunLength(todo, less);
            && l.nodes == Laid(l.head, done + Merge(x, todo[..b], less), todo[b..], l.tail)
            && b1 == if b < |todo| then todo[b] else l.tail
  {
    ghost var p, b := 1 + |done|, RunLength(todo, less);
    ghost var mid, hi := p + |x|, 0;
    LaidAt(l.nodes, p, l.head, done, x, todo, l.tail, 0);
    LaidAt(l.nodes, p, l.head, done, x, todo, l.tail, b);
    b1, hi := FindEndOfRun(l, mid, |l.nodes| - 1, a1b0, l.tail, less);
    MergeLaid(l.nodes, p, mid, hi, l.head, done, x, todo[..b], todo[b..], l.tail, less);
    InplaceMerge(l, p, mid, hi, a0, a1b0, b1, less);
  }

  lemma LaidContents<T>(head: T, done: seq<T>, todo: seq<T>, tail: T)
    ensures var ns := Laid(head, done, todo, tail); ns[1..|ns| - 1] == done + todo
  {
  }

  lemma LaidStart<T>(ns: seq<T>, p: nat, head: T, done: seq<T>, todo: seq<T>, tail: T)
    requires ns == Laid(head, done, todo, tail) && p == 1 + |done|
    ensures |ns| == p + |todo| + 1 && ns[p] == (if todo == [] then tail else todo[0]) && ns[|ns| - 1] == tail
    ensures ns[p..|ns| - 1] == todo
    ensures forall a | 0 <= a <= |todo| :: ns == [head] + done + todo[..a] + todo[a..] + [tail]
  {
    forall a | 0 <= a <= |todo|
      ensures ns == [head] + done + todo[..a] + todo[a..] + [tail]
    {
      assert todo == todo[..a] + todo[a..];
    }
  }

  /** How a pass goes on behind its first two runs. */
  lemma PassStep<T>(done: seq<T>, todo: seq<T>, less: (T, T) -> bool)
    requires ManyRuns(todo, less)
    ensures var a := RunLength(todo, less);
            var rest := todo[a..];
            var b := RunLength(rest, less);
            && todo[SecondEnd(todo, less)..] == rest[b..]
            && (done + Merge(todo[..a], rest[..b], less)) + Pass(rest[b..], less) == done + Pass(todo, less)
            && PassRuns(todo, less) == 1 + PassRuns(rest[b..], less)
  {
    var a := RunLength(todo, less);
    var rest := todo[a..];
    var b := RunLength(rest, less);
    assert rest[..b] == todo[a..a + b] && rest[b..] == todo[a + b..];
    assert Merge(todo[..a], rest[..b], less) == FirstMerge(todo, less);
    Assoc(done, FirstMerge(todo, less), Pass(rest[b..], less));
  }

  lemma Assoc<T>(x: seq<T>, y: seq<T>, z: seq<T>)
    ensures (x + y) + z == x + (y + z)
  {
  }

  /** The list in a pass, with the loop at `a0`. */
  ghost predicate InPass(l: List, done: seq<Elem>, todo: seq<Elem>, a0: Elem)
    reads l, l.repr
  {
    l.Valid() && l.nodes == Laid(l.head, done, todo, l.tail) && a0 == if todo == [] then l.tail else todo[0]
  }

  /** list_begin() */
  method Begin(l: List) returns (e: Elem)
    requires l.Valid()
    ensures InPass(l, [], l.Contents(), e)
  {
    e := l.head.next;
    assert l.nodes == Laid(l.head, [], l.Contents(), l.tail);
  }

  lemma InPassEnd(l: List, done: seq<Elem>, todo: seq<Elem>, a0: Elem)
    requires InPass(l, done, todo, a0)
    ensures a0 == l.tail <==> todo == []
    ensures l.Contents() == done + todo
  {
    LaidStart(l.nodes, 1 + |done|, l.head, done, todo, l.tail);
    LaidContents(l.head, done, todo, l.tail);
  }

  /** The first of the two runs of a turn. */
  method FirstRun(l: List, ghost done: seq<Elem>, ghost todo: seq<Elem>, a0: Elem, less: (Elem, Elem) -> bool)
    returns (a1b0: Elem)
    requires InPass(l, done, todo, a0) && todo != []
    ensures a1b0 != l.tail <==> ManyRuns(todo, less)
    ensures a1b0 != l.tail ==> todo[RunLength(todo, less)] == a1b0
  {
    ghost var p, a, mid := 1 + |done|, RunLength(todo, less), 0;
    LaidStart(l.nodes, p, l.head, done, todo, l.tail);
    LaidAt(l.nodes, p, l.head, done, todo, [], l.tail, 0);
    a1b0, mid := FindEndOfRun(l, p, |l.nodes| - 1, a0, l.tail, less);
    assert l.nodes[p..|l.nodes| - 1] == todo;
  }

  /** One turn of the inner loop that merges two runs. */
  method SortTurn(l: List, ghost done: seq<Elem>, ghost todo: seq<Elem>, a0: Elem, a1b0: Elem,
                  less: (Elem, Elem) -> bool)
    returns (b1: Elem, ghost done': seq<Elem>, ghost todo': seq<Elem>)
    requires InPass(l, done, todo, a0) && ManyRuns(todo, less) && todo[RunLength(todo, less)] == a1b0
    modifies l`nodes, l.repr
    ensures InPass(l, done', todo', b1) && |todo'| < |todo|
    ensures done' + Pass(todo', less) == done + Pass(todo, less)
    ensures PassRuns(todo, less) == 1 + PassRuns(todo', less)
  {
    ghost var a := RunLength(todo, less);
    ghost var b := RunLength(todo[a..], less);
    LaidStart(l.nodes, 1 + |done|, l.head, done, todo, l.tail);
    PassStep(done, todo, less);
    b1 := MergeNext(l, done, todo[..a], todo[a..], a0, a1b0, less);
    done', todo' := done + Merge(todo[..a], todo[a..][..b], less), todo[a..][b..];
  }

  /** One pass of list_sort() over the whole list. */
  method SortPass(l: List, less: (Elem, Elem) -> bool) returns (outputRunCnt: nat)
    requires l.Valid()
    modifies l`nodes, l.repr
    ensures l.Valid()
    ensures l.Contents() == Pass(old(l.Contents()), less)
    ensures outputRunCnt == PassRuns(old(l.Contents()), less)
  {
    ghost var s, done, todo := l.Contents(), [], l.Contents();
    ghost var out := Pass(s, less);
    outputRunCnt := 0;
    var a0 := Begin(l);
    InPassEnd(l, done, todo, a0);
    while a0 != l.tail
      invariant InPass(l, done, todo, a0) && (a0 == l.tail <==> todo == [])
      invariant done + Pass(todo, less) == out
      invariant outputRunCnt + PassRuns(todo, less) == PassRuns(s, less)
      decreases |todo|
    {
      outputRunCnt := outputRunCnt + 1;
      var a1b0 := FirstRun(l, done, todo, a0, less);
      if a1b0 == l.tail {
        break;
      }
      a0, done, todo := SortTurn(l, done, todo, a0, a1b0, less);
      InPassEnd(l, done, todo, a0);
    }
    InPassEnd(l, done, todo, a0);
  }

  /** list_sort() */
  method Sort(l: List, less: (Elem, Elem) -> bool)
    requires l.Valid() && StrictWeak(Elems(l.Contents()), less)
    modifies l`nodes, l.repr
    ensures l.Valid()
    ensures l.Contents() == MergeSort(old(l.Contents()), less)
    ensures Sorted(l.Contents(), less) && Stable(old(l.Contents()), l.Contents(), less)
  {
    ghost var s := l.Contents();
    MergeSortCorrect(s, less);
    while true
      invariant l.Valid() && StrictWeak(Elems(l.Contents()), less)
      invariant MergeSort(l.Contents(), less) == MergeSort(s, less)
      decreases Runs(l.Contents(), less)
    {
      ghost var t := l.Contents();
      PassShrinks(t, Elems(t), less);
      PassElems(t, less);
      var outputRunCnt := SortPass(l, less);
      if outputRunCnt <= 1 {
        break;
      }
    }
  }

  /** list_insert_ordered() */
  method InsertOrdered(l: List, elem: Elem, less: (Elem, Elem) -> bool)
    requires l.Valid() && elem !in l.nodes
    modifies l, l.repr, elem
    ensures l.Valid() && l.Contents() == ListSpec.InsertOrdered(old(l.Contents()), elem, less)
  {
    ghost var k;
    var e;
    e, k := FindPlace(l, elem, less);
    InsertAt(l, k, e, elem);
  }

  /** list_insert() in terms of the contents */
  method InsertAt(ghost l: List, ghost k: nat, before: Elem, elem: Elem)
    requires l.Valid() && k <= |l.Contents()| && l.nodes[k + 1] == before && elem !in l.nodes
    modifies l, l.repr, elem
    ensures l.Valid() && l.Contents() == old(l.Contents()[..k] + [elem] + l.Contents()[k..])
  {
    InsertedContents(l.nodes, k, elem);
    Insert(l, k + 1, before, elem);
  }

  /** An element put in among the nodes, and among the contents */
  lemma InsertedContents<T>(ns: seq<T>, k: nat, x: T)
    requires k + 1 < |ns|
    ensures var s, ms := ns[1..|ns| - 1], ns[..k + 1] + [x] + ns[k + 1..];
            |ms| == |ns| + 1 && ms[1..|ms| - 1] == s[..k] + [x] + s[k..]
  {
    var s, ms := ns[1..|ns| - 1], ns[..k + 1] + [x] + ns[k + 1..];
    assert ms[1..|ms| - 1] == ns[1..k + 1] + [x] + ns[k + 1..|ns| - 1];
    assert s[..k] == ns[1..k + 1] && s[k..] == ns[k + 1..|ns| - 1];
  }

  /** The loop of list_insert_ordered() */
  method FindPlace(l: List, elem: Elem, less: (Elem, Elem) -> bool) returns (e: Elem, ghost k: nat)
    requires l.Valid()
    ensures k == InsertIndex(l.Contents(), elem, less) && k + 1 < |l.nodes| && e == l.nodes[k + 1]
  {
    ghost var ns, s := l.nodes, l.Contents();
    k := 0;
    e := Begin(l);
    while e != l.tail && !less(elem, e)
      invariant 0 <= k <= |s| && e == ns[k + 1]
      invariant InsertIndex(s, elem, less) == k + InsertIndex(s[k..], elem, less)
      decreases |s| - k
    {
      e, k := e.next, k + 1;
    }
  }
}
