/** hash.c in place: buckets, count, resizing and iteration, against a set of elements. */
module HashTables {
  import opened Bits
  import opened HashSpec

  datatype Option<T> = None | Some(value: T)

  /** The elements in the order an iterator yields them */
  function Chain<T>(buckets: seq<seq<T>>): (s: seq<T>)
  {
    if buckets == [] then [] else buckets[0] + Chain(buckets[1..])
  }

  lemma {:induction false} InChain<T>(buckets: seq<seq<T>>, e: T)
    ensures e in Chain(buckets) <==> exists i :: 0 <= i < |buckets| && e in buckets[i]
  {
    if buckets == [] {
    } else {
      InChain(buckets[1..], e);
      if i :| 0 <= i < |buckets| && e in buckets[i] {
        assert i > 0 ==> e in buckets[1..][i - 1];
      }
    }
  }

  ghost predicate Distinct<T>(s: seq<T>)
  {
    forall x, y | 0 <= x < y < |s| :: s[x] != s[y]
  }

  /** Iteration yields each element of the table exactly once. */
  lemma ChainOfTable<T(!new)>(hash: T -> nat, less: (T, T) -> bool, buckets: seq<seq<T>>, elems: set<T>)
    requires Lawful(hash, less) && TableOk(hash, less, buckets, elems)
    ensures Distinct(Chain(buckets)) && forall e :: e in Chain(buckets) <==> e in elems
  {
    forall e
      ensures e in Chain(buckets) <==> e in elems
    {
      InChain(buckets, e);
    }
    forall i | 0 <= i < |buckets|
      ensures Distinct(buckets[i])
    {
      assert NoneSame(less, buckets[i]);
      assert forall x | 0 <= x < |buckets[i]| :: Same(less, buckets[i][x], buckets[i][x]);
    }
    forall i, j, e | 0 <= i < |buckets| && 0 <= j < |buckets| && e in buckets[i] && e in buckets[j]
      ensures i == j
    {
      assert BucketIdx(hash, |buckets|, e) == i;
    }
    ChainDistinct(buckets);
  }

  lemma {:induction false} ChainDistinct<T>(buckets: seq<seq<T>>)
    requires forall i | 0 <= i < |buckets| :: Distinct(buckets[i])
    requires forall i, j, e | 0 <= i < |buckets| && 0 <= j < |buckets| && e in buckets[i] && e in buckets[j] :: i == j
    ensures Distinct(Chain(buckets))
  {
    if buckets != [] {
      var rest := buckets[1..];
      assert forall i, e | 0 <= i < |rest| && e in rest[i] :: e in buckets[i + 1];
      ChainDistinct(rest);
      forall e | e in buckets[0] ensures e !in Chain(rest) { InChain(rest, e); }
      var s := Chain(buckets);
      forall x, y | 0 <= x < y < |s|
        ensures s[x] != s[y]
      {
        var n := |buckets[0]|;
        if x < n <= y { assert s[x] in buckets[0] && s[y] in Chain(rest); }
      }
    }
  }

  class HashTable<T(==, !new)> {
    const hash: T -> nat
    const less: (T, T) -> bool
    var buckets: seq<seq<T>>
    var elemCnt: nat
    ghost var elems: set<T>
    ghost var log: nat

    ghost predicate Valid()
      reads this
    {
      && Lawful(hash, less) && TableOk(hash, less, buckets, elems)
      && elemCnt == |elems| && |buckets| == Pow2(log) && log >= 2
    }

    /** hash_init(), given memory */
    constructor (hash: T -> nat, less: (T, T) -> bool)
      requires Lawful(hash, less)
      ensures Valid() && elems == {} && this.hash == hash && this.less == less
    {
      this.hash := hash;
      this.less := less;
      buckets := seq(4, _ => []);
      elemCnt := 0;
      elems := {};
      log := 2;
      assert Pow2(2) == 4;
    }

    /** find_elem(): the place in bucket `i` of an element like `e` */
    method FindElem(i: nat, e: T) returns (r: Option<nat>)
      requires Valid() && i < |buckets|
      ensures match r
              case Some(k) => k < |buckets[i]| && Same(less, buckets[i][k], e)
              case None => forall x | x in buckets[i] :: !Same(less, x, e)
    {
      for k := 0 to |buckets[i]|
        invariant forall x | x in buckets[i][..k] :: !Same(less, x, e)
      {
        if !less(buckets[i][k], e) && !less(e, buckets[i][k]) {
          return Some(k);
        }
      }
      assert buckets[i][..|buckets[i]|] == buckets[i];
      return None;
    }

    lemma SameBucket(e: T)
      requires Valid()
      ensures forall x | x in elems && Same(less, x, e) :: x in buckets[BucketIdx(hash, |buckets|, e)]
    {
    }

    /** find_bucket() and find_elem() together */
    method Locate(e: T) returns (i: nat, k: Option<nat>)
      requires Valid()
      ensures i == BucketIdx(hash, |buckets|, e) < |buckets|
      ensures match k
              case Some(j) => j < |buckets[i]| && buckets[i][j] in elems && Same(less, buckets[i][j], e)
              case None => forall x | x in elems :: !Same(less, x, e)
    {
      i := BucketIdx(hash, |buckets|, e);
      k := FindElem(i, e);
      SameBucket(e);
    }

    /** hash_find() */
    method Find(e: T) returns (r: Option<T>)
      requires Valid()
      ensures match r
              case Some(x) => x in elems && Same(less, x, e)
              case None => forall x | x in elems :: !Same(less, x, e)
    {
      var i, k := Locate(e);
      match k {
        case Some(j) => r := Some(buckets[i][j]);
        case None => r := None;
      }
    }

    /** hash_insert(), given whether rehash() can get memory */
    method Insert(e: T, memory: bool) returns (prior: Option<T>)
      requires Valid()
      modifies this
      ensures Valid()
      ensures match prior
              case Some(x) => x in old(elems) && Same(less, x, e) && elems == old(elems)
              case None => elems == old(elems) + {e} && forall x | x in old(elems) :: !Same(less, x, e)
      ensures memory ==> BestCnt(elemCnt, |buckets|, log)
    {
      var i, k := Locate(e);
      match k {
        case Some(j) => prior := Some(buckets[i][j]);
        case None =>
          prior := None;
          InsertElem(i, e);
      }
      Rehash(memory);
    }

    /** hash_replace() */
    method Replace(e: T, memory: bool) returns (prior: Option<T>)
      requires Valid()
      modifies this
      ensures Valid()
      ensures match prior
              case Some(x) => x in old(elems) && Same(less, x, e) && elems == old(elems) - {x} + {e}
              case None => elems == old(elems) + {e} && forall x | x in old(elems) :: !Same(less, x, e)
      ensures memory ==> BestCnt(elemCnt, |buckets|, log)
    {
      var i, k := Locate(e);
      match k {
        case Some(j) =>
          prior := Some(buckets[i][j]);
          OthersDiffer(buckets[i][j], e);
          RemoveElem(i, j);
        case None => prior := None;
      }
      InsertElem(i, e);
      Rehash(memory);
    }

    /** hash_delete() */
    method Delete(e: T, memory: bool) returns (found: Option<T>)
      requires Valid()
      modifies this
      ensures Valid()
      ensures match found
              case Some(x) => x in old(elems) && Same(less, x, e) && elems == old(elems) - {x}
              case None => elems == old(elems) && forall x | x in old(elems) :: !Same(less, x, e)
      ensures memory && found.Some? ==> BestCnt(elemCnt, |buckets|, log)
    {
      var i, k := Locate(e);
      match k {
        case Some(j) =>
          found := Some(buckets[i][j]);
          RemoveElem(i, j);
        case None => found := None;
      }
      if found.Some? {
        Rehash(memory);
      }
    }

    /** Elements other than the one like `e` are not like it. */
    lemma OthersDiffer(x: T, e: T)
      requires Valid() && x in elems && Same(less, x, e)
      ensures forall y | y in elems - {x} :: !Same(less, y, e)
    {
      forall y | y in elems - {x}
        ensures !Same(less, y, e)
      {
        if Same(less, y, e) {
          assert Same(less, e, x) && Same(less, y, x);
          ElemsDiffer(hash, less, buckets, elems, y, x);
        }
      }
    }

    /** insert_elem() */
    method InsertElem(i: nat, e: T)
      requires Valid() && i == BucketIdx(hash, |buckets|, e) && forall x | x in elems :: !Same(less, x, e)
      modifies this
      ensures Valid() && elems == old(elems) + {e} && log == old(log)
    {
      PushKeeps(hash, less, buckets, elems, e);
      elemCnt := elemCnt + 1;
      buckets := buckets[i := [e] + buckets[i]];
      elems := elems + {e};
    }

    /** remove_elem() */
    method RemoveElem(i: nat, k: nat)
      requires Valid() && i < |buckets| && k < |buckets[i]|
      modifies this
      ensures Valid() && elems == old(elems) - {old(buckets)[i][k]} && |buckets| == |old(buckets)|
    {
      RemoveKeeps(hash, less, buckets, elems, i, k);
      elemCnt := elemCnt - 1;
      elems := elems - {buckets[i][k]};
      buckets := buckets[i := HashSpec.Without(buckets[i], k)];
    }

    /** rehash() */
    method Rehash(memory: bool)
      requires Valid()
      modifies this
      ensures Valid() && elems == old(elems)
      ensures memory ==> BestCnt(elemCnt, |buckets|, log)
    {
      ghost var k;
      var newCnt;
      newCnt, k := NewBucketCnt(elemCnt);
      if newCnt == |buckets| {
        Pow2Injective(k, log);
        return;
      }
      if !memory {
        return;
      }
      buckets := MoveAll(newCnt);
      log := k;
    }

    /** The loops of rehash() that move every element to its new bucket */
    method MoveAll(newCnt: nat) returns (r: seq<seq<T>>)
      requires Valid() && newCnt > 0
      ensures |r| == newCnt && TableOk(hash, less, r, elems)
    {
      r := seq(newCnt, _ => []);
      ghost var done: set<T> := {};
      for i := 0 to |buckets|
        invariant |r| == newCnt && TableOk(hash, less, r, done)
        invariant forall e :: e in done <==> exists j :: 0 <= j < i && e in buckets[j]
      {
        r, done := MoveBucket(i, r, done);
      }
      assert done == elems;
    }

    method MoveBucket(i: nat, r: seq<seq<T>>, ghost done: set<T>) returns (r': seq<seq<T>>, ghost done': set<T>)
      requires Valid() && i < |buckets| && TableOk(hash, less, r, done)
      requires forall e :: e in done <==> exists j :: 0 <= j < i && e in buckets[j]
      ensures |r'| == |r| && TableOk(hash, less, r', done')
      ensures forall e :: e in done' <==> e in done || e in buckets[i]
    {
      r', done' := r, done;
      for k := 0 to |buckets[i]|
        invariant |r'| == |r| && TableOk(hash, less, r', done')
        invariant forall e :: e in done' <==> e in done || e in buckets[i][..k]
      {
        var e := buckets[i][k];
        NotMovedYet(i, k, done, done');
        PushKeeps(hash, less, r', done', e);
        var b := BucketIdx(hash, |r'|, e);
        r' := r'[b := [e] + r'[b]];
        done' := done' + {e};
      }
    }

    lemma NotMovedYet(i: nat, k: nat, done: set<T>, done': set<T>)
      requires Valid() && i < |buckets| && k < |buckets[i]|
      requires forall e :: e in done <==> exists j :: 0 <= j < i && e in buckets[j]
      requires forall e :: e in done' <==> e in done || e in buckets[i][..k]
      ensures forall x | x in done' :: !Same(less, x, buckets[i][k])
    {
      var e := buckets[i][k];
      assert e in buckets[i] && BucketIdx(hash, |buckets|, e) == i && NoneSame(less, buckets[i]);
      forall x | x in done'
        ensures !Same(less, x, e)
      {
        if x in done {
          var j :| 0 <= j < i && x in buckets[j];
          assert BucketIdx(hash, |buckets|, x) == j;
        } else {
          var y :| 0 <= y < k && buckets[i][y] == x;
        }
      }
    }
  }

  lemma Pow2Injective(j: nat, k: nat)
    requires Pow2(j) == Pow2(k)
    ensures j == k
  {
    if j < k { Pow2Grows(j, k); }
    if k < j { Pow2Grows(k, j); }
  }

  /** struct hash_iterator: a cursor over a table that does not change meanwhile */
  class Cursor<T(==, !new)> {
    const table: HashTable<T>
    var bucket: nat
    var next: nat

    /** hash_first() */
    constructor (table: HashTable<T>)
      requires table.Valid()
      ensures this.table == table && Valid() && Left() == Chain(table.buckets)
    {
      this.table := table;
      bucket, next := 0, 0;
      new;
      assert table.buckets == [table.buckets[0]] + table.buckets[1..];
    }

    ghost predicate Valid()
      reads this, table
    {
      bucket <= |table.buckets| && (if bucket < |table.buckets| then next <= |table.buckets[bucket]| else next == 0)
    }

    /** What is still to come */
    ghost function Left(): (s: seq<T>)
      requires Valid()
      reads this, table
    {
      if bucket < |table.buckets| then table.buckets[bucket][next..] + Chain(table.buckets[bucket + 1..]) else []
    }

    /** hash_next() */
    method Next() returns (r: Option<T>)
      requires Valid()
      modifies this
      ensures Valid()
      ensures match r
              case Some(e) => old(Left()) == [e] + Left()
              case None => old(Left()) == [] && Left() == []
    {
      SkipEmpty();
      if bucket >= |table.buckets| {
        return None;
      }
      r := Some(table.buckets[bucket][next]);
      next := next + 1;
    }

    method SkipEmpty()
      requires Valid()
      modifies this
      ensures Valid() && Left() == old(Left())
      ensures bucket < |table.buckets| ==> next < |table.buckets[bucket]|
    {
      ghost var left := Left();
      while bucket < |table.buckets| && next == |table.buckets[bucket]|
        invariant Valid() && Left() == left
        decreases |table.buckets| - bucket
      {
        NextBucket(bucket, next);
        bucket, next := bucket + 1, 0;
      }
    }

    lemma NextBucket(b: nat, n: nat)
      requires b < |table.buckets| && n == |table.buckets[b]|
      ensures table.buckets[b][n..] + Chain(table.buckets[b + 1..]) == Chain(table.buckets[b + 1..])
      ensures b + 1 < |table.buckets| ==>
              Chain(table.buckets[b + 1..]) == table.buckets[b + 1][0..] + Chain(table.buckets[b + 2..])
    {
      if b + 1 < |table.buckets| {
        assert table.buckets[b + 1..][1..] == table.buckets[b + 2..];
      }
    }
  }
}
