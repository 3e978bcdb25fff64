/** hash.c: what the buckets of a hash table hold, for any hash that respects the comparison. */
module HashSpec {
  import opened Bits

  /* ----- Powers of two ----- */

  /** turn_off_least_1bit() */
  function TurnOffLeast1Bit(x: nat): (r: nat)
    requires x > 0
    ensures r < x
  {
    AndBound(x - 1, x);
    AndSwap(x, x - 1);
    And(x, x - 1)
  }

  /** is_power_of_2() */
  predicate IsPowerOf2(x: nat)
  {
    x != 0 && TurnOffLeast1Bit(x) == 0
  }

  lemma {:induction false} AndSwap(x: nat, y: nat)
    ensures And(x, y) == And(y, x)
  {
    if x == 0 {
      AndZero(y);
    } else if y == 0 {
      AndZero(x);
    } else {
      AndSwap(x / 2, y / 2);
    }
  }

  lemma {:induction false} AndZero(x: nat)
    ensures And(x, 0) == 0
  {
    if x != 0 { AndZero(x / 2); }
  }

  lemma {:induction false} AndSelf(x: nat)
    ensures And(x, x) == x
  {
    if x != 0 { AndSelf(x / 2); }
  }

  /** Turning off the lowest set bit leaves the highest in place, unless they are the same. */
  lemma {:induction false} TopBitStays(x: nat, k: nat)
    requires Pow2(k) <= x < Pow2(k + 1)
    ensures And(x, x - 1) == 0 <==> x == Pow2(k)
    ensures x != Pow2(k) ==> Pow2(k) <= And(x, x - 1)
  {
    if k == 0 {
      assert x == 1;
    } else {
      var a := x / 2;
      if x == 2 * a + 1 {
        AndDigits(a, a, 1, 0);
        AndSelf(a);
      } else {
        TopBitStays(a, k - 1);
        AndDigits(a, a - 1, 0, 1);
      }
    }
  }

  /** The most buckets wanted for `n` elements: the largest power of two that is at most n / 2, or 4 */
  ghost predicate BestCnt(n: nat, cnt: nat, k: nat)
  {
    cnt == Pow2(k) && k >= 2 && n < 4 * cnt && (cnt == 4 || 2 * cnt <= n)
  }

  /** The loop of rehash() that computes the new bucket count */
  method NewBucketCnt(elemCnt: nat) returns (cnt: nat, ghost k: nat)
    ensures BestCnt(elemCnt, cnt, k)
  {
    cnt := elemCnt / 2;
    if cnt < 4 {
      cnt := 4;
    }
    ghost var start := cnt;
    k := TopBit(cnt);
    assert Pow2(2) == 4;
    TopBitAtLeast(cnt, k);
    while !IsPowerOf2(cnt)
      invariant Pow2(k) <= cnt <= start < Pow2(k + 1)
      decreases cnt
    {
      TopBitStays(cnt, k);
      cnt := TurnOffLeast1Bit(cnt);
    }
    TopBitStays(cnt, k);
  }

  ghost function TopBit(x: nat): (k: nat)
    requires x > 0
    ensures Pow2(k) <= x < Pow2(k + 1)
  {
    if x == 1 then 0 else TopBit(x / 2) + 1
  }

  lemma SmallPow2(k: nat)
    requires k < 2
    ensures Pow2(k + 1) <= 4
  {
    assert Pow2(k + 1) == 2 * Pow2(k);
  }

  lemma TopBitAtLeast(x: nat, k: nat)
    requires 4 <= x < Pow2(k + 1)
    ensures k >= 2
  {
    if k < 2 { SmallPow2(k); }
  }

  /* ----- Buckets ----- */

  /** What hash_less_func and hash_hash_func must satisfy: being neither less nor greater is an
      equivalence, and equivalent elements have the same hash. */
  ghost predicate Lawful<T(!new)>(hash: T -> nat, less: (T, T) -> bool)
  {
    && (forall a :: Same(less, a, a))
    && (forall a, b, c | Same(less, a, b) && Same(less, b, c) :: Same(less, a, c))
    && (forall a, b | Same(less, a, b) :: hash(a) == hash(b))
  }

  predicate Same<T>(less: (T, T) -> bool, a: T, b: T)
  {
    !less(a, b) && !less(b, a)
  }

  lemma {:induction false} AndLow(x: nat, k: nat)
    ensures And(x, Pow2(k) - 1) == x % Pow2(k)
  {
    if k == 0 {
      AndZero(x);
    } else {
      AndLow(x / 2, k - 1);
      AndDigits(x / 2, Pow2(k - 1) - 1, x % 2, 1);
      LowDigit(x, Pow2(k - 1));
    }
  }

  lemma LowDigit(x: nat, p: nat)
    requires p > 0
    ensures x % (2 * p) == 2 * (x / 2 % p) + x % 2
  {
    var q := x / 2 / p;
    assert x / 2 == q * p + x / 2 % p;
    assert x == q * (2 * p) + (2 * (x / 2 % p) + x % 2);
    Remainder(q, 2 * p, 2 * (x / 2 % p) + x % 2, x);
  }

  lemma Remainder(q: nat, p: nat, r: nat, x: nat)
    requires r < p && x == q * p + r
    ensures x % p == r
  {
    if x / p < q { NextMultiple(x / p, q, p); }
    if q < x / p { NextMultiple(q, x / p, p); }
  }

  lemma NextMultiple(a: nat, b: nat, p: nat)
    requires a < b
    ensures a * p + p <= b * p
  {
    assert (b - a - 1) * p >= 0;
  }

  /** With a power of two of buckets, the bucket is the remainder of the hash. */
  lemma BucketIsRemainder<T>(hash: T -> nat, cnt: nat, k: nat, e: T)
    requires cnt == Pow2(k)
    ensures BucketIdx(hash, cnt, e) == hash(e) % cnt
  {
    AndLow(hash(e), k);
  }

  /** find_bucket() */
  function BucketIdx<T>(hash: T -> nat, cnt: nat, e: T): (i: nat)
    requires cnt > 0
    ensures i < cnt
  {
    AndBound(cnt - 1, hash(e));
    AndSwap(hash(e), cnt - 1);
    And(hash(e), cnt - 1)
  }

  /** The buckets hold the elements of `elems`, each in the bucket of its hash, no two the same. */
  ghost predicate TableOk<T(!new)>(hash: T -> nat, less: (T, T) -> bool, buckets: seq<seq<T>>, elems: set<T>)
  {
    && |buckets| > 0
    && (forall i, e | 0 <= i < |buckets| && e in buckets[i] :: e in elems && BucketIdx(hash, |buckets|, e) == i)
    && (forall e | e in elems :: e in buckets[BucketIdx(hash, |buckets|, e)])
    && (forall i | 0 <= i < |buckets| :: NoneSame(less, buckets[i]))
  }

  ghost predicate NoneSame<T>(less: (T, T) -> bool, b: seq<T>)
  {
    forall x, y | 0 <= x < y < |b| :: !Same(less, b[x], b[y])
  }

  /** No two elements of the table are the same. */
  lemma ElemsDiffer<T(!new)>(hash: T -> nat, less: (T, T) -> bool, buckets: seq<seq<T>>, elems: set<T>, a: T, b: T)
    requires Lawful(hash, less) && TableOk(hash, less, buckets, elems) && a in elems && b in elems && Same(less, a, b)
    ensures a == b
  {
    var i := BucketIdx(hash, |buckets|, a);
    assert BucketIdx(hash, |buckets|, b) == i;
    var x :| 0 <= x < |buckets[i]| && buckets[i][x] == a;
    var y :| 0 <= y < |buckets[i]| && buckets[i][y] == b;
    assert NoneSame(less, buckets[i]);
  }

  /** Pushing an element that is like none in the table */
  lemma PushKeeps<T(!new)>(hash: T -> nat, less: (T, T) -> bool, buckets: seq<seq<T>>, elems: set<T>, e: T)
    requires Lawful(hash, less) && TableOk(hash, less, buckets, elems) && forall x | x in elems :: !Same(less, x, e)
    ensures var i := BucketIdx(hash, |buckets|, e);
            TableOk(hash, less, buckets[i := [e] + buckets[i]], elems + {e}) && e !in elems
  {
    var i := BucketIdx(hash, |buckets|, e);
    var buckets' := buckets[i := [e] + buckets[i]];
    assert Same(less, e, e);
    forall j | 0 <= j < |buckets'|
      ensures NoneSame(less, buckets'[j])
    {
      assert NoneSame(less, buckets[j]);
      assert forall y | 0 <= y < |buckets[j]| :: buckets[j][y] in elems;
    }
  }

  function Without<T(==)>(b: seq<T>, k: nat): (r: seq<T>)
    requires k < |b|
    ensures |r| == |b| - 1
  {
    b[..k] + b[k + 1..]
  }

  /** Removing the element at place `k` of bucket `i` */
  lemma RemoveKeeps<T(!new)>(hash: T -> nat, less: (T, T) -> bool, buckets: seq<seq<T>>, elems: set<T>, i: nat, k: nat)
    requires Lawful(hash, less) && TableOk(hash, less, buckets, elems) && i < |buckets| && k < |buckets[i]|
    ensures TableOk(hash, less, buckets[i := Without(buckets[i], k)], elems - {buckets[i][k]}) && buckets[i][k] in elems
  {
    var b, e := buckets[i], buckets[i][k];
    var r := Without(b, k);
    var buckets' := buckets[i := r];
    assert NoneSame(less, b) && Same(less, e, e);
    assert e in b && e in elems && BucketIdx(hash, |buckets|, e) == i;
    forall x ensures x in r <==> x in b && x != e { WithoutElems(less, b, k, x); }
    forall x, y | 0 <= x < y < |r| ensures !Same(less, r[x], r[y]) { assert r[x] == b[if x < k then x else x + 1] && r[y] == b[if y < k then y else y + 1]; }
    forall j, x | 0 <= j < |buckets'| && x in buckets'[j]
      ensures x in elems - {e} && BucketIdx(hash, |buckets'|, x) == j
    {
      assert x in buckets[j];
    }
    forall x | x in elems - {e}
      ensures x in buckets'[BucketIdx(hash, |buckets'|, x)]
    {
      assert x in buckets[BucketIdx(hash, |buckets|, x)];
    }
    forall j | 0 <= j < |buckets'|
      ensures NoneSame(less, buckets'[j])
    {
      assert NoneSame(less, buckets[j]);
    }
  }

  lemma WithoutElems<T>(less: (T, T) -> bool, b: seq<T>, k: nat, x: T)
    requires k < |b| && NoneSame(less, b) && Same(less, b[k], b[k])
    ensures x in Without(b, k) <==> x in b && x != b[k]
  {
    var r := Without(b, k);
    forall y | 0 <= y < |r|
      ensures r[y] in b && r[y] != b[k]
    {
      assert r[y] == b[if y < k then y else y + 1];
    }
    forall y | 0 <= y < |b| && y != k
      ensures b[y] in r
    {
      assert r[if y < k then y else y - 1] == b[y];
    }
  }
}
