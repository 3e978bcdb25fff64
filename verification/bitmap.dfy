/** bitmap.c: an array of 32-bit words that stands for a sequence of bits. */
module Bitmaps {
  import opened Bits

  const ELEM_BITS := 32

  ghost predicate Words(words: seq<nat>)
  {
    forall e | 0 <= e < |words| :: words[e] < Pow2(ELEM_BITS)
  }

  /* ----- The bits of an array of words ----- */

  /** elem_cnt() */
  function ElemCnt(bitCnt: nat): (n: nat)
    ensures n * ELEM_BITS >= bitCnt
    ensures n > 0 ==> (n - 1) * ELEM_BITS < bitCnt
  {
    (bitCnt + ELEM_BITS - 1) / ELEM_BITS
  }

  /** The bits an array of words holds, the least significant bit of each word first. */
  ghost function Unpack(words: seq<nat>, n: nat): (bits: seq<bool>)
    requires |words| == ElemCnt(n)
    ensures |bits| == n
  {
    seq(n, i requires 0 <= i < n => Bit(words[i / ELEM_BITS], i % ELEM_BITS))
  }

  /** Changing one word in one of its bits changes that bit of the whole. */
  lemma UnpackUpdate(words: seq<nat>, n: nat, i: nat, w: nat, v: bool)
    requires |words| == ElemCnt(n) && i < n
    requires forall j: nat | j < ELEM_BITS ::
               Bit(w, j) == if j == i % ELEM_BITS then v else Bit(words[i / ELEM_BITS], j)
    ensures Unpack(words[i / ELEM_BITS := w], n) == Unpack(words, n)[i := v]
  {
    var words' := words[i / ELEM_BITS := w];
    forall k | 0 <= k < n
      ensures Unpack(words', n)[k] == Unpack(words, n)[i := v][k]
    {
      assert k / ELEM_BITS == i / ELEM_BITS && k % ELEM_BITS == i % ELEM_BITS ==> k == i;
    }
  }

  lemma SetInWord(w: nat, k: nat, j: nat)
    ensures Bit(Or(w, Pow2(k)), j) == (j == k || Bit(w, j))
  {
    BitOr(w, Pow2(k), j);
    BitPow2(k, j);
  }

  lemma ClearInWord(w: nat, k: nat, j: nat)
    requires j < ELEM_BITS && Pow2(k) < Pow2(ELEM_BITS)
    ensures Bit(And(w, Not(Pow2(k), ELEM_BITS)), j) == (j != k && Bit(w, j))
  {
    BitAnd(w, Not(Pow2(k), ELEM_BITS), j);
    BitNot(Pow2(k), ELEM_BITS, j);
    BitPow2(k, j);
  }

  lemma FlipInWord(w: nat, k: nat, j: nat)
    ensures Bit(Xor(w, Pow2(k)), j) == (if j == k then !Bit(w, j) else Bit(w, j))
  {
    BitXor(w, Pow2(k), j);
    BitPow2(k, j);
  }

  /* ----- Operations on bit sequences ----- */

  /** The `cnt` bits from `start` are all `v`. */
  predicate Uniform(s: seq<bool>, start: nat, cnt: nat, v: bool)
  {
    start + cnt <= |s| && forall k | start <= k < start + cnt :: s[k] == v
  }

  /** The bits of `s` with the `cnt` ones from `start` set to `v`. */
  function Fill(s: seq<bool>, start: nat, cnt: nat, v: bool): (r: seq<bool>)
    requires start + cnt <= |s|
    ensures |r| == |s|
    ensures forall k | 0 <= k < |s| :: r[k] == if start <= k < start + cnt then v else s[k]
  {
    s[..start] + seq(cnt, _ => v) + s[start + cnt..]
  }

  /** What bitmap_scan() returns; BITMAP_ERROR is NotFound. */
  datatype Found = NotFound | At(index: nat)

  /** `r` is the first place at or after `start` where `cnt` bits are all `v`. */
  ghost predicate FirstUniform(s: seq<bool>, start: nat, cnt: nat, v: bool, r: Found)
  {
    match r
    case At(i) => start <= i && Uniform(s, i, cnt, v) && forall j | start <= j < i :: !Uniform(s, j, cnt, v)
    case NotFound => forall j: nat | start <= j :: !Uniform(s, j, cnt, v)
  }

  lemma FirstUniformUnique(s: seq<bool>, start: nat, cnt: nat, v: bool, r: Found, r': Found)
    requires FirstUniform(s, start, cnt, v, r) && FirstUniform(s, start, cnt, v, r')
    ensures r == r'
  {
    match (r, r')
    case (At(i), At(i')) =>
      assert i < i' ==> !Uniform(s, i, cnt, v);
      assert i' < i ==> !Uniform(s, i', cnt, v);
    case _ =>
  }

  /* ----- Runs of bits ----- */

  predicate InRun(n: nat, first: nat, cnt: nat)
  {
    first <= n < first + cnt
  }

  function Run(first: nat, cnt: nat): (s: set<nat>)
  {
    set n: nat | first <= n < first + cnt && InRun(n, first, cnt)
  }

  lemma {:induction false} RunCount(first: nat, cnt: nat)
    ensures |Run(first, cnt)| == cnt
  {
    if cnt != 0 {
      RunCount(first, cnt - 1);
      assert Run(first, cnt) == Run(first, cnt - 1) + {first + cnt - 1};
    }
  }

  /** The first run of `cnt` clear bits at or after bit `i` */
  function ScanFrom(used: seq<bool>, i: nat, cnt: nat): (r: Found)
    ensures FirstUniform(used, i, cnt, false, r)
    decreases |used| - i
  {
    if i + cnt > |used| then NotFound
    else if forall k | i <= k < i + cnt :: !used[k] then At(i)
    else
      ScanFrom(used, i + 1, cnt)
  }

  lemma FillNext(s: seq<bool>, start: nat, i: nat, value: bool)
    requires start + i <= |s|
    ensures i == 0 ==> Fill(s, start, i, value) == s
    ensures start + i < |s| ==> Fill(s, start, i + 1, value) == Fill(s, start, i, value)[start + i := value]
  {
  }

  /** struct bitmap */
  class Bitmap {
    const bitCnt: nat
    const bits: array<nat>

    ghost predicate Valid()
      reads bits
    {
      bits.Length == ElemCnt(bitCnt) && Words(bits[..])
    }

    ghost function Contents(): (s: seq<bool>)
      requires Valid()
      reads bits
      ensures |s| == bitCnt
    {
      Unpack(bits[..], bitCnt)
    }

    /** bitmap_create() */
    constructor (n: nat)
      ensures Valid() && fresh(bits) && bitCnt == n
      ensures Contents() == seq(n, _ => false)
    {
      bitCnt := n;
      bits := new nat[ElemCnt(n)](_ => 0);
      new;
      assert forall i | 0 <= i < n :: !Bit(bits[i / ELEM_BITS], i % ELEM_BITS) by {
        forall k: nat { BitZero(k); }
      }
    }

    /** bitmap_test() */
    method Test(idx: nat) returns (r: bool)
      requires Valid() && idx < bitCnt
      ensures r == Contents()[idx]
    {
      r := And(bits[idx / ELEM_BITS], Pow2(idx % ELEM_BITS)) != 0;
      TestsBit(bits[idx / ELEM_BITS], idx % ELEM_BITS);
    }

    /** bitmap_mark() */
    method Mark(idx: nat)
      requires Valid() && idx < bitCnt
      modifies bits
      ensures Valid()
      ensures Contents() == old(Contents())[idx := true]
    {
      var e, k := idx / ELEM_BITS, idx % ELEM_BITS;
      ghost var words := bits[..];
      Pow2Grows(k, ELEM_BITS);
      OrBound(bits[e], Pow2(k), ELEM_BITS);
      bits[e] := Or(bits[e], Pow2(k));
      forall j: nat | j < ELEM_BITS { SetInWord(words[e], k, j); }
      UnpackUpdate(words, bitCnt, idx, bits[e], true);
      assert bits[..] == words[e := bits[e]];
    }

    /** bitmap_reset() */
    method Reset(idx: nat)
      requires Valid() && idx < bitCnt
      modifies bits
      ensures Valid()
      ensures Contents() == old(Contents())[idx := false]
    {
      var e, k := idx / ELEM_BITS, idx % ELEM_BITS;
      ghost var words := bits[..];
      Pow2Grows(k, ELEM_BITS);
      AndBound(bits[e], Not(Pow2(k), ELEM_BITS));
      bits[e] := And(bits[e], Not(Pow2(k), ELEM_BITS));
      forall j: nat | j < ELEM_BITS { ClearInWord(words[e], k, j); }
      UnpackUpdate(words, bitCnt, idx, bits[e], false);
      assert bits[..] == words[e := bits[e]];
    }

    /** bitmap_flip() */
    method Flip(idx: nat)
      requires Valid() && idx < bitCnt
      modifies bits
      ensures Valid()
      ensures Contents() == old(Contents())[idx := !old(Contents())[idx]]
    {
      var e, k := idx / ELEM_BITS, idx % ELEM_BITS;
      ghost var words := bits[..];
      Pow2Grows(k, ELEM_BITS);
      OrBound(bits[e], Pow2(k), ELEM_BITS);
      bits[e] := Xor(bits[e], Pow2(k));
      forall j: nat | j < ELEM_BITS { FlipInWord(words[e], k, j); }
      UnpackUpdate(words, bitCnt, idx, bits[e], !Bit(words[e], k));
      assert bits[..] == words[e := bits[e]];
    }

    /** bitmap_set() */
    method Set(idx: nat, value: bool)
      requires Valid() && idx < bitCnt
      modifies bits
      ensures Valid()
      ensures Contents() == old(Contents())[idx := value]
    {
      if value {
        Mark(idx);
      } else {
        Reset(idx);
      }
    }

    /** bitmap_set_multiple() */
    method SetMultiple(start: nat, cnt: nat, value: bool)
      requires Valid() && start + cnt <= bitCnt
      modifies bits
      ensures Valid()
      ensures Contents() == Fill(old(Contents()), start, cnt, value)
    {
      ghost var s := Contents();
      FillNext(s, start, 0, value);
      for i := 0 to cnt
        invariant Valid() && Contents() == Fill(s, start, i, value)
      {
        FillNext(s, start, i, value);
        Set(start + i, value);
      }
    }

    /** bitmap_contains() */
    method Contains(start: nat, cnt: nat, value: bool) returns (r: bool)
      requires Valid() && start + cnt <= bitCnt
      ensures r == !Uniform(Contents(), start, cnt, !value)
    {
      for i := 0 to cnt
        invariant Uniform(Contents(), start, i, !value)
      {
        var bit := Test(start + i);
        if bit == value {
          return true;
        }
      }
      return false;
    }

    /** bitmap_scan() */
    method Scan(start: nat, cnt: nat, value: bool) returns (r: Found)
      requires Valid() && start <= bitCnt
      ensures FirstUniform(Contents(), start, cnt, value, r)
    {
      if cnt <= bitCnt {
        var last := bitCnt - cnt;
        var i := start;
        while i <= last
          invariant start <= i
          invariant forall j | start <= j < i :: !Uniform(Contents(), j, cnt, value)
          decreases last + 1 - i
        {
          var other := Contains(i, cnt, !value);
          if !other {
            return At(i);
          }
          i := i + 1;
        }
      }
      return NotFound;
    }

    /** bitmap_scan_and_flip() */
    method ScanAndFlip(start: nat, cnt: nat, value: bool) returns (r: Found)
      requires Valid() && start <= bitCnt
      modifies bits
      ensures Valid()
      ensures FirstUniform(old(Contents()), start, cnt, value, r)
      ensures Contents() == if r.At? then Fill(old(Contents()), r.index, cnt, !value) else old(Contents())
    {
      r := Scan(start, cnt, value);
      if r.At? {
        SetMultiple(r.index, cnt, !value);
      }
    }
  }
}
