/** arithmetic.c: 64-bit division built from the 64-by-32-bit `divl` instruction.
    Machine words are integers; what wraps in the source is reduced explicitly. */
module Arithmetic {
  import opened Bits

  const B31 := 0x8000_0000
  const B32 := 0x1_0000_0000
  const B62 := 0x4000_0000_0000_0000
  const B63 := 0x8000_0000_0000_0000
  const B64 := 0x1_0000_0000_0000_0000

  type Word32 = x: int | 0 <= x < B32
  type Word64 = x: int | 0 <= x < B64
  type Signed64 = x: int | -B63 <= x < B63

  /** The `divl` instruction, which traps unless the quotient fits in 32 bits. */
  function Divl(n: Word64, d: Word32): (q: Word32)
    requires d != 0 && n / d < B32
  {
    n / d
  }

  /* ----- nlz() ----- */

  /** The number of leading zero bits of a nonzero word. */
  function LeadingZeros(x: Word32): (n: nat)
    requires x != 0
    ensures n <= 31 && B31 <= x * Pow2(n) < B32
    decreases B32 - x
  {
    if x >= B31 then 0
    else
      var n := LeadingZeros(2 * x);
      ShiftOne(x, n);
      n + 1
  }

  lemma ShiftOne(x: int, n: nat)
    ensures x * Pow2(n + 1) == 2 * x * Pow2(n)
    ensures x > 0 && 2 * x * Pow2(n) < B32 && x >= 1 ==> n + 1 <= 31
  {
    Pow2Large(n);
    if x > 0 {
      assert x * Pow2(n + 1) >= Pow2(n + 1) by { MulLe(1, x, Pow2(n + 1)); }
    }
  }

  lemma MulLe(a: int, b: int, c: int)
    requires a <= b && c >= 0
    ensures a * c <= b * c
  {
  }

  lemma LessFromProducts(a: int, b: int, c: int)
    requires c > 0 && a * c < b * c
    ensures a < b
  {
    if a >= b { MulLe(b, a, c); }
  }

  lemma {:induction false} Pow2Large(n: nat)
    ensures n >= 31 ==> Pow2(n + 1) >= B32
  {
    if n > 31 {
      Pow2Large(n - 1);
    } else if n == 31 {
      Pow2Is32();
    }
  }

  lemma Pow2Is32()
    ensures Pow2(32) == B32
  {
    assert Pow2(4) == 16;
    assert Pow2(8) == 256;
    assert Pow2(12) == 4096;
    assert Pow2(16) == 65536;
    assert Pow2(20) == 0x10_0000;
    assert Pow2(24) == 0x100_0000;
    assert Pow2(28) == 0x1000_0000;
  }

  lemma {:induction false} Pow2Sum(a: nat, b: nat)
    ensures Pow2(a + b) == Pow2(a) * Pow2(b)
  {
    if a > 0 {
      Pow2Sum(a - 1, b);
      MulAssoc(2, Pow2(a - 1), Pow2(b));
    }
  }

  lemma MulAssoc(a: int, b: int, c: int)
    ensures (a * b) * c == a * (b * c)
  {
  }

  /** The shift that brings the top bit of `x` to bit 31 is unique. */
  lemma {:induction false} LeadingZerosUnique(x: Word32, n: nat)
    requires x != 0 && B31 <= x * Pow2(n) < B32
    ensures n == LeadingZeros(x)
    decreases n
  {
    if n == 0 {
    } else {
      ShiftOne(x, n - 1);
      assert Pow2(n - 1) >= 1;
      MulLe(1, Pow2(n - 1), 2 * x);
      LeadingZerosUnique(2 * x, n - 1);
    }
  }

  /** One step of nlz(): `x` has been shifted left by `n`, and now by `k` more. */
  lemma ShiftMore(x0: int, n: nat, k: nat)
    ensures x0 * Pow2(n + k) == x0 * Pow2(n) * Pow2(k)
  {
    Pow2Sum(n, k);
    MulAssoc(x0, Pow2(n), Pow2(k));
  }

  /** nlz() */
  method Nlz(x0: Word32) returns (n: nat)
    requires x0 != 0
    ensures n == LeadingZeros(x0)
  {
    var x := x0;
    n := 0;
    assert Pow2(1) == 2 && Pow2(2) == 4 && Pow2(4) == 16 && Pow2(8) == 256 && Pow2(12) == 4096 && Pow2(16) == 65536;
    if x <= 0x0000FFFF {
      ShiftMore(x0, n, 16);
      n, x := n + 16, x * 65536;
    }
    assert x == x0 * Pow2(n) && 0x1_0000 <= x < B32;
    if x <= 0x00FFFFFF {
      ShiftMore(x0, n, 8);
      n, x := n + 8, x * 256;
    }
    assert x == x0 * Pow2(n) && 0x100_0000 <= x < B32;
    if x <= 0x0FFFFFFF {
      ShiftMore(x0, n, 4);
      n, x := n + 4, x * 16;
    }
    assert x == x0 * Pow2(n) && 0x1000_0000 <= x < B32;
    if x <= 0x3FFFFFFF {
      ShiftMore(x0, n, 2);
      n, x := n + 2, x * 4;
    }
    assert x == x0 * Pow2(n) && 0x4000_0000 <= x < B32;
    if x <= 0x7FFFFFFF {
      ShiftMore(x0, n, 1);
      n := n + 1;
    }
    LeadingZerosUnique(x0, n);
  }

  /* Facts about division that the solver does not find by itself. */

  /** `q` is the quotient of `n` by `d`. */
  lemma QuotientIs(n: int, d: int, q: int)
    requires d > 0 && q * d <= n < (q + 1) * d
    ensures n / d == q
  {
    var r := n - q * d;
    assert n == q * d + r && 0 <= r < d;
    DivUnique(n, d, q, r);
  }

  lemma DivUnique(n: int, d: int, q: int, r: int)
    requires d > 0 && n == q * d + r && 0 <= r < d
    ensures n / d == q && n % d == r
  {
    var q', r' := n / d, n % d;
    assert n == q' * d + r' && 0 <= r' < d;
    assert (q - q') * d == r' - r;
    if q - q' >= 1 { MulLe(1, q - q', d); }
    if q - q' <= -1 { MulLe(q - q', -1, d); }
  }

  lemma DivBounds(n: int, d: int)
    requires d > 0
    ensures n / d * d <= n < (n / d + 1) * d
  {
    assert n == n / d * d + n % d;
  }

  /** Dividing in two steps. */
  lemma DivTwice(n: int, a: int, b: int)
    requires a > 0 && b > 0
    ensures a * b > 0 && n / a / b == n / (a * b)
  {
    var x := n / a;
    var y := x / b;
    DivBounds(n, a);
    DivBounds(x, b);
    // y * b <= x <= (y + 1) * b - 1, and x * a <= n <= x * a + a - 1
    MulLe(y * b, x, a);
    MulLe(x, (y + 1) * b - 1, a);
    MulAssoc(y, b, a);
    MulAssoc(y + 1, b, a);
    MulLe(1, a, b);
    QuotientIs(n, a * b, y);
  }

  lemma DivLess(n: int, d: int, k: int)
    requires d > 0 && n < k * d
    ensures n / d < k
  {
    DivBounds(n, d);
    if n / d >= k { MulLe(k, n / d, d); }
  }

  lemma DivAtLeast(n: int, d: int, k: int)
    requires d > 0 && k * d <= n
    ensures n / d >= k
  {
    DivBounds(n, d);
    if n / d <= k - 1 { MulLe(n / d + 1, k, d); }
  }

  /* ----- udiv64(): the divisor fits in 32 bits ----- */

  lemma ShortFits(n1: int, n0: int, d: int)
    requires 0 < d < B32 && 0 <= n0 < B32
    ensures var m := B32 * (n1 % d) + n0;
            0 <= m < B64 && m / d < B32
  {
    var r := n1 % d;
    MulLe(r, d - 1, B32);
    DivLess(B32 * r + n0, d, B32);
  }

  /* ----- udiv64(): the divisor is longer ----- */

  /** Shifting `d` left by its leading zeros loses no bit.  `p` is 2^s and `k` 2^(32-s). */
  lemma ShiftFits(d: int, d1: int, p: int, k: int)
    requires p >= 1 && k >= 1 && p * k == B32 && d1 * p < B32 && d < (d1 + 1) * B32
    ensures d < k * B32 && d * p < B64
  {
    assert d1 < k by { if d1 >= k { MulLe(k, d1, p); } }
    MulLe(d1 + 1, k, B32);
    MulLe(d, k * B32 - 1, p);
    assert (k * B32) * p == B64;
  }

  /** The top half of the shifted divisor. */
  lemma ShiftQuotient(d: int, p: int, k: int)
    requires p >= 1 && k >= 1 && p * k == B32
    ensures d * p / B32 == d / k
  {
    DivTwice(d * p, p, k);
    QuotientIs(d * p, p, d);
  }

  lemma ShiftLarge(d: int, d1: int, p: int, k: int)
    requires p >= 1 && k >= 1 && p * k == B32 && d1 * p >= B31 && d1 * B32 <= d
    ensures B31 * k <= d
  {
    MulLe(B31, d1 * p, k);
    MulAssoc(d1, p, k);
  }

  /** 2^(32-s), for `s` the leading zeros of `d`'s top half: what the shift leaves of a
      unit of the top half. */
  function Unit(d: Word64): (k: int)
    requires d >= B32
    ensures k >= 2
  {
    Pow2(32 - LeadingZeros(d / B32))
  }

  lemma UnitSplits(d: Word64)
    requires d >= B32
    ensures var s := LeadingZeros(d / B32);
            && Pow2(s) * Unit(d) == B32 && Unit(d) == 2 * Pow2(31 - s)
            && d * Pow2(s) < B64
            && B31 * Unit(d) <= d < B32 * Unit(d)
  {
    var s := LeadingZeros(d / B32);
    var d1, p, k := d / B32, Pow2(s), Pow2(32 - s);
    Pow2Sum(s, 32 - s);
    Pow2Is32();
    DivBounds(d, B32);
    ShiftFits(d, d1, p, k);
    ShiftLarge(d, d1, p, k);
  }

  lemma TopBitsAre(d: Word64)
    requires d >= B32
    ensures var x := d * Pow2(LeadingZeros(d / B32));
            && 0 <= x < B64 && x / B32 == d / Unit(d)
            && B31 <= d / Unit(d) < B32
  {
    UnitSplits(d);
    ShiftQuotient(d, Pow2(LeadingZeros(d / B32)), Unit(d));
    DivLess(d, Unit(d), B32);
    DivAtLeast(d, Unit(d), B31);
  }

  lemma SmallMod(x: int)
    requires 0 <= x < B64
    ensures x % B64 == x
  {
  }

  /** `(d << s) >> 32` */
  function TopBits(d: Word64): (r: Word32)
    requires d >= B32
    ensures r == d / Unit(d) && B31 <= r
  {
    TopBitsAre(d);
    SmallMod(d * Pow2(LeadingZeros(d / B32)));
    d * Pow2(LeadingZeros(d / B32)) % B64 / B32
  }

  lemma EstimateFits(n: int, r: int)
    requires 0 <= n < B64 && B31 <= r
    ensures n / 2 / r < B32
  {
    MulLe(B31, r, B32);
    DivLess(n / 2, r, B32);
  }

  /** The estimate of the quotient: `divl (n >> 1, (d << s) >> 32) >> (31 - s)` */
  function Estimate(n: Word64, d: Word64): (q: int)
    requires d >= B32
  {
    EstimateFits(n, TopBits(d));
    Divl(n / 2, TopBits(d)) / Pow2(31 - LeadingZeros(d / B32))
  }

  /** udiv64(); the last line is in 64-bit arithmetic. */
  function Udiv64(n: Word64, d: Word64): (q: Word64)
    requires d != 0
  {
    if d / B32 == 0 then ShortDiv(n, d)
    else if n < d then 0
    else Corrected(n, d, Estimate(n, d))
  }

  function ShortDiv(n: Word64, d: Word64): (q: Word64)
    requires 0 < d < B32
  {
    ShortFits(n / B32, n % B32, d);
    ShortIsQuotient(n, d);
    Divl(B32 * (n / B32 % d) + n % B32, d) + B32 * (n / B32 / d)
  }

  lemma ShortIsQuotient(n: int, d: int)
    requires 0 < d < B32 && 0 <= n < B64
    ensures (B32 * (n / B32 % d) + n % B32) / d + B32 * (n / B32 / d) == n / d
    ensures 0 <= n / d < B64
  {
    DivAtLeast(n, d, 0);
    MulLe(1, d, B64);
    DivLess(n, d, B64);
    var n1, n0 := n / B32, n % B32;
    var t, r := n1 / d, n1 % d;
    var m := B32 * r + n0;
    DivBounds(m, d);
    assert n1 == t * d + r;
    assert n == B32 * t * d + m;
    MulAssoc(B32, t, d);
    QuotientIs(n, d, m / d + B32 * t);
  }

  /** `n - (q - 1) * d < d ? q - 1 : q`, in words of 64 bits */
  function Corrected(n: Word64, d: Word64, q: int): (r: Word64)
    requires d != 0
  {
    var q1 := (q - 1) % B64;
    if (n - q1 * d) % B64 < d then q1 else q % B64
  }

  lemma HalfThenShift(n: int, r: int, h: int)
    requires r > 0 && h > 0
    ensures r * (2 * h) > 0 && n / 2 / r / h == n / (r * (2 * h))
  {
    DivTwice(n / 2, r, h);
    DivTwice(n, 2, r * h);
    assert 2 * (r * h) == r * (2 * h);
  }

  /** The estimate is the quotient by `d` with its low bits cleared. */
  lemma EstimateIs(n: Word64, d: Word64)
    requires d >= B32
    ensures TopBits(d) * Unit(d) > 0 && Estimate(n, d) == n / (TopBits(d) * Unit(d))
  {
    UnitSplits(d);
    HalfThenShift(n, TopBits(d), Pow2(31 - LeadingZeros(d / B32)));
  }

  /** `n * e < big * d` is what keeps the estimate close. */
  lemma ErrorIsSmall(n: int, k: int, e: int, big: int, d: int)
    requires 0 <= n < B64 && k >= 2 && 0 <= e < k && big >= B31 * k && d >= B31 * k
    ensures n * e < big * d
  {
    MulLe(e, k - 1, n);
    MulLe(n, B64 - 1, k - 1);
    assert 4 * (k - 1) <= k * k by { assert (k - 2) * (k - 2) >= 0; }
    MulLe(4 * (k - 1), k * k, B62);
    MulLe(B31 * k, big, d);
    MulLe(B31 * k, d, B31 * k);
  }

  /** Quotients by `d` and by `big`, a little less. */
  lemma CloseQuotients(n: int, d: int, big: int, e: int, q: int, t: int)
    requires 0 < big && 0 <= e && d == big + e && n * e < big * d && 0 <= t
    requires q * big <= n < (q + 1) * big && t * d <= n < (t + 1) * d
    ensures t <= q <= t + 1
  {
    MulLe(big, d, t);
    LessFromProducts(t, q + 1, big);
    MulLe(q * big, n, e);
    assert (q * e) * big == (q * big) * e;
    LessFromProducts(q * e, d, big);
    assert (q - 1) * d == q * big + q * e - d;
    LessFromProducts(q - 1, t + 1, d);
  }

  lemma CloseFor(n: int, d: int, k: int, r: int)
    requires 0 <= n < B64 && k >= 2 && B31 * k <= d && r == d / k && B31 <= r
    ensures r * k > 0 && n / d <= n / (r * k) <= n / d + 1
  {
    var e := d % k;
    assert d == r * k + e;
    MulLe(B31, r, k);
    ErrorIsSmall(n, k, e, r * k, d);
    DivBounds(n, r * k);
    DivBounds(n, d);
    DivAtLeast(n, d, 0);
    CloseQuotients(n, d, r * k, e, n / (r * k), n / d);
  }

  /** The estimate is the quotient or one more. */
  lemma EstimateIsClose(n: Word64, d: Word64)
    requires B32 <= d <= n
    ensures n / d <= Estimate(n, d) <= n / d + 1
  {
    EstimateIs(n, d);
    UnitSplits(d);
    CloseFor(n, d, Unit(d), TopBits(d));
  }

  /** Of two candidates the last line of udiv64() keeps the right one. */
  lemma CorrectedIs(n: Word64, d: Word64, q: int)
    requires B32 <= d <= n && n / d <= q <= n / d + 1
    ensures Corrected(n, d, q) == n / d
  {
    var t := n / d;
    DivBounds(n, d);
    DivAtLeast(n, d, 1);
    DivLess(n, d, B32);
    if q == t + 1 {
      assert n - t * d < d;
    } else {
      assert n - (t - 1) * d == n - t * d + d;
      MulLe(0, t - 1, d);
    }
  }

  /** udiv64() is division, for all operands. */
  lemma Udiv64IsDivision(n: Word64, d: Word64)
    requires d != 0
    ensures Udiv64(n, d) == n / d
  {
    if d / B32 == 0 {
      ShortIsQuotient(n, d);
    } else if n < d {
      QuotientIs(n, d, 0);
    } else {
      EstimateIsClose(n, d);
      CorrectedIs(n, d, Estimate(n, d));
    }
  }

  /* ----- umod64(), sdiv64() and smod64() ----- */

  /** umod64(), which returns 32 bits */
  function Umod64(n: Word64, d: Word64): (r: Word32)
    requires d != 0
  {
    (n - d * Udiv64(n, d)) % B64 % B32
  }

  /** umod64() is the remainder exactly if the remainder fits its return type. */
  lemma Umod64Iff(n: Word64, d: Word64)
    requires d != 0
    ensures Umod64(n, d) == n % d <==> n % d < B32
  {
    Udiv64IsDivision(n, d);
    RemainderIs(n, d);
    SmallMod(n % d);
  }

  lemma RemainderIs(n: int, d: int)
    requires d > 0
    ensures n - d * (n / d) == n % d && 0 <= n % d && (n >= 0 ==> n % d <= n)
  {
    if n >= 0 {
      DivAtLeast(n, d, 0);
      MulLe(0, n / d, d);
    }
  }

  /** A 64-bit word read as a signed number. */
  function ToSigned64(x: Word64): (r: Signed64)
  {
    if x < B63 then x else x - B64
  }

  function ToWord64(x: Signed64): (r: Word64)
  {
    if x >= 0 then x else x + B64
  }

  /** `-(uint64_t) x` for negative `x`, `(uint64_t) x` otherwise */
  function Magnitude(x: Signed64): (r: Word64)
  {
    if x >= 0 then ToWord64(x) else (B64 - ToWord64(x)) % B64
  }

  /** sdiv64(), negation wrapping around */
  function Sdiv64(n: Signed64, d: Signed64): (q: Signed64)
    requires d != 0
  {
    var qabs := ToSigned64(Udiv64(Magnitude(n), Magnitude(d)));
    if (n < 0) == (d < 0) then qabs else if qabs == -B63 then -B63 else -qabs
  }

  /** `q` is `n / d` truncated toward zero: the remainder is less than the divisor in
      magnitude and has the sign of `n`. */
  ghost predicate Truncates(n: int, d: int, q: int)
  {
    var r := n - q * d;
    Abs(r) < Abs(d) && (r == 0 || (r < 0) == (n < 0))
  }

  function Abs(x: int): (a: int)
  {
    if x < 0 then -x else x
  }

  lemma MagnitudeIsAbs(x: Signed64)
    ensures Magnitude(x) == Abs(x)
  {
  }

  lemma AbsQuotient(n: int, d: int)
    requires d != 0
    ensures Truncates(n, d, if (n < 0) == (d < 0) then Abs(n) / Abs(d) else -(Abs(n) / Abs(d)))
  {
    var a, b := Abs(n), Abs(d);
    var t := a / b;
    DivBounds(a, b);
    assert a - t * b == a % b;
    assert (-t) * d == -(t * d) && t * (-d) == -(t * d);
  }

  lemma AbsProduct(a: int, b: int)
    ensures Abs(a) * Abs(b) == Abs(a * b)
  {
  }

  lemma TruncatesUnique(n: int, d: int, q: int, q': int)
    requires d != 0 && Truncates(n, d, q) && Truncates(n, d, q')
    ensures q == q'
  {
    var r, r' := n - q * d, n - q' * d;
    assert (q' - q) * d == r - r';
    assert Abs(r - r') < Abs(d);
    AbsProduct(q' - q, d);
    LessFromProducts(Abs(q' - q), 1, Abs(d));
  }

  /** sdiv64() truncates toward zero exactly if the quotient can be represented. */
  lemma Sdiv64Iff(n: Signed64, d: Signed64)
    requires d != 0
    ensures Truncates(n, d, Sdiv64(n, d)) <==> !(n == -B63 && d == -1)
  {
    var t := Abs(n) / Abs(d);
    MagnitudeIsAbs(n);
    MagnitudeIsAbs(d);
    Udiv64IsDivision(Abs(n), Abs(d));
    AbsQuotient(n, d);
    QuotientSmall(Abs(n), Abs(d));
    if n == -B63 && d == -1 {
      assert !Truncates(n, d, -B63);
    }
  }

  lemma QuotientSmall(a: int, b: int)
    requires 0 <= a <= B63 && b >= 1
    ensures 0 <= a / b <= B63 && (a / b == B63 ==> a == B63 && b == 1)
  {
    DivBounds(a, b);
    DivAtLeast(a, b, 0);
    MulLe(1, b, a / b);
    if b >= 2 { MulLe(2, b, a / b); }
  }

  /** The source's signed arithmetic overflows only for the smallest number divided by 1 or -1. */
  lemma Sdiv64Overflow(n: Signed64, d: Signed64)
    requires d != 0
    ensures Udiv64(Magnitude(n), Magnitude(d)) >= B63 <==> n == -B63 && Abs(d) == 1
  {
    MagnitudeIsAbs(n);
    MagnitudeIsAbs(d);
    Udiv64IsDivision(Abs(n), Abs(d));
    QuotientSmall(Abs(n), Abs(d));
  }

  /** smod64(), which returns 32 bits, signed */
  function Smod64(n: Signed64, d: Signed64): (r: int)
    requires d != 0
  {
    ToSigned32((n - d * Sdiv64(n, d)) % B64 % B32)
  }

  function ToSigned32(x: Word32): (r: int)
  {
    if x < B31 then x else x - B32
  }

  /** smod64() is the remainder exactly if that fits 32 bits with sign. */
  lemma Smod64Iff(n: Signed64, d: Signed64)
    requires d != 0 && !(n == -B63 && d == -1)
    ensures var r := n - d * Sdiv64(n, d);
            && Abs(r) < Abs(d)
            && (Smod64(n, d) == r <==> -B31 <= r < B31)
  {
    Sdiv64Iff(n, d);
    var q := Sdiv64(n, d);
    assert d * q == q * d;
    var r := n - d * q;
    assert Abs(r) < Abs(d);
    LowWord(r);
  }

  lemma LowWord(r: int)
    requires -B63 <= r < B63
    ensures ToSigned32(r % B64 % B32) == r <==> -B31 <= r < B31
  {
    assert r % B64 == if r >= 0 then r else r + B64;
    assert -B31 <= r < 0 ==> (r + B64) % B32 == r + B32 by {
      if -B31 <= r < 0 { DivUnique(r + B64, B32, B32 - 1, r + B32); }
    }
  }
}
