/** What a stripped name, an octal field, a checksum and a header are, by the byte. */
module UstarFormat {
  import opened CStrings
  import opened Ustar

  /* ----- Names ----- */

  /** AfterSlash() is what follows the first slash. */
  lemma {:induction false} AfterSlashIs(name: seq<int>, k: nat)
    requires k < |name| && name[k] == SLASH && forall j | 0 <= j < k :: name[j] != SLASH
    ensures AfterSlash(name) == name[k + 1..]
  {
    if k > 0 {
      AfterSlashIs(name[1..], k - 1);
      assert name[1..][k..] == name[k + 1..];
    }
  }

  /** A string made up of "/", "./" and "../" */
  predicate Pieces(p: seq<int>)
    decreases |p|
  {
    || p == []
    || (p[0] == 47 && Pieces(p[1..]))
    || (|p| >= 2 && p[..2] == [46, 47] && Pieces(p[2..]))
    || (|p| >= 3 && p[..3] == [46, 46, 47] && Pieces(p[3..]))
  }

  /** Behind `k` bytes of such pieces no further one follows; `r` is what is left, or "." where that is
      empty or "..". */
  predicate StrippedAt(name: seq<int>, r: seq<int>, k: nat)
  {
    && k <= |name| && Pieces(name[..k])
    && var rest := name[k..];
       && !(rest != [] && rest[0] == 47)
       && !(|rest| >= 2 && rest[..2] == [46, 47])
       && !(|rest| >= 3 && rest[..3] == [46, 46, 47])
       && r == if rest == [] || rest == [46, 46] then [46] else rest
  }

  lemma PieceLength(name: seq<int>) returns (m: nat)
    requires Antisocial(name)
    ensures 1 <= m <= 3 && m <= |name| && AfterSlash(name) == name[m..]
    ensures name[..m] == [47] || name[..m] == [46, 47] || name[..m] == [46, 46, 47]
  {
    if Starts(name, [SLASH]) {
      m := 1;
      assert name[..1][0] == SLASH;
      AfterSlashIs(name, 0);
    } else if Starts(name, [DOT, SLASH]) {
      m := 2;
      assert name[..2][0] == DOT && name[..2][1] == SLASH;
      AfterSlashIs(name, 1);
    } else {
      m := 3;
      assert name[..3][0] == DOT && name[..3][1] == DOT && name[..3][2] == SLASH;
      AfterSlashIs(name, 2);
    }
  }

  lemma PiecesLonger(p: seq<int>, m: nat)
    requires m <= |p| && Pieces(p[m..])
    requires p[..m] == [47] || p[..m] == [46, 47] || p[..m] == [46, 46, 47]
    ensures Pieces(p)
  {
    assert |p[..m]| == m;
    if m == 1 { assert p[..1][0] == p[0]; }
  }

  lemma StrippedFurther(name: seq<int>, r: seq<int>, m: nat, k: nat)
    requires m <= |name| && StrippedAt(name[m..], r, k)
    requires name[..m] == [47] || name[..m] == [46, 47] || name[..m] == [46, 46, 47]
    ensures StrippedAt(name, r, m + k)
  {
    var p := name[..m + k];
    assert p[m..] == name[m..][..k] && p[..m] == name[..m];
    PiecesLonger(p, m);
    assert name[m + k..] == name[m..][k..];
  }

  /** strip_antisocial_prefixes() takes off exactly the "/", "./" and "../" in front. */
  lemma {:induction false} StripIs(name: seq<int>) returns (k: nat)
    ensures StrippedAt(name, Strip(name), k)
    decreases |name|
  {
    if Antisocial(name) {
      var m := PieceLength(name);
      k := StripIs(name[m..]);
      StrippedFurther(name, Strip(name), m, k);
      k := m + k;
    } else {
      k := 0;
      assert name[0..] == name && name[..0] == [];
      assert name != [] ==> name[..1] == [name[0]];
    }
  }

  /** A name that needs no stripping is left alone. */
  lemma StripKeeps(name: seq<int>)
    requires name != [] && name != [46, 46] && name[0] != 47
    requires !(|name| >= 2 && name[..2] == [46, 47]) && !(|name| >= 3 && name[..3] == [46, 46, 47])
    ensures Strip(name) == name
  {
    assert name[..1][0] == name[0];
  }

  /* ----- Octal fields ----- */

  /** `n` octal digits and a space or null */
  predicate Field(s: seq<int>, n: nat)
  {
    0 < n < |s| && (forall i | 0 <= i < n :: 48 <= s[i] <= 55) && (s[n] == 32 || s[n] == 0)
  }

  lemma FieldUnique(s: seq<int>, n: nat, m: nat)
    requires Field(s, n) && Field(s, m)
    ensures n == m
  {
  }

  lemma {:induction false} ParseGoesOn(s: seq<int>, ofs: nat, n: nat)
    requires Field(s, n) && ofs <= n && 0 <= Value(s, ofs) <= ULONG_MAX
    ensures ParseFrom(s, ofs, Value(s, ofs)) == if Value(s, n) <= ULONG_MAX then Number(Value(s, n)) else Bad
    decreases n - ofs
  {
    if ofs < n {
      assert Value(s, ofs + 1) == 8 * Value(s, ofs) + s[ofs] - ZERO;
      if Value(s, ofs) > ULONG_MAX / 8 {
        ValueGrows(s, ofs + 1, n);
      } else {
        ParseGoesOn(s, ofs + 1, n);
      }
    }
  }

  lemma {:induction false} ParseMeansField(s: seq<int>, ofs: nat, value: int) returns (n: nat)
    requires ofs <= |s| && ParseFrom(s, ofs, value).Number? && forall i | 0 <= i < ofs :: 48 <= s[i] <= 55
    ensures Field(s, n)
    decreases |s| - ofs
  {
    if OctalDigit(s[ofs]) {
      n := ParseMeansField(s, ofs + 1, s[ofs] - ZERO + value * 8);
    } else {
      n := ofs;
    }
  }

  /** parse_octal_field() accepts exactly the fields of one or more octal digits, ended by a space or
      null, whose number fits an unsigned long; and returns that number. */
  lemma ParseIff(s: seq<int>, v: int)
    ensures ParseFrom(s, 0, 0) == Number(v) <==> exists n: nat :: Field(s, n) && v == Value(s, n) <= ULONG_MAX
  {
    if ParseFrom(s, 0, 0).Number? {
      var n := ParseMeansField(s, 0, 0);
      ParseGoesOn(s, 0, n);
    }
    forall n: nat | Field(s, n) && v == Value(s, n) <= ULONG_MAX
      ensures ParseFrom(s, 0, 0) == Number(v)
    {
      ParseGoesOn(s, 0, n);
    }
  }

  lemma {:induction false} DigitIs(v: nat, i: nat)
    requires i < |Digits(v)|
    ensures Digits(v)[i] == ZERO + v / Pow8(i) % 8
  {
    if i > 0 {
      DigitIs(v / 8, i - 1);
      DivDiv(v, Pow8(i - 1));
    }
  }

  lemma DivDiv(v: nat, p: nat)
    requires p > 0
    ensures v / 8 / p == v / (8 * p)
  {
    var a, b := v / 8 / p, v / (8 * p);
    QuotientUnique(v, 8 * p, a);
  }

  lemma QuotientUnique(v: nat, d: nat, q: nat)
    requires d > 0 && q * d <= v < q * d + d
    ensures v / d == q
  {
    var r := v / d;
    assert r * d <= v < r * d + d;
    ProductGrows(r + 1, q, d);
    ProductGrows(q + 1, r, d);
  }

  lemma ProductGrows(a: nat, b: nat, d: nat)
    ensures a <= b ==> a * d <= b * d
  {
  }

  lemma {:induction false} ReversedIs(s: seq<int>, i: nat)
    requires i < |s|
    ensures Reversed(s)[|s| - 1 - i] == s[i]
  {
    if i > 0 { ReversedIs(s[1..], i - 1); }
  }

  lemma {:induction false} DigitsEnd(v: nat, i: nat)
    requires i >= |Digits(v)|
    ensures v / Pow8(i) == 0
  {
    if v == 0 {
    } else {
      DigitsEnd(v / 8, i - 1);
      DivDiv(v, Pow8(i - 1));
    }
  }

  /** "%0<width>o" puts digit `i` of the number, counted from the right in base 8, at place `i`. */
  lemma OctalIs(v: nat, width: nat, i: nat)
    requires v < Pow8(width) && i < width
    ensures |Octal(v, width)| == width && Octal(v, width)[width - 1 - i] == 48 + v / Pow8(i) % 8
  {
    OctalSpells(v, width);
    var digits := if v == 0 then [ZERO] else Digits(v);
    OctalPlace(digits, width, i);
    if v != 0 {
      PlaceValue(v, i);
    }
  }

  lemma OctalPlace(digits: seq<int>, width: nat, i: nat)
    requires |digits| <= width && i < width
    ensures (Zeros(width - |digits|) + Reversed(digits))[width - 1 - i] == if i < |digits| then digits[i] else ZERO
  {
    var z, r := Zeros(width - |digits|), Reversed(digits);
    AtFromRight(z, r, i);
    if i < |digits| {
      ReversedIs(digits, i);
    } else {
      assert z[width - 1 - i] == ZERO;
    }
  }

  lemma AtFromRight(z: seq<int>, r: seq<int>, i: nat)
    requires i < |z| + |r|
    ensures (z + r)[|z| + |r| - 1 - i] == if i < |r| then r[|r| - 1 - i] else z[|z| + |r| - 1 - i]
  {
  }

  lemma PlaceValue(v: nat, i: nat)
    ensures (if i < |Digits(v)| then Digits(v)[i] else ZERO) == ZERO + v / Pow8(i) % 8
  {
    if i < |Digits(v)| { DigitIs(v, i); } else { DigitsEnd(v, i); }
  }

  /* ----- Checksums ----- */

  function Total(s: seq<int>): (sum: int)
  {
    if s == [] then 0 else s[0] + Total(s[1..])
  }

  lemma {:induction false} TotalLast(s: seq<int>, x: int)
    ensures Total(s + [x]) == Total(s) + x
  {
    if s != [] {
      TotalLast(s[1..], x);
      assert (s + [x])[1..] == s[1..] + [x];
    }
  }

  lemma {:induction false} ChksumTotal(h: seq<int>, n: nat)
    requires n <= |h| == HEADER_SIZE
    ensures Chksum(h, n) == if n <= 148 then Total(h[..n])
                            else if n <= 156 then Total(h[..148]) + 32 * (n - 148)
                            else Total(h[..148]) + 256 + Total(h[156..n])
  {
    if n > 0 {
      ChksumTotal(h, n - 1);
      if n <= 148 {
        assert h[..n] == h[..n - 1] + [h[n - 1]];
        TotalLast(h[..n - 1], h[n - 1]);
      } else if n > 156 {
        assert h[156..n] == h[156..n - 1] + [h[n - 1]];
        TotalLast(h[156..n - 1], h[n - 1]);
      }
    }
  }

  /** The checksum is the sum of all bytes, with eight spaces for the checksum field. */
  lemma ChksumIs(h: seq<int>)
    requires |h| == HEADER_SIZE
    ensures Chksum(h, HEADER_SIZE) == Total(h[..148]) + 8 * 32 + Total(h[156..])
  {
    ChksumTotal(h, HEADER_SIZE);
    assert h[156..HEADER_SIZE] == h[156..];
  }

  lemma {:induction false} ChksumChanges(h: seq<int>, i: nat, x: int, n: nat)
    requires n <= |h| && i < |h| && !(148 <= i < 156)
    ensures Chksum(h[i := x], n) == Chksum(h, n) + if i < n then x - h[i] else 0
  {
    if n > 0 { ChksumChanges(h, i, x, n - 1); }
  }

  /* ----- Headers ----- */

  /** A header in the ustar format, by its bytes */
  ghost predicate Layout(h: seq<int>, name: seq<int>, mode: int, size: int, mtime: int, kind: int)
  {
    && |h| == 512 && |name| <= 99
    && h[..|name|] == name && (forall i | |name| <= i < 100 :: h[i] == 0)
    && ParseFrom(h[100..108], 0, 0) == Number(mode)
    && ParseFrom(h[108..116], 0, 0) == Number(0) && ParseFrom(h[116..124], 0, 0) == Number(0)
    && ParseFrom(h[124..136], 0, 0) == Number(size) && ParseFrom(h[136..148], 0, 0) == Number(mtime)
    && ParseFrom(h[148..156], 0, 0) == Number(Chksum(h, 512))
    && h[156] == kind && (forall i | 157 <= i < 257 :: h[i] == 0)
    && h[257..263] == [117, 115, 116, 97, 114, 0] && h[263..265] == [48, 48]
    && h[265..269] == [114, 111, 111, 116] && (forall i | 269 <= i < 297 :: h[i] == 0)
    && h[297..301] == [114, 111, 111, 116] && (forall i | 301 <= i < 512 :: h[i] == 0)
  }

  lemma FieldParses(u: seq<int>, at: nat, to: nat, v: nat, width: nat)
    requires at + width + 1 == to <= |u| && width > 0 && v < Pow8(width) && v <= ULONG_MAX
    requires u[at..at + width] == Octal(v, width) && u[at + width] == 0
    ensures ParseFrom(u[at..to], 0, 0) == Number(v)
  {
    OctalSpells(v, width);
    assert u[at..to] == u[at..at + width] + [u[at + width]];
    assert u[at..to] == Octal(v, width) + [0] + [];
    OctalRoundTrip(v, width, []);
  }

  lemma ZeroField()
    ensures Zeros(7) == Octal(0, 7)
  {
    assert Reversed([ZERO]) == [ZERO];
    assert Zeros(7) == Zeros(6) + [ZERO];
  }

  lemma ModeFieldIs(name: seq<int>, kind: int, size: nat, mtime: nat, u: seq<int>)
    requires Makes(name, kind, size, mtime) && u == Unsummed(name, kind, size, mtime)
    ensures ParseFrom(u[100..108], 0, 0) == Number(if kind == REGULAR then 420 else 493)
  {
    Pow8Values();
    OneField(name, kind, size, mtime, u, 1, Mode(kind), 7);
  }

  lemma OwnerFieldsAre(name: seq<int>, kind: int, size: nat, mtime: nat, u: seq<int>)
    requires Makes(name, kind, size, mtime) && u == Unsummed(name, kind, size, mtime)
    ensures ParseFrom(u[108..116], 0, 0) == Number(0) && ParseFrom(u[116..124], 0, 0) == Number(0)
  {
    Pow8Values();
    ZeroField();
    OneField(name, kind, size, mtime, u, 2, 0, 7);
    OneField(name, kind, size, mtime, u, 3, 0, 7);
  }

  lemma SizeFieldIs(name: seq<int>, kind: int, size: nat, mtime: nat, u: seq<int>)
    requires Makes(name, kind, size, mtime) && u == Unsummed(name, kind, size, mtime)
    ensures ParseFrom(u[124..136], 0, 0) == Number(size)
  {
    Pow8Values();
    OneField(name, kind, size, mtime, u, 4, size, 11);
  }

  lemma TimeFieldIs(name: seq<int>, kind: int, size: nat, mtime: nat, u: seq<int>)
    requires Makes(name, kind, size, mtime) && u == Unsummed(name, kind, size, mtime)
    ensures ParseFrom(u[136..148], 0, 0) == Number(mtime)
  {
    Pow8Values();
    OneField(name, kind, size, mtime, u, 5, mtime, 11);
  }

  lemma OneField(name: seq<int>, kind: int, size: nat, mtime: nat, u: seq<int>, k: nat, v: nat, width: nat)
    requires Makes(name, kind, size, mtime) && u == Unsummed(name, kind, size, mtime) && k < 11
    requires width > 0 && v < Pow8(width) && v <= ULONG_MAX && FieldBytes(k, name, kind, size, mtime) == Octal(v, width)
    requires FieldAt(k) + width + 1 <= FieldAt(k + 1)
    ensures FieldAt(k) + width + 1 <= |u|
    ensures ParseFrom(u[FieldAt(k)..FieldAt(k) + width + 1], 0, 0) == Number(v)
  {
    OctalSpells(v, width);
    FieldIsThere(name, kind, size, mtime, k);
    FieldParses(u, FieldAt(k), FieldAt(k) + width + 1, v, width);
  }

  /** What is between the fields and in those of fixed text */
  lemma HeadFieldsAre(name: seq<int>, kind: int, size: nat, mtime: nat, u: seq<int>)
    requires Makes(name, kind, size, mtime) && u == Unsummed(name, kind, size, mtime)
    ensures u[..|name|] == name && (forall i | |name| <= i < 100 :: u[i] == 0)
    ensures u[156] == kind && (forall i | 157 <= i < 257 :: u[i] == 0)
  {
    FieldIsThere(name, kind, size, mtime, 0);
    FieldIsThere(name, kind, size, mtime, 6);
    assert u[156..157][0] == kind;
  }

  lemma MagicFieldsAre(name: seq<int>, kind: int, size: nat, mtime: nat, u: seq<int>)
    requires Makes(name, kind, size, mtime) && u == Unsummed(name, kind, size, mtime)
    ensures u[257..263] == [117, 115, 116, 97, 114, 0] && u[263..265] == [48, 48]
  {
    FieldIsThere(name, kind, size, mtime, 7);
    FieldIsThere(name, kind, size, mtime, 8);
  }

  lemma TailFieldsAre(name: seq<int>, kind: int, size: nat, mtime: nat, u: seq<int>)
    requires Makes(name, kind, size, mtime) && u == Unsummed(name, kind, size, mtime)
    ensures u[265..269] == [114, 111, 111, 116] && (forall i | 269 <= i < 297 :: u[i] == 0)
    ensures u[297..301] == [114, 111, 111, 116] && (forall i | 301 <= i < 512 :: u[i] == 0)
  {
    FieldIsThere(name, kind, size, mtime, 9);
    FieldIsThere(name, kind, size, mtime, 10);
  }

  lemma SummedLayout(name: seq<int>, kind: int, size: nat, mtime: nat, h: seq<int>)
    requires Makes(name, kind, size, mtime) && h == Summed(name, kind, size, mtime)
    ensures Layout(h, name, if kind == REGULAR then 420 else 493, size, mtime, kind)
  {
    var u := Unsummed(name, kind, size, mtime);
    var sum := Chksum(u, HEADER_SIZE);
    SumFits(name, kind, size, mtime);
    SumField(name, kind, size, mtime);
    StoredSum(u, sum);
    forall i: nat | i < HEADER_SIZE && !(148 <= i < 156) ensures h[i] == u[i] { PutAt(u, CHKSUM_AT, Octal(sum, 7), i); }
    HeadFieldsAre(name, kind, size, mtime, u);
    MagicFieldsAre(name, kind, size, mtime, u);
    TailFieldsAre(name, kind, size, mtime, u);
    SlicesSame(h, u);
    assert h[..|name|] == u[..|name|];
    ModeFieldIs(name, kind, size, mtime, u);
    OwnerFieldsAre(name, kind, size, mtime, u);
    SizeFieldIs(name, kind, size, mtime, u);
    TimeFieldIs(name, kind, size, mtime, u);
  }

  lemma SlicesSame(h: seq<int>, u: seq<int>)
    requires |h| == |u| == 512 && forall i: nat | i < 512 && !(148 <= i < 156) :: h[i] == u[i]
    ensures h[100..108] == u[100..108] && h[108..116] == u[108..116] && h[116..124] == u[116..124]
    ensures h[124..136] == u[124..136] && h[136..148] == u[136..148]
    ensures h[257..263] == u[257..263] && h[263..265] == u[263..265]
    ensures h[265..269] == u[265..269] && h[297..301] == u[297..301]
  {
  }

  /** ustar_make_header() fills in every field of the format, unless the stripped name is over 99 bytes. */
  lemma MadeLayout(name: seq<int>, kind: int, size: nat, mtime: nat)
    requires size <= INT_MAX && mtime <= INT_MAX && NameOk(name) && (kind == REGULAR || kind == DIRECTORY)
    ensures match Make(name, kind, size, mtime)
            case TooLong => |Strip(name)| > 99
            case Made(h) => Layout(h, Strip(name), if kind == 48 then 420 else 493, size, mtime, kind)
  {
    StripKeepsBytes(name);
    if |Strip(name)| <= 99 { SummedLayout(Strip(name), kind, size, mtime, Make(name, kind, size, mtime).header); }
  }

  /* ----- Parsing ----- */

  /** The conditions under which a header is one of a file or directory */
  ghost predicate Acceptable(h: seq<int>)
    requires |h| == HEADER_SIZE
  {
    && h[257..263] == [117, 115, 116, 97, 114, 0] && h[263] == 48 && h[264] == 48
    && ParseFrom(h[148..156], 0, 0) == Number(Chksum(h, 512))
    && h[99] == 0 && h[345] == 0
    && (h[156] == 53 || (h[156] == 48 && exists n :: ParseFrom(h[124..136], 0, 0) == Number(n) && n <= INT_MAX))
  }

  /** ustar_parse_header() returns an entry exactly for the headers that are acceptable, with the name
      stripped; the end of the archive exactly for zeros; and an error for anything else. */
  lemma ParseAcceptsIff(h: seq<int>)
    requires |h| == HEADER_SIZE
    ensures Parse(h).Entry? <==> Acceptable(h)
    ensures Parse(h) == EndOfArchive <==> forall i | 0 <= i < 512 :: h[i] == 0
    ensures match Parse(h)
            case Entry(name, kind, size) =>
              && name == Strip(CString(h[..100])) && kind == h[156]
              && (if kind == 48 then ParseFrom(h[124..136], 0, 0) == Number(size) else size == 0)
            case _ => true
  {
    assert h[0..100] == h[..100];
    assert h[257..263][0] == h[257];
    match ParseFrom(h[124..136], 0, 0)
    case Bad =>
    case Number(n) => assert n <= INT_MAX ==> exists k :: ParseFrom(h[124..136], 0, 0) == Number(k) && k <= INT_MAX;
  }

  /** Changing one byte of an acceptable header, outside the checksum field, makes it an error. */
  lemma CorruptionDetected(h: seq<int>, i: nat, x: int)
    requires |h| == HEADER_SIZE && i < HEADER_SIZE && !(148 <= i < 156) && x != h[i] && Parse(h).Entry?
    ensures Parse(h[i := x]).Error?
  {
    var h' := h[i := x];
    ParseAcceptsIff(h);
    ParseAcceptsIff(h');
    ChksumChanges(h, i, x, HEADER_SIZE);
    assert h'[148..156] == h[148..156];
    assert h[257..263][0] == 117 && h[257..263][1] == 115;
    assert h'[257] != 0 || h'[258] != 0;
  }
}
