/** ustar.c: archive headers in the ustar interchange format, and the octal printing of stdio.c
    they rely on. Characters are bytes; a C string is the bytes before its null. */
module Ustar {
  import opened CStrings

  const ZERO: int := 48
  const SPACE: int := 32
  const SLASH: int := 47
  const DOT: int := 46
  const ULONG_MAX := 0xFFFF_FFFF
  const INT_MAX := 0x7FFF_FFFF

  /* ----- Octal numbers ----- */

  function Pow8(n: nat): (p: nat)
    ensures p > 0
  {
    if n == 0 then 1 else 8 * Pow8(n - 1)
  }

  predicate OctalDigit(c: int)
  {
    ZERO <= c <= ZERO + 7
  }

  /** The number that `n` octal digits at the start of `s` spell */
  function Value(s: seq<int>, n: nat): (v: int)
    requires n <= |s|
  {
    if n == 0 then 0 else 8 * Value(s, n - 1) + s[n - 1] - ZERO
  }

  /** The digits of `v`, the last first, as format_integer() collects them */
  function Digits(v: nat): (r: seq<int>)
    decreases v
  {
    if v == 0 then [] else [ZERO + v % 8] + Digits(v / 8)
  }

  function Reversed(s: seq<int>): (r: seq<int>)
    ensures |r| == |s|
  {
    if s == [] then [] else Reversed(s[1..]) + [s[0]]
  }

  function Zeros(n: nat): (r: seq<int>)
    ensures |r| == n && forall i | 0 <= i < n :: r[i] == ZERO
  {
    seq(n, _ => ZERO)
  }

  /** What "%0<width>o" prints */
  function Octal(v: nat, width: nat): (r: seq<int>)
  {
    var digits := if v == 0 then [ZERO] else Digits(v);
    Zeros(if |digits| < width then width - |digits| else 0) + Reversed(digits)
  }

  lemma {:induction false} DigitsShort(v: nat, n: nat)
    requires v < Pow8(n)
    ensures |Digits(v)| <= n
  {
    if v != 0 { DigitsShort(v / 8, n - 1); }
  }

  lemma {:induction false} DigitsOctal(v: nat)
    ensures forall c | c in Reversed(Digits(v)) :: OctalDigit(c)
  {
    if v != 0 { DigitsOctal(v / 8); }
  }

  lemma {:induction false} ValuePrefix(s: seq<int>, t: seq<int>, n: nat)
    requires n <= |s|
    ensures Value(s + t, n) == Value(s, n)
  {
    if n != 0 { ValuePrefix(s, t, n - 1); }
  }

  lemma {:induction false} ValueOfDigits(v: nat)
    ensures Value(Reversed(Digits(v)), |Digits(v)|) == v
  {
    if v != 0 {
      ValueOfDigits(v / 8);
      var high := Reversed(Digits(v / 8));
      ValuePrefix(high, [ZERO + v % 8], |high|);
    }
  }

  lemma {:induction false} ValueOfZeros(k: nat, s: seq<int>, n: nat)
    requires n <= |s|
    ensures Value(Zeros(k) + s, k + n) == Value(s, n)
  {
    if n != 0 {
      ValueOfZeros(k, s, n - 1);
    } else if k != 0 {
      ValueOfZeros(k - 1, [], 0);
      assert Zeros(k) == Zeros(k - 1) + [ZERO];
      ValuePrefix(Zeros(k - 1), [ZERO] + s, k - 1);
      ValuePrefix(Zeros(k - 1), [], k - 1);
      assert Zeros(k) + s == Zeros(k - 1) + ([ZERO] + s);
    }
  }

  /** Zero-padded printing fills the field with octal digits that spell the number. */
  lemma OctalSpells(v: nat, width: nat)
    requires width > 0 && v < Pow8(width)
    ensures |Octal(v, width)| == width && Value(Octal(v, width), width) == v
    ensures forall i | 0 <= i < width :: OctalDigit(Octal(v, width)[i])
  {
    var digits := if v == 0 then [ZERO] else Digits(v);
    DigitsShort(v, width);
    DigitsOctal(v);
    ValueOfDigits(v);
    var k := width - |digits|;
    assert Octal(v, width) == Zeros(k) + Reversed(digits);
    assert forall c | c in Reversed(digits) :: OctalDigit(c);
    ValueOfZeros(k, Reversed(digits), |digits|);
    assert v == 0 ==> Value(Reversed(digits), 1) == 0;
  }

  datatype Number = Bad | Number(value: int)

  /** parse_octal_field(), from position `ofs` on with the value so far */
  function ParseFrom(s: seq<int>, ofs: nat, value: int): (r: Number)
    requires ofs <= |s|
    decreases |s| - ofs
  {
    if ofs == |s| then Bad
    else if OctalDigit(s[ofs]) then
      if value > ULONG_MAX / 8 then Bad else ParseFrom(s, ofs + 1, s[ofs] - ZERO + value * 8)
    else if s[ofs] == SPACE || s[ofs] == 0 then
      if ofs > 0 then Number(value) else Bad
    else Bad
  }

  /** A field of digits up to a null parses to the number they spell, if that fits. */
  lemma {:induction false} ParsesDigits(s: seq<int>, n: nat, ofs: nat)
    requires ofs <= n < |s| && n > 0 && s[n] == 0 && forall i | 0 <= i < n :: OctalDigit(s[i])
    requires forall i | 0 <= i <= n :: 0 <= Value(s, i) <= ULONG_MAX
    ensures ParseFrom(s, ofs, Value(s, ofs)) == Number(Value(s, n))
    decreases n - ofs
  {
    if ofs < n {
      assert Value(s, ofs + 1) == 8 * Value(s, ofs) + s[ofs] - ZERO;
      ParsesDigits(s, n, ofs + 1);
    }
  }

  lemma {:induction false} ValueGrows(s: seq<int>, i: nat, n: nat)
    requires i <= n <= |s| && forall j | 0 <= j < n :: OctalDigit(s[j])
    ensures 0 <= Value(s, i) <= Value(s, n)
    decreases n
  {
    if i < n {
      ValueGrows(s, i, n - 1);
    } else if n > 0 {
      ValueGrows(s, n - 1, n - 1);
    }
  }

  /** Printing and parsing invert each other. */
  lemma OctalRoundTrip(v: nat, width: nat, rest: seq<int>)
    requires width > 0 && v < Pow8(width) && v <= ULONG_MAX
    ensures ParseFrom(Octal(v, width) + [0] + rest, 0, 0) == Number(v)
  {
    OctalSpells(v, width);
    var o := Octal(v, width);
    var s := o + [0] + rest;
    assert s == o + ([0] + rest);
    ValuePrefix(o, [0] + rest, width);
    forall i | 0 <= i <= width ensures 0 <= Value(s, i) <= v { ValueGrows(s, i, width); }
    ParsesDigits(s, width, 0);
  }

  /* ----- Names ----- */

  predicate Starts(s: seq<int>, prefix: seq<int>)
  {
    |prefix| <= |s| && s[..|prefix|] == prefix
  }

  predicate Antisocial(name: seq<int>)
  {
    Starts(name, [SLASH]) || Starts(name, [DOT, SLASH]) || Starts(name, [DOT, DOT, SLASH])
  }

  /** What follows the first slash */
  function AfterSlash(name: seq<int>): (r: seq<int>)
    ensures |r| <= |name| && (name != [] ==> |r| < |name|)
    ensures forall c | c in r :: c in name
  {
    if name == [] then [] else if name[0] == SLASH then name[1..] else AfterSlash(name[1..])
  }

  /** strip_antisocial_prefixes() */
  function Strip(name: seq<int>): (r: seq<int>)
    decreases |name|
  {
    if Antisocial(name) then Strip(AfterSlash(name))
    else if name == [] || name == [DOT, DOT] then [DOT]
    else name
  }

  /** A stripped name starts with none of the prefixes, and stripping it again changes nothing. */
  lemma {:induction false} StripIsFinal(name: seq<int>)
    ensures !Antisocial(Strip(name)) && Strip(name) != [] && Strip(name) != [DOT, DOT]
    ensures Strip(Strip(name)) == Strip(name)
    decreases |name|
  {
    assert [DOT][..1][0] == DOT;
    if Antisocial(name) { StripIsFinal(AfterSlash(name)); }
  }

  lemma {:induction false} StripKeepsBytes(name: seq<int>)
    requires NameOk(name)
    ensures NameOk(Strip(name))
    decreases |name|
  {
    if Antisocial(name) { StripKeepsBytes(AfterSlash(name)); }
  }

  /** The bytes of a C string */
  predicate NameOk(name: seq<int>)
  {
    forall c | c in name :: 0 < c < 256
  }

  /* ----- Headers ----- */

  const HEADER_SIZE := 512
  const NAME_AT := 0
  const MODE_AT := 100
  const UID_AT := 108
  const GID_AT := 116
  const SIZE_AT := 124
  const MTIME_AT := 136
  const CHKSUM_AT := 148
  const TYPE_AT := 156
  const MAGIC_AT := 257
  const VERSION_AT := 263
  const UNAME_AT := 265
  const GNAME_AT := 297
  const PREFIX_AT := 345

  const REGULAR: int := 48
  const DIRECTORY: int := 53
  const MAGIC: seq<int> := [117, 115, 116, 97, 114, 0]
  const ROOT: seq<int> := [114, 111, 111, 116]
  /** The modification time in every header made */
  const MTIME := 1136102400

  /** The bytes `b` copied into a header, one after the other */
  function Put(h: seq<int>, at: nat, b: seq<int>): (r: seq<int>)
    requires at + |b| <= |h|
    ensures |r| == |h|
    decreases |b|
  {
    if b == [] then h else Put(h[at := b[0]], at + 1, b[1..])
  }

  lemma {:induction false} PutAt(h: seq<int>, at: nat, b: seq<int>, i: nat)
    requires at + |b| <= |h| && i < |h|
    ensures Put(h, at, b)[i] == if at <= i < at + |b| then b[i - at] else h[i]
    decreases |b|
  {
    if b != [] { PutAt(h[at := b[0]], at + 1, b[1..], i); }
  }

  /** A field written into a header */
  datatype Part = Part(at: nat, bytes: seq<int>)

  predicate Within(p: Part)
  {
    p.at + |p.bytes| <= HEADER_SIZE
  }

  predicate Covers(p: Part, i: nat)
  {
    p.at <= i < p.at + |p.bytes|
  }

  /** The header after the first `n` parts are written */
  function PutAll(parts: seq<Part>, n: nat): (h: seq<int>)
    requires n <= |parts| && forall k | 0 <= k < |parts| :: Within(parts[k])
    ensures |h| == HEADER_SIZE
  {
    if n == 0 then seq(HEADER_SIZE, _ => 0) else Put(PutAll(parts, n - 1), parts[n - 1].at, parts[n - 1].bytes)
  }

  ghost predicate PartsApart(parts: seq<Part>)
  {
    && (forall k | 0 <= k < |parts| :: Within(parts[k]))
    && (forall j, k | 0 <= j < k < |parts| :: parts[j].at + |parts[j].bytes| <= parts[k].at || parts[k].at + |parts[k].bytes| <= parts[j].at)
  }

  /** Parts that do not overlap can all be read back; what no part covers is zero. */
  lemma {:induction false} PutAllAt(parts: seq<Part>, n: nat, i: nat)
    requires PartsApart(parts) && n <= |parts| && i < HEADER_SIZE
    ensures forall k | 0 <= k < n && Covers(parts[k], i) :: PutAll(parts, n)[i] == parts[k].bytes[i - parts[k].at]
    ensures (forall k | 0 <= k < n :: !Covers(parts[k], i)) ==> PutAll(parts, n)[i] == 0
  {
    if n != 0 {
      PutAllAt(parts, n - 1, i);
      PutAt(PutAll(parts, n - 1), parts[n - 1].at, parts[n - 1].bytes, i);
    }
  }

  lemma PartIsThere(parts: seq<Part>, k: nat)
    requires PartsApart(parts) && k < |parts|
    ensures var p := parts[k]; PutAll(parts, |parts|)[p.at..p.at + |p.bytes|] == p.bytes
  {
    var p, h := parts[k], PutAll(parts, |parts|);
    var slice := h[p.at..p.at + |p.bytes|];
    forall j | 0 <= j < |p.bytes|
      ensures slice[j] == p.bytes[j]
    {
      PutAllAt(parts, |parts|, p.at + j);
      assert Covers(p, p.at + j);
    }
  }

  lemma {:induction false} PutAllBytes(parts: seq<Part>, n: nat)
    requires PartsApart(parts) && n <= |parts| && forall k | 0 <= k < |parts| :: BytesOk(parts[k].bytes)
    ensures BytesOk(PutAll(parts, n))
  {
    if n != 0 {
      PutAllBytes(parts, n - 1);
      forall i: nat | i < HEADER_SIZE
        ensures 0 <= PutAll(parts, n)[i] < 256
      {
        PutAt(PutAll(parts, n - 1), parts[n - 1].at, parts[n - 1].bytes, i);
      }
    }
  }

  predicate BytesOk(s: seq<int>)
  {
    forall i | 0 <= i < |s| :: 0 <= s[i] < 256
  }

  function Mode(kind: int): (m: nat)
  {
    if kind == REGULAR then 420 else 493
  }

  /** Where the fields start that ustar_make_header() fills in before the checksum, and the end */
  function FieldAt(k: nat): (at: nat)
    requires k <= 11
  {
    [NAME_AT, MODE_AT, UID_AT, GID_AT, SIZE_AT, MTIME_AT, TYPE_AT, MAGIC_AT, VERSION_AT, UNAME_AT, GNAME_AT, HEADER_SIZE][k]
  }

  function FieldBytes(k: nat, name: seq<int>, kind: int, size: nat, mtime: nat): (b: seq<int>)
  {
    if k == 0 then name
    else if k == 1 then Octal(Mode(kind), 7)
    else if k == 2 || k == 3 then Zeros(7)
    else if k == 4 then Octal(size, 11)
    else if k == 5 then Octal(mtime, 11)
    else if k == 6 then [kind]
    else if k == 7 then MAGIC
    else if k == 8 then [ZERO, ZERO]
    else ROOT
  }

  function Parts(name: seq<int>, kind: int, size: nat, mtime: nat): (p: seq<Part>)
    ensures |p| == 11 && forall k | 0 <= k < 11 :: p[k] == Part(FieldAt(k), FieldBytes(k, name, kind, size, mtime))
  {
    seq(11, k requires 0 <= k < 11 => Part(FieldAt(k), FieldBytes(k, name, kind, size, mtime)))
  }

  lemma Pow8Values()
    ensures Pow8(7) == 2097152 && Pow8(11) == 8589934592
  {
    assert Pow8(3) == 512 && Pow8(7) == 4096 * Pow8(3) && Pow8(11) == 4096 * Pow8(7);
  }

  lemma ModeLength(kind: int)
    ensures |Octal(Mode(kind), 7)| == 7
  {
    Pow8Values();
    OctalSpells(Mode(kind), 7);
  }

  lemma SizeLength(size: nat)
    requires size <= INT_MAX
    ensures |Octal(size, 11)| == 11
  {
    Pow8Values();
    OctalSpells(size, 11);
  }

  lemma FieldEnds(k: nat, name: seq<int>, kind: int, size: nat, mtime: nat)
    requires k < 11 && |name| <= 99 && size <= INT_MAX && mtime <= INT_MAX
    ensures FieldAt(k) + |FieldBytes(k, name, kind, size, mtime)| <= FieldAt(k + 1) <= HEADER_SIZE
  {
    if k == 1 {
      ModeLength(kind);
    } else if k == 4 {
      SizeLength(size);
    } else if k == 5 {
      SizeLength(mtime);
    }
  }

  lemma {:induction false} FieldsAscend(j: nat, k: nat)
    requires j <= k <= 11
    ensures FieldAt(j) <= FieldAt(k)
  {
    if j < k {
      FieldsAscend(j, k - 1);
      assert FieldAt(k - 1) <= FieldAt(k);
    }
  }

  lemma PartsAreApart(name: seq<int>, kind: int, size: nat, mtime: nat)
    requires |name| <= 99 && size <= INT_MAX && mtime <= INT_MAX
    ensures PartsApart(Parts(name, kind, size, mtime))
  {
    var parts := Parts(name, kind, size, mtime);
    forall k: nat | k < 11 ensures Within(parts[k]) { FieldEnds(k, name, kind, size, mtime); }
    forall j, k | 0 <= j < k < 11
      ensures parts[j].at + |parts[j].bytes| <= parts[k].at
    {
      FieldEnds(j, name, kind, size, mtime);
      FieldsAscend(j + 1, k);
    }
  }

  lemma NameBytesOk(name: seq<int>)
    requires NameOk(name)
    ensures BytesOk(name)
  {
    forall i | 0 <= i < |name| ensures 0 <= name[i] < 256 { assert name[i] in name; }
  }

  lemma OctalBytesOk(v: nat, width: nat)
    requires width > 0 && v < Pow8(width)
    ensures BytesOk(Octal(v, width))
  {
    OctalSpells(v, width);
    var o := Octal(v, width);
    forall i | 0 <= i < |o| ensures 0 <= o[i] < 256 { assert OctalDigit(o[i]); }
  }

  lemma FieldBytesOk(k: nat, name: seq<int>, kind: int, size: nat, mtime: nat)
    requires k < 11 && |name| <= 99 && size <= INT_MAX && mtime <= INT_MAX && NameOk(name) && 0 <= kind < 256
    ensures BytesOk(FieldBytes(k, name, kind, size, mtime))
  {
    Pow8Values();
    if k == 0 {
      NameBytesOk(name);
    } else if k == 1 {
      OctalBytesOk(Mode(kind), 7);
    } else if k == 4 {
      OctalBytesOk(size, 11);
    } else if k == 5 {
      OctalBytesOk(mtime, 11);
    }
  }

  /** The header up to its checksum */
  function Unsummed(name: seq<int>, kind: int, size: nat, mtime: nat): (h: seq<int>)
    requires |name| <= 99 && size <= INT_MAX && mtime <= INT_MAX
    ensures |h| == HEADER_SIZE
  {
    PartsAreApart(name, kind, size, mtime);
    var parts := Parts(name, kind, size, mtime);
    PutAll(parts, |parts|)
  }

  /** calculate_chksum() of the first `n` bytes: the checksum field counts as spaces. */
  function Chksum(h: seq<int>, n: nat): (sum: int)
    requires n <= |h|
  {
    if n == 0 then 0
    else Chksum(h, n - 1) + if CHKSUM_AT <= n - 1 < CHKSUM_AT + 8 then SPACE else h[n - 1]
  }

  /** The checksum does not depend on its own field. */
  lemma {:induction false} ChksumIgnoresField(h: seq<int>, h': seq<int>, n: nat)
    requires n <= |h| == |h'| && forall i | 0 <= i < n && !(CHKSUM_AT <= i < CHKSUM_AT + 8) :: h[i] == h'[i]
    ensures Chksum(h, n) == Chksum(h', n)
  {
    if n != 0 { ChksumIgnoresField(h, h', n - 1); }
  }

  lemma {:induction false} ChksumSmall(h: seq<int>, n: nat)
    requires n <= |h| && forall i | 0 <= i < n :: 0 <= h[i] < 256
    ensures 0 <= Chksum(h, n) <= 255 * n
  {
    if n != 0 { ChksumSmall(h, n - 1); }
  }

  datatype Made = TooLong | Made(header: seq<int>)

  /** The whole header */
  function Summed(name: seq<int>, kind: int, size: nat, mtime: nat): (h: seq<int>)
    requires |name| <= 99 && size <= INT_MAX && mtime <= INT_MAX && NameOk(name) && 0 <= kind < 256
    ensures |h| == HEADER_SIZE
  {
    SumFits(name, kind, size, mtime);
    var h := Unsummed(name, kind, size, mtime);
    Put(h, CHKSUM_AT, Octal(Chksum(h, HEADER_SIZE), 7))
  }

  /** ustar_make_header() */
  function Make(name: seq<int>, kind: int, size: nat, mtime: nat): (r: Made)
    requires size <= INT_MAX && mtime <= INT_MAX && NameOk(name) && (kind == REGULAR || kind == DIRECTORY)
  {
    StripKeepsBytes(name);
    if |Strip(name)| > 99 then TooLong else Made(Summed(Strip(name), kind, size, mtime))
  }

  lemma SumFits(name: seq<int>, kind: int, size: nat, mtime: nat)
    requires |name| <= 99 && size <= INT_MAX && mtime <= INT_MAX && NameOk(name) && 0 <= kind < 256
    ensures var sum := Chksum(Unsummed(name, kind, size, mtime), HEADER_SIZE);
            0 <= sum < Pow8(7) && sum <= ULONG_MAX && |Octal(sum, 7)| == 7
  {
    var h := Unsummed(name, kind, size, mtime);
    PartsAreApart(name, kind, size, mtime);
    forall k: nat | k < 11 ensures BytesOk(Parts(name, kind, size, mtime)[k].bytes) { FieldBytesOk(k, name, kind, size, mtime); }
    PutAllBytes(Parts(name, kind, size, mtime), |Parts(name, kind, size, mtime)|);
    ChksumSmall(h, HEADER_SIZE);
    Pow8Values();
    OctalSpells(Chksum(h, HEADER_SIZE), 7);
  }

  /* ----- Parsing ----- */

  datatype Parsed = EndOfArchive | Entry(name: seq<int>, kind: int, size: int) | Error(message: string)

  predicate AllZeros(s: seq<int>)
  {
    forall i | 0 <= i < |s| :: s[i] == 0
  }

  /** ustar_parse_header() */
  function Parse(h: seq<int>): (r: Parsed)
    requires |h| == HEADER_SIZE
  {
    var chksum := ParseFrom(h[CHKSUM_AT..CHKSUM_AT + 8], 0, 0);
    if AllZeros(h) then EndOfArchive
    else if h[MAGIC_AT..MAGIC_AT + 6] != MAGIC then Error("not a ustar archive")
    else if h[VERSION_AT] != ZERO || h[VERSION_AT + 1] != ZERO then Error("invalid ustar version")
    else if chksum.Bad? then Error("corrupt chksum field")
    else if chksum.value != Chksum(h, HEADER_SIZE) then Error("checksum mismatch")
    else if h[NAME_AT + 99] != 0 || h[PREFIX_AT] != 0 then Error("file name too long")
    else if h[TYPE_AT] != REGULAR && h[TYPE_AT] != DIRECTORY then Error("unimplemented file type")
    else ParseSize(h)
  }

  function ParseSize(h: seq<int>): (r: Parsed)
    requires |h| == HEADER_SIZE
  {
    var name := Strip(CString(h[NAME_AT..NAME_AT + 100]));
    if h[TYPE_AT] != REGULAR then Entry(name, h[TYPE_AT], 0)
    else
      match ParseFrom(h[SIZE_AT..SIZE_AT + 12], 0, 0)
      case Bad => Error("corrupt file size field")
      case Number(n) => if n > INT_MAX then Error("file too large") else Entry(name, REGULAR, n)
  }

  /* ----- Round trip ----- */

  ghost predicate Makes(name: seq<int>, kind: int, size: nat, mtime: nat)
  {
    |name| <= 99 && size <= INT_MAX && mtime <= INT_MAX && NameOk(name) && (kind == REGULAR || kind == DIRECTORY)
  }

  /** Field `k` of the header, and a null after it where the field is not full */
  lemma FieldIsThere(name: seq<int>, kind: int, size: nat, mtime: nat, k: nat)
    requires Makes(name, kind, size, mtime) && k < 11
    ensures var h, at, b := Unsummed(name, kind, size, mtime), FieldAt(k), FieldBytes(k, name, kind, size, mtime);
            && at + |b| <= FieldAt(k + 1) <= HEADER_SIZE && h[at..at + |b|] == b
            && forall i | at + |b| <= i < FieldAt(k + 1) :: h[i] == 0
  {
    var parts := Parts(name, kind, size, mtime);
    var h := Unsummed(name, kind, size, mtime);
    PartsAreApart(name, kind, size, mtime);
    PartIsThere(parts, k);
    FieldEnds(k, name, kind, size, mtime);
    forall i | FieldAt(k) + |FieldBytes(k, name, kind, size, mtime)| <= i < FieldAt(k + 1)
      ensures h[i] == 0
    {
      PutAllAt(parts, |parts|, i);
      forall j: nat | j < 11 ensures !Covers(parts[j], i) { GapUncovered(name, kind, size, mtime, k, i, j); }
    }
  }

  lemma GapUncovered(name: seq<int>, kind: int, size: nat, mtime: nat, k: nat, i: nat, j: nat)
    requires Makes(name, kind, size, mtime) && k < 11 && j < 11
    requires FieldAt(k) + |FieldBytes(k, name, kind, size, mtime)| <= i < FieldAt(k + 1)
    ensures !Covers(Parts(name, kind, size, mtime)[j], i)
  {
    FieldEnds(j, name, kind, size, mtime);
    if j < k { FieldsAscend(j + 1, k); }
    if j > k { FieldsAscend(k + 1, j); }
  }

  lemma PutKeeps(h: seq<int>, at: nat, b: seq<int>, lo: nat, hi: nat)
    requires at + |b| <= |h| && lo <= hi <= |h| && (hi <= at || at + |b| <= lo)
    ensures Put(h, at, b)[lo..hi] == h[lo..hi]
  {
    var r := Put(h, at, b);
    forall i | lo <= i < hi ensures r[i] == h[i] { PutAt(h, at, b, i); }
  }

  /** The checksum stored is the checksum computed, before and after it is stored. */
  lemma StoredSum(h: seq<int>, sum: nat)
    requires |h| == HEADER_SIZE && sum == Chksum(h, HEADER_SIZE) && sum < Pow8(7) && sum <= ULONG_MAX && |Octal(sum, 7)| == 7
    requires h[CHKSUM_AT + 7] == 0
    ensures var r := Put(h, CHKSUM_AT, Octal(sum, 7));
            && ParseFrom(r[CHKSUM_AT..CHKSUM_AT + 8], 0, 0) == Number(sum)
            && Chksum(r, HEADER_SIZE) == sum
  {
    var r, digits := Put(h, CHKSUM_AT, Octal(sum, 7)), Octal(sum, 7);
    forall i: nat | CHKSUM_AT <= i < CHKSUM_AT + 8 ensures r[i] == (digits + [0])[i - CHKSUM_AT] { PutAt(h, CHKSUM_AT, digits, i); }
    assert r[CHKSUM_AT..CHKSUM_AT + 8] == digits + [0] + [];
    OctalRoundTrip(sum, 7, []);
    forall i: nat | i < HEADER_SIZE && !(CHKSUM_AT <= i < CHKSUM_AT + 8) ensures h[i] == r[i] { PutAt(h, CHKSUM_AT, Octal(sum, 7), i); }
    ChksumIgnoresField(h, r, HEADER_SIZE);
  }

  /* The fields of the header as the parser reads them */

  lemma ThenZero(u: seq<int>, at: nat, b: seq<int>, to: nat)
    requires at + |b| < to <= |u| && u[at..at + |b|] == b && forall i | at + |b| <= i < to :: u[i] == 0
    ensures u[at..at + |b| + 1] == b + [0] && u[to - 1] == 0
  {
    assert u[at..at + |b| + 1] == u[at..at + |b|] + [u[at + |b|]];
  }

  lemma NameField(name: seq<int>, kind: int, size: nat, mtime: nat)
    requires Makes(name, kind, size, mtime)
    ensures var u := Unsummed(name, kind, size, mtime); u[..|name| + 1] == name + [0] && u[99] == 0
  {
    FieldIsThere(name, kind, size, mtime, 0);
    ThenZero(Unsummed(name, kind, size, mtime), NAME_AT, name, MODE_AT);
  }

  lemma SizeField(name: seq<int>, kind: int, size: nat, mtime: nat)
    requires Makes(name, kind, size, mtime)
    ensures Unsummed(name, kind, size, mtime)[SIZE_AT..SIZE_AT + 12] == Octal(size, 11) + [0]
  {
    SizeLength(size);
    FieldIsThere(name, kind, size, mtime, 4);
    ThenZero(Unsummed(name, kind, size, mtime), SIZE_AT, Octal(size, 11), MTIME_AT);
  }

  lemma SumField(name: seq<int>, kind: int, size: nat, mtime: nat)
    requires Makes(name, kind, size, mtime)
    ensures Unsummed(name, kind, size, mtime)[CHKSUM_AT + 7] == 0
  {
    SizeLength(mtime);
    FieldIsThere(name, kind, size, mtime, 5);
  }

  lemma TypeField(name: seq<int>, kind: int, size: nat, mtime: nat)
    requires Makes(name, kind, size, mtime)
    ensures Unsummed(name, kind, size, mtime)[TYPE_AT] == kind
  {
    var u := Unsummed(name, kind, size, mtime);
    FieldIsThere(name, kind, size, mtime, 6);
    assert u[TYPE_AT..TYPE_AT + 1][0] == kind;
  }

  lemma MagicField(name: seq<int>, kind: int, size: nat, mtime: nat)
    requires Makes(name, kind, size, mtime)
    ensures Unsummed(name, kind, size, mtime)[MAGIC_AT..MAGIC_AT + 6] == MAGIC
  {
    FieldIsThere(name, kind, size, mtime, 7);
  }

  lemma VersionField(name: seq<int>, kind: int, size: nat, mtime: nat)
    requires Makes(name, kind, size, mtime)
    ensures Unsummed(name, kind, size, mtime)[VERSION_AT..VERSION_AT + 2] == [ZERO, ZERO]
  {
    FieldIsThere(name, kind, size, mtime, 8);
  }

  lemma PrefixField(name: seq<int>, kind: int, size: nat, mtime: nat)
    requires Makes(name, kind, size, mtime)
    ensures Unsummed(name, kind, size, mtime)[PREFIX_AT] == 0
  {
    FieldIsThere(name, kind, size, mtime, 10);
  }

  lemma SameSlice(h: seq<int>, u: seq<int>, at: nat, b: seq<int>, lo: nat, hi: nat)
    requires at + |b| <= |u| && h == Put(u, at, b) && lo <= hi <= |u| && (hi <= at || at + |b| <= lo)
    ensures h[lo..hi] == u[lo..hi] && (lo < hi ==> h[lo] == u[lo])
  {
    PutKeeps(u, at, b, lo, hi);
    assert lo < hi ==> h[lo] == h[lo..hi][0] && u[lo] == u[lo..hi][0];
  }

  lemma NameReadsBack(name: seq<int>, h: seq<int>)
    requires |name| <= 99 && NameOk(name) && |h| == HEADER_SIZE && h[..|name| + 1] == name + [0]
    ensures CString(h[NAME_AT..NAME_AT + 100]) == name
  {
    var n := |name|;
    assert h[0..100] == h[..n + 1] + h[n + 1..100];
    assert h[0..100] == name + [0] + h[n + 1..100];
    forall i | 0 <= i < n ensures name[i] != 0 { assert name[i] in name; }
    CStringOf(name, h[n + 1..100]);
  }

  /** Parsing the header made for a file gives back its stripped name, its type and its size; making
      one fails exactly when the stripped name is longer than 99 bytes. */
  lemma HeaderRoundTrip(name: seq<int>, kind: int, size: nat, mtime: nat)
    requires size <= INT_MAX && mtime <= INT_MAX && NameOk(name) && (kind == REGULAR || kind == DIRECTORY)
    ensures match Make(name, kind, size, mtime)
            case TooLong => |Strip(name)| > 99
            case Made(h) => |h| == HEADER_SIZE && Parse(h) == Entry(Strip(name), kind, if kind == REGULAR then size else 0)
  {
    var stripped := Strip(name);
    StripKeepsBytes(name);
    StripIsFinal(name);
    if |stripped| <= 99 { MadeReadsBack(stripped, kind, size, mtime, Make(name, kind, size, mtime).header); }
  }

  lemma MadeReadsBack(name: seq<int>, kind: int, size: nat, mtime: nat, h: seq<int>)
    requires Makes(name, kind, size, mtime) && Strip(name) == name && h == Summed(name, kind, size, mtime)
    ensures Parse(h) == Entry(name, kind, if kind == REGULAR then size else 0)
  {
    var u := Unsummed(name, kind, size, mtime);
    var sum := Chksum(u, HEADER_SIZE);
    SumFits(name, kind, size, mtime);
    SumField(name, kind, size, mtime);
    StoredSum(u, sum);
    HeadReadsBack(name, kind, size, mtime, u, h, Octal(sum, 7));
    TailReadsBack(name, kind, size, mtime, u, h, Octal(sum, 7));
    assert h[TYPE_AT] != 0;
  }

  lemma HeadReadsBack(name: seq<int>, kind: int, size: nat, mtime: nat, u: seq<int>, h: seq<int>, b: seq<int>)
    requires Makes(name, kind, size, mtime) && u == Unsummed(name, kind, size, mtime) && |b| == 7 && h == Put(u, CHKSUM_AT, b)
    ensures CString(h[NAME_AT..NAME_AT + 100]) == name && h[NAME_AT + 99] == 0
    ensures ParseFrom(h[SIZE_AT..SIZE_AT + 12], 0, 0) == Number(size)
  {
    NameField(name, kind, size, mtime);
    SameSlice(h, u, CHKSUM_AT, b, 0, |name| + 1);
    SameSlice(h, u, CHKSUM_AT, b, 99, 100);
    NameReadsBack(name, h);
    SizeField(name, kind, size, mtime);
    SameSlice(h, u, CHKSUM_AT, b, SIZE_AT, SIZE_AT + 12);
    Pow8Values();
    OctalRoundTrip(size, 11, []);
    assert Octal(size, 11) + [0] + [] == Octal(size, 11) + [0];
  }

  lemma TailReadsBack(name: seq<int>, kind: int, size: nat, mtime: nat, u: seq<int>, h: seq<int>, b: seq<int>)
    requires Makes(name, kind, size, mtime) && u == Unsummed(name, kind, size, mtime) && |b| == 7 && h == Put(u, CHKSUM_AT, b)
    ensures h[TYPE_AT] == kind && h[MAGIC_AT..MAGIC_AT + 6] == MAGIC && h[PREFIX_AT] == 0
    ensures h[VERSION_AT] == ZERO && h[VERSION_AT + 1] == ZERO
  {
    TypeField(name, kind, size, mtime);
    MagicField(name, kind, size, mtime);
    VersionField(name, kind, size, mtime);
    PrefixField(name, kind, size, mtime);
    SameSlice(h, u, CHKSUM_AT, b, TYPE_AT, TYPE_AT + 1);
    SameSlice(h, u, CHKSUM_AT, b, MAGIC_AT, MAGIC_AT + 6);
    SameSlice(h, u, CHKSUM_AT, b, VERSION_AT, VERSION_AT + 2);
    SameSlice(h, u, CHKSUM_AT, b, PREFIX_AT, PREFIX_AT + 1);
    assert h[VERSION_AT..VERSION_AT + 2][0] == ZERO && h[VERSION_AT..VERSION_AT + 2][1] == ZERO;
  }
}
