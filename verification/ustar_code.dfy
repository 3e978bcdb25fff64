/** The loops of ustar.c and of format_integer(), against the functions of module Ustar. */
module UstarCode {
  import opened Ustar
  import opened UstarFormat

  lemma {:induction false} ReversedAppend(s: seq<int>, c: int)
    ensures Reversed(s + [c]) == [c] + Reversed(s)
  {
    if s == [] {
      assert s + [c] == [c];
    } else {
      ReversedAppend(s[1..], c);
      assert (s + [c])[1..] == s[1..] + [c];
    }
  }

  /** format_integer() for "%0<width>o": digits collected backwards, then padding, then the digits */
  method FormatOctal(v: nat, width: nat) returns (r: seq<int>)
    ensures r == Octal(v, width)
  {
    var buf := CollectDigits(v);
    var pad := if |buf| < width then width - |buf| else 0;
    r := OutputReversed(Zeros(pad), buf);
  }

  method CollectDigits(v: nat) returns (buf: seq<int>)
    ensures buf == if v == 0 then [ZERO] else Digits(v)
  {
    buf := [];
    var value := v;
    while value > 0
      invariant buf + Digits(value) == Digits(v)
    {
      buf := buf + [ZERO + value % 8];
      value := value / 8;
    }
    assert buf == Digits(v);
    if |buf| < 1 {
      buf := buf + [ZERO];
    }
  }

  method OutputReversed(out: seq<int>, buf: seq<int>) returns (r: seq<int>)
    ensures r == out + Reversed(buf)
  {
    r := out;
    var cp := |buf|;
    assert buf[..cp] == buf;
    while cp > 0
      invariant 0 <= cp <= |buf| && r + Reversed(buf[..cp]) == out + Reversed(buf)
    {
      assert buf[..cp] == buf[..cp - 1] + [buf[cp - 1]];
      ReversedAppend(buf[..cp - 1], buf[cp - 1]);
      cp := cp - 1;
      r := r + [buf[cp]];
    }
  }

  /** parse_octal_field() */
  method ParseOctalField(s: seq<int>) returns (r: Number)
    ensures r == ParseFrom(s, 0, 0)
  {
    var value := 0;
    for ofs := 0 to |s|
      invariant ParseFrom(s, ofs, value) == ParseFrom(s, 0, 0)
    {
      var c := s[ofs];
      if ZERO <= c <= ZERO + 7 {
        if value > ULONG_MAX / 8 {
          return Bad;
        }
        value := c - ZERO + value * 8;
      } else if c == SPACE || c == 0 {
        return if ofs > 0 then Number(value) else Bad;
      } else {
        return Bad;
      }
    }
    return Bad;
  }

  /** calculate_chksum() */
  method CalculateChksum(h: seq<int>) returns (sum: int)
    requires |h| == HEADER_SIZE
    ensures sum == Chksum(h, HEADER_SIZE)
  {
    sum := 0;
    for i := 0 to HEADER_SIZE
      invariant sum == Chksum(h, i)
    {
      var inField := CHKSUM_AT <= i < CHKSUM_AT + 8;
      sum := sum + if inField then SPACE else h[i];
    }
  }

  /** strip_antisocial_prefixes(); each turn makes the name shorter, so the loop ends. */
  method StripPrefixes(name: seq<int>) returns (r: seq<int>)
    ensures r == Strip(name) && exists k: nat :: StrippedAt(name, r, k)
  {
    ghost var k := StripIs(name);
    r := name;
    while Antisocial(r)
      invariant Strip(r) == Strip(name)
      decreases |r|
    {
      r := AfterSlash(r);
    }
    if r == [] || r == [DOT, DOT] {
      r := [DOT];
    }
  }

  /** memcpy() into the header */
  method PutField(h: array<int>, at: nat, b: seq<int>)
    requires at + |b| <= h.Length
    modifies h
    ensures h[..] == Put(old(h[..]), at, b)
  {
    for i := 0 to |b|
      invariant Put(h[..], at + i, b[i..]) == Put(old(h[..]), at, b)
    {
      ghost var now := h[..];
      h[at + i] := b[i];
      assert h[..] == now[at + i := b[i]] && b[i..][1..] == b[i + 1..];
    }
  }

  /** ustar_make_header() into a buffer of the caller's */
  method MakeHeader(name: seq<int>, kind: int, size: nat, h: array<int>) returns (ok: bool)
    requires size <= INT_MAX && NameOk(name) && (kind == REGULAR || kind == DIRECTORY) && h.Length == HEADER_SIZE
    modifies h
    ensures match Make(name, kind, size, MTIME)
            case TooLong => !ok && h[..] == old(h[..])
            case Made(header) => ok && h[..] == header
    ensures ok ==> Layout(h[..], Strip(name), if kind == REGULAR then 420 else 493, size, 1136102400, kind)
  {
    MadeLayout(name, kind, size, MTIME);
    StripKeepsBytes(name);
    var stripped := StripPrefixes(name);
    if |stripped| > 99 {
      return false;
    }
    FillHeader(stripped, kind, size, MTIME, h);
    SumFits(stripped, kind, size, MTIME);
    var sum := CalculateChksum(h[..]);
    var digits := FormatOctal(sum, 7);
    PutField(h, CHKSUM_AT, digits);
    return true;
  }

  method Clear(h: array<int>)
    modifies h
    ensures h[..] == seq(h.Length, _ => 0)
  {
    for i := 0 to h.Length
      invariant forall j | 0 <= j < i :: h[j] == 0
    {
      h[i] := 0;
    }
  }

  /** The header with its first `k` fields filled in */
  ghost function Filled(name: seq<int>, kind: int, size: nat, mtime: nat, k: nat): (h: seq<int>)
    requires |name| <= 99 && size <= INT_MAX && mtime <= INT_MAX && k <= 11
  {
    PartsAreApart(name, kind, size, mtime);
    PutAll(Parts(name, kind, size, mtime), k)
  }

  method FillHeader(name: seq<int>, kind: int, size: nat, mtime: nat, h: array<int>)
    requires |name| <= 99 && size <= INT_MAX && mtime <= INT_MAX && h.Length == HEADER_SIZE
    modifies h
    ensures h[..] == Unsummed(name, kind, size, mtime)
  {
    Clear(h);
    FillNumbers(name, kind, size, mtime, h, 0);
    FillTail(name, kind, size, mtime, h, 6);
  }

  method FillNumbers(name: seq<int>, kind: int, size: nat, mtime: nat, h: array<int>, ghost k: nat)
    requires |name| <= 99 && size <= INT_MAX && mtime <= INT_MAX && h.Length == HEADER_SIZE
    requires k == 0 && h[..] == Filled(name, kind, size, mtime, k)
    modifies h
    ensures h[..] == Filled(name, kind, size, mtime, k + 6)
  {
    PutPart(name, kind, size, mtime, h, k, NAME_AT, name);
    var mode := FormatOctal(Mode(kind), 7);
    PutPart(name, kind, size, mtime, h, k + 1, MODE_AT, mode);
    PutPart(name, kind, size, mtime, h, k + 2, UID_AT, Zeros(7));
    PutPart(name, kind, size, mtime, h, k + 3, GID_AT, Zeros(7));
    var sizeDigits := FormatOctal(size, 11);
    PutPart(name, kind, size, mtime, h, k + 4, SIZE_AT, sizeDigits);
    var time := FormatOctal(mtime, 11);
    PutPart(name, kind, size, mtime, h, k + 5, MTIME_AT, time);
  }

  method FillTail(name: seq<int>, kind: int, size: nat, mtime: nat, h: array<int>, ghost k: nat)
    requires |name| <= 99 && size <= INT_MAX && mtime <= INT_MAX && h.Length == HEADER_SIZE
    requires k == 6 && h[..] == Filled(name, kind, size, mtime, k)
    modifies h
    ensures h[..] == Filled(name, kind, size, mtime, k + 5)
  {
    PutPart(name, kind, size, mtime, h, k, TYPE_AT, [kind]);
    PutPart(name, kind, size, mtime, h, k + 1, MAGIC_AT, MAGIC);
    PutPart(name, kind, size, mtime, h, k + 2, VERSION_AT, [ZERO, ZERO]);
    PutPart(name, kind, size, mtime, h, k + 3, UNAME_AT, ROOT);
    PutPart(name, kind, size, mtime, h, k + 4, GNAME_AT, ROOT);
  }

  method PutPart(ghost name: seq<int>, ghost kind: int, ghost size: nat, ghost mtime: nat, h: array<int>, ghost k: nat, at: nat, b: seq<int>)
    requires |name| <= 99 && size <= INT_MAX && mtime <= INT_MAX && h.Length == HEADER_SIZE && k < 11
    requires at == FieldAt(k) && b == FieldBytes(k, name, kind, size, mtime) && h[..] == Filled(name, kind, size, mtime, k)
    modifies h
    ensures h[..] == Filled(name, kind, size, mtime, k + 1)
  {
    PartsAreApart(name, kind, size, mtime);
    assert Parts(name, kind, size, mtime)[k] == Part(at, b) && Within(Part(at, b));
    PutField(h, at, b);
  }
}
