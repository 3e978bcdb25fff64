/** pte.h and pagedir.c: x86 page tables of two levels. Pages and frames are known by their numbers;
    an entry is a 32-bit word that holds a frame number and flag bits. */
module PageTable {
  import opened Bits
  import opened Bitmaps

  const PGBITS := 12
  const ENTRIES := 1024
  const USER_PAGES := 0xC0000
  const PTE_P := 1
  const PTE_W := 2
  const PTE_U := 4

  /* ----- Entries ----- */

  lemma {:induction false} OrLow(a: nat, f: nat, n: nat)
    requires f < Pow2(n)
    ensures Or(a * Pow2(n), f) == a * Pow2(n) + f
  {
    if n == 0 {
      OrZero(a);
    } else {
      OrLow(a, f / 2, n - 1);
      Twice(a, Pow2(n - 1));
      OrDouble(a * Pow2(n - 1), f);
    }
  }

  lemma OrDouble(x: nat, f: nat)
    ensures Or(2 * x, f) == 2 * Or(x, f / 2) + f % 2
  {
    assert (2 * x) / 2 == x && (2 * x) % 2 == 0;
  }

  lemma {:induction false} OrZero(a: nat)
    ensures Or(a, 0) == a
  {
    if a != 0 { OrZero(a / 2); }
  }

  /** The frame in the address bits of a word; PTE_ADDR masks them out, by AddrBits. */
  function FrameOf(w: nat): (f: nat)
  {
    w / Pow2(PGBITS)
  }

  lemma {:induction false} AndHigh(q: nat, r: nat, n: nat, bits: nat)
    requires n <= bits && r < Pow2(n) && q * Pow2(n) + r < Pow2(bits)
    ensures Pow2(n) <= Pow2(bits) && And(q * Pow2(n) + r, Pow2(bits) - Pow2(n)) == q * Pow2(n)
  {
    if n == 0 {
      AndOnes(q, bits);
    } else {
      var x, m := q * Pow2(n - 1), Pow2(bits - 1) - Pow2(n - 1);
      Twice(q, Pow2(n - 1));
      AndHigh(q, r / 2, n - 1, bits - 1);
      AndDigits(x + r / 2, m, r % 2, 0);
      assert 2 * (x + r / 2) + r % 2 == 2 * x + r;
    }
  }

  lemma Twice(q: nat, p: nat)
    ensures q * (2 * p) == 2 * (q * p)
  {
  }

  lemma {:induction false} AndOnes(w: nat, bits: nat)
    requires w < Pow2(bits)
    ensures And(w, Pow2(bits) - 1) == w
  {
    if bits > 0 {
      AndOnes(w / 2, bits - 1);
      AndDigits(w / 2, Pow2(bits - 1) - 1, w % 2, 1);
    }
  }

  /** PTE_ADDR, which is 0xfffff000 where words have 32 bits, masks out the frame. */
  lemma AddrBits(w: nat, bits: nat)
    requires PGBITS <= bits && w < Pow2(bits)
    ensures Pow2(PGBITS) <= Pow2(bits) && And(w, Pow2(bits) - Pow2(PGBITS)) == FrameOf(w) * Pow2(PGBITS)
  {
    DivMod(w, Pow2(PGBITS));
    AndHigh(FrameOf(w), w % Pow2(PGBITS), PGBITS, bits);
  }

  lemma DivMod(w: nat, p: nat)
    requires p > 0
    ensures w == (w / p) * p + w % p && w % p < p
  {
  }

  predicate Present(w: nat)
  {
    And(w, PTE_P) != 0
  }

  predicate Writable(w: nat)
  {
    And(w, PTE_W) != 0
  }

  predicate ForUser(w: nat)
  {
    And(w, PTE_U) != 0
  }

  /** vtop(page) with flags, as pde_create() and pte_create_user() compute it */
  function Entry(frame: nat, flags: nat): (w: nat)
  {
    Or(frame * Pow2(PGBITS), flags)
  }

  function UserFlags(writable: bool): (f: nat)
  {
    Or(Or(PTE_P, if writable then PTE_W else 0), PTE_U)
  }

  /** pte_get_page() and pde_get_pt() undo pte_create_user() and pde_create(). */
  lemma EntryReadsBack(frame: nat, writable: bool)
    ensures var w := Entry(frame, UserFlags(writable));
            && w == frame * 4096 + (if writable then 7 else 5)
            && FrameOf(w) == frame && Present(w) && Writable(w) == writable && ForUser(w)
  {
    var f := UserFlags(writable);
    assert f == if writable then 7 else 5;
    OrLow(frame, f, PGBITS);
    assert Pow2(PGBITS) == 4096;
    LowBits(frame * 4096 + f, frame, f);
  }

  lemma LowBits(w: nat, frame: nat, f: nat)
    requires (f == 5 || f == 7) && w == frame * 4096 + f
    ensures Present(w) && Writable(w) == (f == 7) && ForUser(w)
  {
    var quarter := frame * 1024 + 1;
    var half := 2 * quarter + if f == 7 then 1 else 0;
    Halves(quarter, if f == 7 then 1 else 0, half);
    Halves(half, 1, w);
    Halves(frame * 512, 1, quarter);
    FlagBits(w, half, quarter);
  }

  lemma Halves(x: nat, digit: nat, y: nat)
    requires digit < 2 && y == 2 * x + digit
    ensures y / 2 == x && y % 2 == digit
  {
  }

  lemma FlagBits(w: nat, half: nat, quarter: nat)
    requires half == w / 2 && quarter == half / 2
    ensures Present(w) == (w % 2 == 1) && Writable(w) == (half % 2 == 1) && ForUser(w) == (quarter % 2 == 1)
  {
    assert Pow2(0) == PTE_P && Pow2(1) == PTE_W && Pow2(2) == PTE_U;
    TestsBit(w, 0);
    TestsBit(w, 1);
    TestsBit(w, 2);
    assert Bit(half, 1) == Bit(quarter, 0);
  }

  /* ----- Two levels ----- */

  /** The page directory, and the page tables by their frames */
  datatype Tables = Tables(pd: seq<nat>, pts: map<nat, seq<nat>>)

  datatype Mapping = Unmapped | Mapped(frame: nat, writable: bool)

  /** pd_no() and pt_no() */
  function PdNo(v: nat): (n: nat)
  {
    v / ENTRIES
  }

  function PtNo(v: nat): (n: nat)
    ensures n < ENTRIES
  {
    v % ENTRIES
  }

  /** Every entry in the directory that is not zero leads to a page table of its own. */
  ghost predicate TablesOk(t: Tables)
  {
    && |t.pd| == ENTRIES
    && (forall d | 0 <= d < ENTRIES && t.pd[d] != 0 :: Present(t.pd[d]) && FrameOf(t.pd[d]) in t.pts && |t.pts[FrameOf(t.pd[d])]| == ENTRIES)
    && (forall d, e | 0 <= d < e < ENTRIES && t.pd[d] != 0 && t.pd[e] != 0 :: FrameOf(t.pd[d]) != FrameOf(t.pd[e]))
  }

  predicate UserPage(v: nat)
  {
    v < USER_PAGES
  }

  /** The frame pagedir_get_page() finds for page `v`, and whether its entry allows writes */
  function Translate(t: Tables, v: nat): (m: Mapping)
    requires TablesOk(t) && UserPage(v)
  {
    var pde := t.pd[PdNo(v)];
    if pde == 0 then Unmapped
    else
      var pte := t.pts[FrameOf(pde)][PtNo(v)];
      if Present(pte) then Mapped(FrameOf(pte), Writable(pte)) else Unmapped
  }

  /** What the processor makes of page `v` for a user program: both entries must be present and for
      the user, and writes need both entries to allow them. */
  function UserAccess(t: Tables, v: nat): (m: Mapping)
    requires TablesOk(t) && UserPage(v)
  {
    var pde := t.pd[PdNo(v)];
    if !Present(pde) || !ForUser(pde) || pde == 0 then Unmapped
    else
      var pte := t.pts[FrameOf(pde)][PtNo(v)];
      if Present(pte) && ForUser(pte) then Mapped(FrameOf(pte), Writable(pde) && Writable(pte)) else Unmapped
  }

  /** Page tables are open to the user and to writes, and present pages are open to the user. */
  ghost predicate OpenToUser(t: Tables)
  {
    && (forall d | 0 <= d < |t.pd| && t.pd[d] != 0 :: Writable(t.pd[d]) && ForUser(t.pd[d]))
    && (forall f, i | f in t.pts && 0 <= i < |t.pts[f]| && Present(t.pts[f][i]) :: ForUser(t.pts[f][i]))
  }

  /** What the kernel maps is what a user program gets, page by page. */
  lemma UserSeesMapping(t: Tables, v: nat)
    requires TablesOk(t) && OpenToUser(t) && UserPage(v)
    ensures UserAccess(t, v) == Translate(t, v)
  {
    ZeroNotPresent();
  }

  /** lookup_page() with `create`: a new table of zeros on frame `pt` */
  function WithTable(t: Tables, d: nat, pt: nat): (t': Tables)
    requires d < |t.pd|
  {
    t.(pd := t.pd[d := Entry(pt, UserFlags(true))], pts := t.pts[pt := seq(ENTRIES, _ => 0)])
  }

  function WithEntry(t: Tables, v: nat, w: nat): (t': Tables)
    requires TablesOk(t) && UserPage(v) && t.pd[PdNo(v)] != 0
  {
    var f := FrameOf(t.pd[PdNo(v)]);
    var pt: seq<nat> := t.pts[f][PtNo(v) := w];
    t.(pts := t.pts[f := pt])
  }

  lemma ZeroNotPresent()
    ensures !Present(0) && And(0, PTE_P) == 0
  {
  }

  /** A new page table maps nothing. */
  lemma NewTableKeeps(t: Tables, d: nat, pt: nat)
    requires TablesOk(t) && d < ENTRIES && t.pd[d] == 0 && pt !in t.pts
    ensures TablesOk(WithTable(t, d, pt)) && (OpenToUser(t) ==> OpenToUser(WithTable(t, d, pt)))
    ensures forall v: nat | UserPage(v) :: Translate(WithTable(t, d, pt), v) == Translate(t, v)
  {
    EntryReadsBack(pt, true);
    ZeroNotPresent();
  }

  /** Writing an entry changes what one page translates to, and no other. */
  lemma EntryWritten(t: Tables, v: nat, w: nat)
    requires TablesOk(t) && UserPage(v) && t.pd[PdNo(v)] != 0
    ensures TablesOk(WithEntry(t, v, w)) && (OpenToUser(t) && (Present(w) ==> ForUser(w)) ==> OpenToUser(WithEntry(t, v, w)))
    ensures Translate(WithEntry(t, v, w), v) == if Present(w) then Mapped(FrameOf(w), Writable(w)) else Unmapped
    ensures forall u: nat | UserPage(u) && u != v :: Translate(WithEntry(t, v, w), u) == Translate(t, u)
  {
    forall u: nat | UserPage(u) && u != v
      ensures Translate(WithEntry(t, v, w), u) == Translate(t, u)
    {
      assert PdNo(u) == PdNo(v) ==> PtNo(u) != PtNo(v);
    }
  }

  /** *pte &= ~PTE_P leaves the page not present. */
  lemma ClearedNotPresent(w: nat)
    ensures PTE_P < Pow2(32) && !Present(And(w, Not(PTE_P, 32)))
  {
    Pow2Grows(0, 32);
    var r := And(w, Not(PTE_P, 32));
    BitAnd(w, Not(PTE_P, 32), 0);
    BitNot(PTE_P, 32, 0);
    assert Pow2(0) == PTE_P;
    TestsBit(r, 0);
  }

  /** ... and no other bit changed. */
  lemma ClearedKeepsBits(w: nat, k: nat)
    requires 0 < k < 32
    ensures PTE_P < Pow2(32) && Bit(And(w, Not(PTE_P, 32)), k) == Bit(w, k)
  {
    Pow2Grows(0, 32);
    BitAnd(w, Not(PTE_P, 32), k);
    BitNot(PTE_P, 32, k);
    assert Pow2(0) == PTE_P;
    BitPow2(0, k);
  }

  /** The page table entry of page `v`, of which there is one if the directory has a table */
  function EntryOf(t: Tables, v: nat): (w: nat)
    requires TablesOk(t) && UserPage(v) && t.pd[PdNo(v)] != 0
  {
    t.pts[FrameOf(t.pd[PdNo(v)])][PtNo(v)]
  }

  /* ----- pagedir.c in place ----- */

  class PageDirectory {
    var tables: Tables

    ghost predicate Valid()
      reads this
    {
      TablesOk(tables) && OpenToUser(tables)
    }

    constructor ()
      ensures Valid() && tables.pts == map[] && forall v: nat | UserPage(v) :: Translate(tables, v) == Unmapped
    {
      tables := Tables(seq(ENTRIES, _ => 0), map[]);
    }

    /** Every page of the user is as its page table says. */
    lemma UserSees()
      requires Valid()
      ensures forall v: nat | UserPage(v) :: UserAccess(tables, v) == Translate(tables, v)
    {
      forall v: nat | UserPage(v) ensures UserAccess(tables, v) == Translate(tables, v) { UserSeesMapping(tables, v); }
    }

    /** pagedir_get_page() */
    method GetPage(v: nat) returns (m: Mapping)
      requires Valid() && UserPage(v)
      ensures m == Translate(tables, v)
    {
      var pde := tables.pd[PdNo(v)];
      if pde == 0 {
        return Unmapped;
      }
      var pte := tables.pts[FrameOf(pde)][PtNo(v)];
      return if Present(pte) then Mapped(FrameOf(pte), Writable(pte)) else Unmapped;
    }

    /** The part of lookup_page() that creates a table on frame `pt` when there is none */
    method EnsureTable(v: nat, pt: nat)
      requires Valid() && UserPage(v) && pt !in tables.pts
      modifies this
      ensures Valid() && tables.pd[PdNo(v)] != 0
      ensures tables == if old(tables).pd[PdNo(v)] == 0 then WithTable(old(tables), PdNo(v), pt) else old(tables)
      ensures forall u: nat | UserPage(u) :: Translate(tables, u) == Translate(old(tables), u)
    {
      if tables.pd[PdNo(v)] == 0 {
        NewTableKeeps(tables, PdNo(v), pt);
        EntryReadsBack(pt, true);
        tables := WithTable(tables, PdNo(v), pt);
      }
    }

    /** pagedir_set_page() of a page that is not mapped; `spare` is the frame for a page table if
        one is needed and to be had. */
    method SetPage(v: nat, frame: nat, writable: bool, spare: Found) returns (ok: bool)
      requires Valid() && UserPage(v) && Translate(tables, v) == Unmapped
      requires spare.At? ==> spare.index !in tables.pts
      modifies this
      ensures Valid() && ok == (old(tables).pd[PdNo(v)] != 0 || spare.At?)
      ensures ok ==> Translate(tables, v) == UserAccess(tables, v) == Mapped(frame, writable)
      ensures !ok ==> tables == old(tables)
      ensures forall u: nat | UserPage(u) && u != v :: Translate(tables, u) == Translate(old(tables), u)
    {
      if tables.pd[PdNo(v)] == 0 {
        if spare.NotFound? {
          return false;
        }
        EnsureTable(v, spare.index);
      }
      MapPage(v, frame, writable);
      UserSeesMapping(tables, v);
      return true;
    }

    /** The same once there is a page table */
    method MapPage(v: nat, frame: nat, writable: bool)
      requires Valid() && UserPage(v) && tables.pd[PdNo(v)] != 0 && Translate(tables, v) == Unmapped
      modifies this
      ensures Valid() && tables.pts.Keys == old(tables).pts.Keys && tables.pd == old(tables).pd
      ensures Translate(tables, v) == Mapped(frame, writable)
      ensures forall u: nat | UserPage(u) && u != v :: Translate(tables, u) == Translate(old(tables), u)
    {
      var w := Entry(frame, UserFlags(writable));
      EntryReadsBack(frame, writable);
      EntryWritten(tables, v, w);
      tables := WithEntry(tables, v, w);
    }

    /** pagedir_clear_page() */
    method ClearPage(v: nat)
      requires Valid() && UserPage(v)
      modifies this
      ensures Valid() && Translate(tables, v) == Unmapped && tables.pd == old(tables).pd
      ensures forall u: nat | UserPage(u) && u != v :: Translate(tables, u) == Translate(old(tables), u)
      ensures tables.pd[PdNo(v)] != 0 ==>
                forall k: nat | 0 < k < 32 :: Bit(EntryOf(tables, v), k) == Bit(EntryOf(old(tables), v), k)
    {
      var pde := tables.pd[PdNo(v)];
      if pde != 0 {
        var pte := tables.pts[FrameOf(pde)][PtNo(v)];
        if Present(pte) {
          ClearedNotPresent(pte);
          var w := And(pte, Not(PTE_P, 32));
          forall k: nat | 0 < k < 32 ensures Bit(w, k) == Bit(pte, k) { ClearedKeepsBits(pte, k); }
          EntryWritten(tables, v, w);
          tables := WithEntry(tables, v, w);
        }
      }
    }
  }
}
