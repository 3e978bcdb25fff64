/** malloc.c: small blocks carved out of one-page arenas, big ones given pages of their own.
    A pointer is a page number and an offset in that page. */
module Malloc {
  import opened Bitmaps
  import opened Palloc

  const ARENA_HEADER := 12
  const DESC_CNT := 7
  const SIZE_RANGE := 0x1_0000_0000

  datatype Addr = Addr(page: nat, ofs: nat)
  datatype Pointer = Null | Pointer(addr: Addr)

  /** struct arena; `desc` is null for a big block, which Big stands for. */
  datatype Arena = Small(desc: nat, freeCnt: nat) | Big(pages: nat)

  type FreeLists = l: seq<seq<Addr>> | |l| == DESC_CNT witness [[], [], [], [], [], [], []]

  /** The kernel pool, the free list of each descriptor, and the arenas by their page */
  datatype Heap = Heap(pool: Pool, free: FreeLists, arenas: map<nat, Arena>)

  datatype Outcome = Outcome(heap: Heap, block: Pointer)

  /* ----- Descriptors and blocks ----- */

  function BlockSize(d: nat): (n: nat)
    ensures n >= 16
  {
    if d == 0 then 16 else 2 * BlockSize(d - 1)
  }

  lemma Quotient(x: int, c: int)
    requires x >= 0 && c > 0
    ensures x / c >= 0 && (x / c) * c <= x
  {
  }

  function PerArena(d: nat): (n: nat)
    ensures n * BlockSize(d) <= PGSIZE - ARENA_HEADER
  {
    Quotient(PGSIZE - ARENA_HEADER, BlockSize(d));
    (PGSIZE - ARENA_HEADER) / BlockSize(d)
  }

  /** The block sizes malloc_init() stops at: powers of two that leave room for two in a page */
  lemma BlockSizes()
    ensures forall d: nat | d < DESC_CNT :: BlockSize(d) < PGSIZE / 2 && PerArena(d) >= 3
    ensures forall d: nat | d < DESC_CNT :: BlockSize(d) == [16, 32, 64, 128, 256, 512, 1024][d]
    ensures forall d: nat | d < DESC_CNT :: PerArena(d) == [255, 127, 63, 31, 15, 7, 3][d]
    ensures BlockSize(DESC_CNT) >= PGSIZE / 2
  {
    assert BlockSize(0) == 16 && BlockSize(1) == 32 && BlockSize(2) == 64 && BlockSize(3) == 128;
    assert BlockSize(4) == 256 && BlockSize(5) == 512 && BlockSize(6) == 1024 && BlockSize(7) == 2048;
  }

  /** arena_to_block() */
  function BlockAt(page: nat, d: nat, i: nat): (b: Addr)
  {
    Addr(page, ARENA_HEADER + i * BlockSize(d))
  }

  function Blocks(page: nat, d: nat): (l: seq<Addr>)
    ensures |l| == PerArena(d) && forall b | b in l :: b.page == page
  {
    seq(PerArena(d), i requires i >= 0 => BlockAt(page, d, i))
  }

  lemma MulStep(i: int, j: int, c: int)
    requires i < j && c >= 0
    ensures i * c + c <= j * c
  {
    calc {
      j * c;
      (i + 1) * c + (j - i - 1) * c;
    >= { NonNegative(j - i - 1, c); }
      (i + 1) * c;
      i * c + c;
    }
  }

  lemma NonNegative(a: int, b: int)
    requires a >= 0 && b >= 0
    ensures a * b >= 0
  {
  }

  /** Blocks of an arena lie past its header, inside its page, and one after the other. */
  lemma BlocksApart(page: nat, d: nat, i: nat, j: nat)
    requires i < PerArena(d) && j < PerArena(d)
    ensures ARENA_HEADER <= BlockAt(page, d, i).ofs && BlockAt(page, d, i).ofs + BlockSize(d) <= PGSIZE
    ensures i < j ==> BlockAt(page, d, i).ofs + BlockSize(d) <= BlockAt(page, d, j).ofs
    ensures i != j ==> BlockAt(page, d, i) != BlockAt(page, d, j)
  {
    MulStep(i, PerArena(d), BlockSize(d));
    if i < j { MulStep(i, j, BlockSize(d)); }
    if j < i { MulStep(j, i, BlockSize(d)); }
  }

  /* ----- Lists ----- */

  ghost predicate Distinct(l: seq<Addr>)
  {
    forall i, j | 0 <= i < j < |l| :: l[i] != l[j]
  }

  ghost function OnPage(l: seq<Addr>, page: nat): (s: set<Addr>)
  {
    set b | b in l && b.page == page
  }

  lemma {:induction false} OnlyOnPage(l: seq<Addr>, page: nat)
    requires Distinct(l) && forall b | b in l :: b.page == page
    ensures |OnPage(l, page)| == |l|
  {
    if l == [] {
    } else {
      OnlyOnPage(l[1..], page);
      assert OnPage(l, page) == OnPage(l[1..], page) + {l[0]};
      assert l[0] !in OnPage(l[1..], page);
    }
  }

  lemma BlocksDistinct(page: nat, d: nat)
    ensures Distinct(Blocks(page, d)) && |OnPage(Blocks(page, d), page)| == PerArena(d)
  {
    forall i, j | 0 <= i < j < PerArena(d) ensures Blocks(page, d)[i] != Blocks(page, d)[j] {
      BlocksApart(page, d, i, j);
    }
    OnlyOnPage(Blocks(page, d), page);
  }

  /** list_remove() of an element by its address */
  function Without(l: seq<Addr>, b: Addr): (r: seq<Addr>)
  {
    if l == [] then [] else if l[0] == b then l[1..] else [l[0]] + Without(l[1..], b)
  }

  /** The loop of free() that takes the first `n` blocks of an arena off the free list */
  function WithoutBlocks(l: seq<Addr>, page: nat, d: nat, n: nat): (r: seq<Addr>)
  {
    if n == 0 then l else Without(WithoutBlocks(l, page, d, n - 1), BlockAt(page, d, n - 1))
  }

  lemma {:induction false} WithoutElems(l: seq<Addr>, b: Addr)
    requires Distinct(l)
    ensures Distinct(Without(l, b))
    ensures forall x :: x in Without(l, b) <==> x in l && x != b
  {
    if l == [] || l[0] == b {
    } else {
      WithoutElems(l[1..], b);
      var r := Without(l[1..], b);
      forall i, j | 0 <= i < j < |r| + 1
        ensures ([l[0]] + r)[i] != ([l[0]] + r)[j]
      {
        assert r[j - 1] in l[1..];
      }
    }
  }

  lemma {:induction false} WithoutBlocksElems(l: seq<Addr>, page: nat, d: nat, n: nat)
    requires Distinct(l) && n <= PerArena(d)
    ensures Distinct(WithoutBlocks(l, page, d, n))
    ensures forall x :: x in WithoutBlocks(l, page, d, n) <==> x in l && x !in Blocks(page, d)[..n]
  {
    if n != 0 {
      WithoutBlocksElems(l, page, d, n - 1);
      WithoutElems(WithoutBlocks(l, page, d, n - 1), BlockAt(page, d, n - 1));
      assert Blocks(page, d)[..n] == Blocks(page, d)[..n - 1] + [BlockAt(page, d, n - 1)];
    }
  }

  /* ----- malloc() and free() ----- */

  /** The smallest descriptor at or after `d` whose blocks hold `size` bytes; DESC_CNT if none */
  function DescFor(size: nat, d: nat): (r: nat)
    requires d <= DESC_CNT
    ensures d <= r <= DESC_CNT
    ensures r < DESC_CNT ==> BlockSize(r) >= size
    ensures forall k | d <= k < r :: BlockSize(k) < size
    decreases DESC_CNT - d
  {
    if d == DESC_CNT || BlockSize(d) >= size then d else DescFor(size, d + 1)
  }

  /** Pages for a big block, computed in a 32-bit size_t */
  function PageCnt(size: nat): (n: nat)
  {
    (((size + ARENA_HEADER) % SIZE_RANGE + PGSIZE - 1) % SIZE_RANGE) / PGSIZE
  }

  function FreeList(h: Heap, d: nat): (l: seq<Addr>)
  {
    if d < DESC_CNT then h.free[d] else []
  }

  function WithList(h: Heap, d: nat, l: seq<Addr>): (h': Heap)
  {
    if d < DESC_CNT then h.(free := h.free[d := l]) else h
  }

  /** A new arena on page `n`, all its blocks on the free list */
  function NewArena(h: Heap, d: nat, n: nat): (h': Heap)
  {
    WithList(h.(pool := Get(h.pool, 1), arenas := h.arenas[n := Small(d, PerArena(d))]),
             d, FreeList(h, d) + Blocks(n, d))
  }

  /** The first block off a free list */
  function Take(h: Heap, d: nat): (r: Outcome)
    requires FreeList(h, d) != []
  {
    var b := FreeList(h, d)[0];
    var h' := WithList(h, d, FreeList(h, d)[1..]);
    if b.page in h.arenas && h.arenas[b.page].Small? && h.arenas[b.page].freeCnt > 0 then
      Outcome(h'.(arenas := h.arenas[b.page := Small(h.arenas[b.page].desc, h.arenas[b.page].freeCnt - 1)]), Pointer(b))
    else Outcome(h', Pointer(b))
  }

  function MallocSmall(h: Heap, d: nat): (r: Outcome)
    requires d < DESC_CNT
  {
    if FreeList(h, d) != [] then Take(h, d)
    else
      match GetResult(h.pool, 1)
      case NotFound => Outcome(h, Null)
      case At(n) =>
        BlockSizes();
        Take(NewArena(h, d, n), d)
  }

  function MallocBig(h: Heap, size: nat): (r: Outcome)
  {
    match GetResult(h.pool, PageCnt(size))
    case NotFound => Outcome(h, Null)
    case At(n) =>
      Outcome(h.(pool := Get(h.pool, PageCnt(size)), arenas := h.arenas[n := Big(PageCnt(size))]),
              Pointer(Addr(n, ARENA_HEADER)))
  }

  function Allocate(h: Heap, size: nat): (r: Outcome)
  {
    if size == 0 then Outcome(h, Null)
    else
      var d := DescFor(size, 0);
      if d == DESC_CNT then MallocBig(h, size) else MallocSmall(h, d)
  }

  function Returned(p: Pool, page: nat, cnt: nat): (p': Pool)
    ensures p'.base == p.base && |p'.used| == |p.used|
  {
    if MayFree(p, page, cnt) then Give(p, page, cnt) else p
  }

  /** A block back on its free list */
  function Put(h: Heap, b: Addr): (h': Heap)
    requires b.page in h.arenas && h.arenas[b.page].Small?
  {
    var a := h.arenas[b.page];
    WithList(h.(arenas := h.arenas[b.page := Small(a.desc, a.freeCnt + 1)]), a.desc, [b] + FreeList(h, a.desc))
  }

  /** An arena's blocks off the free list and its page back to the pool */
  function Drop(h: Heap, page: nat, d: nat): (h': Heap)
  {
    WithList(h.(pool := Returned(h.pool, page, 1), arenas := h.arenas - {page}),
             d, WithoutBlocks(FreeList(h, d), page, d, PerArena(d)))
  }

  function DropBig(h: Heap, page: nat, cnt: nat): (h': Heap)
  {
    h.(pool := Returned(h.pool, page, cnt), arenas := h.arenas - {page})
  }

  /** free() of a block that is not null */
  function Release(h: Heap, b: Addr): (h': Heap)
  {
    if b.page !in h.arenas then h
    else
      match h.arenas[b.page]
      case Small(d, n) => if n + 1 >= PerArena(d) then Drop(Put(h, b), b.page, d) else Put(h, b)
      case Big(cnt) => DropBig(h, b.page, cnt)
  }

  /* ----- What holds between calls ----- */

  function Extent(a: Arena): (n: nat)
  {
    match a case Small(_, _) => 1 case Big(cnt) => cnt
  }

  /** The arenas own disjoint runs of pages, all of them obtained from the pool. */
  ghost predicate ArenasApart(h: Heap)
  {
    && (forall p | p in h.arenas :: Extent(h.arenas[p]) > 0 && Run(p, Extent(h.arenas[p])) <= Held(h.pool))
    && (forall p, q | p in h.arenas && q in h.arenas && p < q :: p + Extent(h.arenas[p]) <= q)
  }

  ghost predicate IsSmall(h: Heap, page: nat, d: nat)
  {
    page in h.arenas && h.arenas[page].Small? && h.arenas[page].desc == d
  }

  /** The free lists hold blocks of arenas of their descriptor, none of them twice. */
  ghost predicate ListsOk(h: Heap)
  {
    && (forall d: nat | d < DESC_CNT :: Distinct(FreeList(h, d)))
    && (forall d: nat, b | d < DESC_CNT && b in FreeList(h, d) :: IsSmall(h, b.page, d) && b in Blocks(b.page, d))
  }

  /** free_cnt counts the free blocks of an arena. */
  ghost predicate CountsOk(h: Heap)
  {
    forall p | p in h.arenas && h.arenas[p].Small? ::
      && h.arenas[p].desc < DESC_CNT
      && h.arenas[p].freeCnt == |OnPage(FreeList(h, h.arenas[p].desc), p)|
  }

  ghost predicate Shape(h: Heap)
  {
    ArenasApart(h) && ListsOk(h) && CountsOk(h)
  }

  /** Every arena has a block in use. */
  ghost predicate Busy(h: Heap)
  {
    forall p | p in h.arenas && h.arenas[p].Small? :: h.arenas[p].freeCnt < PerArena(h.arenas[p].desc)
  }

  ghost predicate BusyBut(h: Heap, but: nat)
  {
    forall p | p in h.arenas && h.arenas[p].Small? && p != but :: h.arenas[p].freeCnt < PerArena(h.arenas[p].desc)
  }

  ghost predicate Inv(h: Heap)
  {
    Shape(h) && Busy(h)
  }

  /** `b` is a block that malloc() handed out and free() did not take back. */
  ghost predicate IsLive(h: Heap, b: Addr)
  {
    && b.page in h.arenas
    && match h.arenas[b.page]
       case Small(d, _) => b in Blocks(b.page, d) && b !in FreeList(h, d)
       case Big(_) => b.ofs == ARENA_HEADER
  }

  ghost predicate InArenaAt(h: Heap, p: nat, n: nat)
  {
    p in h.arenas && n in Run(p, Extent(h.arenas[p]))
  }

  ghost predicate InArena(h: Heap, n: nat)
  {
    exists p :: InArenaAt(h, p, n)
  }

  /** Pages the rest of the kernel holds */
  ghost function Others(h: Heap): (s: set<nat>)
  {
    set n | n in Held(h.pool) && !InArena(h, n)
  }

  /* ----- Each part keeps it ----- */

  ghost predicate SameLive(h: Heap, h': Heap)
  {
    forall x :: IsLive(h', x) <==> IsLive(h, x)
  }

  ghost predicate LiveAdded(h: Heap, h': Heap, b: Addr)
  {
    forall x :: IsLive(h', x) <==> IsLive(h, x) || x == b
  }

  /** A page fresh from the pool belongs to no arena. */
  lemma FreshPages(h: Heap, cnt: nat)
    requires ArenasApart(h) && cnt != 0 && GetResult(h.pool, cnt).At?
    ensures var n := GetResult(h.pool, cnt).index;
            && n !in h.arenas
            && (forall p | p in h.arenas :: p + Extent(h.arenas[p]) <= n || n + cnt <= p)
            && Held(Get(h.pool, cnt)) == Held(h.pool) + Run(n, cnt)
            && Run(n, cnt) !! Held(h.pool)
  {
    GetTakesFree(h.pool, cnt);
    var n := GetResult(h.pool, cnt).index;
    assert Run(n, cnt) !! Held(h.pool);
    forall p | p in h.arenas
      ensures p + Extent(h.arenas[p]) <= n || n + cnt <= p
    {
      var m := if n < p then p else n;
      assert m in Run(n, cnt) ==> m !in Run(p, Extent(h.arenas[p]));
    }
  }

  /** The same arenas, up to their counts */
  ghost predicate SameArenas(h: Heap, h': Heap)
  {
    && h'.pool == h.pool && h'.arenas.Keys == h.arenas.Keys
    && forall p | p in h.arenas :: SameKind(h.arenas[p], h'.arenas[p])
  }

  predicate SameKind(a: Arena, a': Arena)
  {
    match a
    case Small(d, _) => a'.Small? && a'.desc == d
    case Big(_) => a' == a
  }

  ghost predicate OthersListed(h: Heap, h': Heap, d: nat)
  {
    forall k: nat | k != d :: FreeList(h', k) == FreeList(h, k)
  }

  lemma SameArenasApart(h: Heap, h': Heap)
    requires SameArenas(h, h') && ArenasApart(h)
    ensures ArenasApart(h') && Others(h') == Others(h)
  {
    assert forall p: nat, n: nat :: InArenaAt(h', p, n) <==> InArenaAt(h, p, n);
    assert forall n: nat :: InArena(h', n) <==> InArena(h, n);
  }

  lemma MoreArenasApart(h: Heap, h': Heap, n: nat, a: Arena)
    requires ArenasApart(h) && Extent(a) != 0 && GetResult(h.pool, Extent(a)) == At(n)
    requires h'.pool == Get(h.pool, Extent(a)) && h'.arenas == h.arenas[n := a]
    ensures n !in h.arenas && ArenasApart(h')
  {
    FreshPages(h, Extent(a));
  }

  lemma MoreArenasOthers(h: Heap, h': Heap, n: nat, a: Arena)
    requires ArenasApart(h) && Extent(a) != 0 && GetResult(h.pool, Extent(a)) == At(n)
    requires h'.pool == Get(h.pool, Extent(a)) && h'.arenas == h.arenas[n := a]
    ensures Others(h') == Others(h)
  {
    FreshPages(h, Extent(a));
    forall m: nat
      ensures InArena(h', m) <==> InArena(h, m) || m in Run(n, Extent(a))
    {
      assert forall p: nat | p != n :: InArenaAt(h', p, m) <==> InArenaAt(h, p, m);
      assert InArenaAt(h', n, m) <==> m in Run(n, Extent(a));
      assert !InArenaAt(h, n, m);
    }
  }

  lemma FewerArenasApart(h: Heap, h': Heap, p: nat)
    requires ArenasApart(h) && p in h.arenas
    requires h'.pool == Returned(h.pool, p, Extent(h.arenas[p])) && h'.arenas == h.arenas - {p}
    ensures MayFree(h.pool, p, Extent(h.arenas[p]))
    ensures ArenasApart(h')
  {
    ArenaMayFree(h, p);
    GiveReturns(h.pool, p, Extent(h.arenas[p]));
  }

  lemma ArenaMayFree(h: Heap, p: nat)
    requires ArenasApart(h) && p in h.arenas
    ensures MayFree(h.pool, p, Extent(h.arenas[p]))
  {
    var e := Extent(h.arenas[p]);
    assert p in Run(p, e) && p + e - 1 in Run(p, e);
    forall k | p - h.pool.base <= k < p - h.pool.base + e ensures h.pool.used[k] { assert h.pool.base + k in Run(p, e); }
  }

  lemma FewerArenasOthers(h: Heap, h': Heap, p: nat)
    requires ArenasApart(h) && p in h.arenas
    requires h'.pool == Returned(h.pool, p, Extent(h.arenas[p])) && h'.arenas == h.arenas - {p}
    ensures Others(h') == Others(h)
  {
    var e := Extent(h.arenas[p]);
    ArenaMayFree(h, p);
    GiveReturns(h.pool, p, e);
    forall m: nat
      ensures InArena(h, m) <==> InArena(h', m) || m in Run(p, e)
      ensures InArena(h', m) ==> m !in Run(p, e)
    {
      assert forall q: nat | q != p :: InArenaAt(h', q, m) <==> InArenaAt(h, q, m);
      assert InArenaAt(h, p, m) <==> m in Run(p, e);
      assert !InArenaAt(h', p, m);
    }
  }

  /* Taking a block: h' is h with the head b of free list d gone and its arena's count one less. */

  ghost predicate Popped(h: Heap, h': Heap, d: nat, b: Addr)
  {
    && d < DESC_CNT && SameArenas(h, h') && OthersListed(h, h', d)
    && FreeList(h, d) == [b] + FreeList(h', d)
    && IsSmall(h, b.page, d) && h'.arenas[b.page].freeCnt == h.arenas[b.page].freeCnt - 1
    && forall p | p in h.arenas && p != b.page :: h'.arenas[p] == h.arenas[p]
  }

  lemma HeadCounted(h: Heap, d: nat)
    requires Shape(h) && d < DESC_CNT && FreeList(h, d) != []
    ensures var b := FreeList(h, d)[0]; IsSmall(h, b.page, d) && h.arenas[b.page].freeCnt > 0
  {
    var b := FreeList(h, d)[0];
    assert b in FreeList(h, d) && b in OnPage(FreeList(h, d), b.page);
  }

  lemma TakePops(h: Heap, d: nat)
    requires Shape(h) && d < DESC_CNT && FreeList(h, d) != []
    ensures Popped(h, Take(h, d).heap, d, FreeList(h, d)[0])
    ensures Take(h, d).block == Pointer(FreeList(h, d)[0])
  {
    HeadCounted(h, d);
    TakeEffect(h, d, FreeList(h, d)[0], Take(h, d).heap);
  }

  lemma TakeEffect(h: Heap, d: nat, b: Addr, h': Heap)
    requires d < DESC_CNT && FreeList(h, d) != [] && b == FreeList(h, d)[0] && h' == Take(h, d).heap
    requires IsSmall(h, b.page, d) && h.arenas[b.page].freeCnt > 0
    ensures Popped(h, h', d, b)
  {
    assert h'.free == h.free[d := FreeList(h, d)[1..]];
    assert FreeList(h, d) == [b] + FreeList(h, d)[1..];
  }

  lemma PoppedLists(h: Heap, h': Heap, d: nat, b: Addr)
    requires Popped(h, h', d, b) && ListsOk(h)
    ensures ListsOk(h') && b !in FreeList(h', d)
  {
    assert FreeList(h', d) == FreeList(h, d)[1..];
    assert b == FreeList(h, d)[0];
    forall k: nat, x | k < DESC_CNT && x in FreeList(h', k)
      ensures IsSmall(h', x.page, k) && x in Blocks(x.page, k)
    {
      assert x in FreeList(h, k);
    }
  }

  lemma PoppedCounts(h: Heap, h': Heap, d: nat, b: Addr)
    requires Popped(h, h', d, b) && ListsOk(h) && CountsOk(h)
    ensures CountsOk(h')
  {
    PoppedLists(h, h', d, b);
    forall p | p in h'.arenas && h'.arenas[p].Small?
      ensures h'.arenas[p].desc < DESC_CNT
      ensures h'.arenas[p].freeCnt == |OnPage(FreeList(h', h'.arenas[p].desc), p)|
    {
      var k := h.arenas[p].desc;
      if p == b.page {
        assert OnPage(FreeList(h, d), p) == OnPage(FreeList(h', d), p) + {b};
      } else if k == d {
        assert OnPage(FreeList(h, d), p) == OnPage(FreeList(h', d), p);
      }
    }
  }

  lemma PoppedLive(h: Heap, h': Heap, d: nat, b: Addr)
    requires Popped(h, h', d, b) && ListsOk(h)
    ensures !IsLive(h, b) && LiveAdded(h, h', b)
  {
    PoppedLists(h, h', d, b);
    assert b in FreeList(h, d);
    forall x
      ensures IsLive(h', x) <==> IsLive(h, x) || x == b
    {
      if IsSmall(h, x.page, d) {
        assert x in FreeList(h, d) <==> x == b || x in FreeList(h', d);
      }
    }
  }

  lemma TakeKeepsInv(h: Heap, d: nat)
    requires Shape(h) && d < DESC_CNT && FreeList(h, d) != [] && BusyBut(h, FreeList(h, d)[0].page)
    ensures var r := Take(h, d);
            var b := FreeList(h, d)[0];
            && r.block == Pointer(b) && Inv(r.heap) && Others(r.heap) == Others(h)
            && !IsLive(h, b) && LiveAdded(h, r.heap, b)
  {
    var h' := Take(h, d).heap;
    var b := FreeList(h, d)[0];
    TakePops(h, d);
    SameArenasApart(h, h');
    PoppedLists(h, h', d, b);
    PoppedCounts(h, h', d, b);
    PoppedLive(h, h', d, b);
    CountsAtMost(h, b.page);
  }

  /** An arena has no more free blocks than it has blocks. */
  lemma CountsAtMost(h: Heap, p: nat)
    requires ListsOk(h) && CountsOk(h) && p in h.arenas && h.arenas[p].Small?
    ensures h.arenas[p].freeCnt <= PerArena(h.arenas[p].desc)
    ensures h.arenas[p].freeCnt == PerArena(h.arenas[p].desc) <==> AllFree(h, p, h.arenas[p].desc)
  {
    var d := h.arenas[p].desc;
    var free, all := OnPage(FreeList(h, d), p), OnPage(Blocks(p, d), p);
    BlocksDistinct(p, d);
    forall b | b in free ensures b in all { assert b in FreeList(h, d); }
    SubsetSize(free, all);
    AllFreeIff(h, p, d);
  }

  ghost predicate AllFree(h: Heap, p: nat, d: nat)
  {
    forall b | b in Blocks(p, d) :: b in FreeList(h, d)
  }

  lemma AllFreeIff(h: Heap, p: nat, d: nat)
    ensures AllFree(h, p, d) <==> OnPage(Blocks(p, d), p) <= OnPage(FreeList(h, d), p)
  {
    if OnPage(Blocks(p, d), p) <= OnPage(FreeList(h, d), p) {
      forall b | b in Blocks(p, d) ensures b in FreeList(h, d) { assert b in OnPage(Blocks(p, d), p); }
    }
  }

  lemma SubsetSize<T>(a: set<T>, b: set<T>)
    requires a <= b
    ensures |a| <= |b| && (|a| == |b| <==> b <= a)
  {
    assert b == a + (b - a);
    assert |b - a| == 0 <==> b - a == {};
  }

  /* A new arena */

  ghost predicate Added(h: Heap, h': Heap, d: nat, n: nat)
  {
    && d < DESC_CNT && n !in h.arenas && OthersListed(h, h', d)
    && FreeList(h, d) == [] && FreeList(h', d) == Blocks(n, d)
    && h'.arenas == h.arenas[n := Small(d, PerArena(d))]
  }

  lemma NewArenaAdds(h: Heap, d: nat, n: nat)
    requires d < DESC_CNT && FreeList(h, d) == [] && n !in h.arenas
    ensures Added(h, NewArena(h, d, n), d, n)
  {
    assert FreeList(h, d) + Blocks(n, d) == Blocks(n, d);
  }

  lemma AddedLists(h: Heap, h': Heap, d: nat, n: nat)
    requires Added(h, h', d, n) && ListsOk(h)
    ensures ListsOk(h')
  {
    BlocksDistinct(n, d);
    forall k: nat, x | k < DESC_CNT && x in FreeList(h', k)
      ensures IsSmall(h', x.page, k) && x in Blocks(x.page, k)
    {
      if k != d { assert x in FreeList(h, k); }
    }
  }

  lemma AddedCounts(h: Heap, h': Heap, d: nat, n: nat)
    requires Added(h, h', d, n) && CountsOk(h)
    ensures CountsOk(h')
  {
    BlocksDistinct(n, d);
    forall p | p in h'.arenas && h'.arenas[p].Small?
      ensures h'.arenas[p].desc < DESC_CNT
      ensures h'.arenas[p].freeCnt == |OnPage(FreeList(h', h'.arenas[p].desc), p)|
    {
      if p != n && h.arenas[p].desc == d {
        assert OnPage(FreeList(h', d), p) == OnPage(FreeList(h, d), p);
      }
    }
  }

  lemma NewArenaShape(h: Heap, d: nat)
    requires Inv(h) && d < DESC_CNT && FreeList(h, d) == [] && GetResult(h.pool, 1).At?
    ensures var n := GetResult(h.pool, 1).index;
            var h' := NewArena(h, d, n);
            && Shape(h') && BusyBut(h', n) && SameLive(h, h') && Others(h') == Others(h)
            && FreeList(h', d) == Blocks(n, d)
  {
    var n := GetResult(h.pool, 1).index;
    var h' := NewArena(h, d, n);
    var a := Small(d, PerArena(d));
    MoreArenasApart(h, h', n, a);
    MoreArenasOthers(h, h', n, a);
    NewArenaAdds(h, d, n);
    AddedLists(h, h', d, n);
    AddedCounts(h, h', d, n);
  }

  /* Putting a block back is taking it, backwards. */

  lemma PutPushes(h: Heap, b: Addr, d: nat)
    requires Shape(h) && IsSmall(h, b.page, d)
    ensures Popped(Put(h, b), h, d, b)
  {
    var h' := Put(h, b);
    assert h'.free == h.free[d := [b] + FreeList(h, d)];
    assert FreeList(h', d) == [b] + FreeList(h, d);
    assert h'.arenas == h.arenas[b.page := Small(d, h.arenas[b.page].freeCnt + 1)];
  }

  lemma PushedLists(h: Heap, h': Heap, d: nat, b: Addr)
    requires Popped(h', h, d, b) && ListsOk(h) && IsLive(h, b)
    ensures ListsOk(h')
  {
    forall k: nat, x | k < DESC_CNT && x in FreeList(h', k)
      ensures IsSmall(h', x.page, k) && x in Blocks(x.page, k)
    {
      if x != b { assert x in FreeList(h, k); }
    }
  }

  lemma PushedCounts(h: Heap, h': Heap, d: nat, b: Addr)
    requires Popped(h', h, d, b) && ListsOk(h) && CountsOk(h) && IsLive(h, b)
    ensures CountsOk(h')
  {
    forall p | p in h'.arenas && h'.arenas[p].Small?
      ensures h'.arenas[p].desc < DESC_CNT
      ensures h'.arenas[p].freeCnt == |OnPage(FreeList(h', h'.arenas[p].desc), p)|
    {
      var k := h.arenas[p].desc;
      if p == b.page {
        assert OnPage(FreeList(h', d), p) == OnPage(FreeList(h, d), p) + {b};
      } else if k == d {
        assert OnPage(FreeList(h', d), p) == OnPage(FreeList(h, d), p);
      }
    }
  }

  lemma PutShape(h: Heap, b: Addr)
    requires Inv(h) && IsLive(h, b) && h.arenas[b.page].Small?
    ensures Shape(Put(h, b)) && BusyBut(Put(h, b), b.page) && Others(Put(h, b)) == Others(h)
    ensures !IsLive(Put(h, b), b) && LiveAdded(Put(h, b), h, b)
  {
    var d := h.arenas[b.page].desc;
    var h' := Put(h, b);
    PutPushes(h, b, d);
    SameArenasApart(h, h');
    PushedLists(h, h', d, b);
    PushedCounts(h, h', d, b);
    PoppedLive(h', h, d, b);
  }

  /* Dropping an arena */

  ghost predicate Dropped(h: Heap, h': Heap, p: nat, d: nat)
  {
    && d < DESC_CNT && IsSmall(h, p, d) && OthersListed(h, h', d) && h'.arenas == h.arenas - {p}
    && Distinct(FreeList(h', d))
    && forall x :: x in FreeList(h', d) <==> x in FreeList(h, d) && x.page != p
  }

  lemma DropDrops(h: Heap, p: nat, d: nat)
    requires ListsOk(h) && IsSmall(h, p, d) && d < DESC_CNT
    ensures Dropped(h, Drop(h, p, d), p, d)
  {
    WithoutBlocksElems(FreeList(h, d), p, d, PerArena(d));
    assert Blocks(p, d)[..PerArena(d)] == Blocks(p, d);
  }

  lemma DroppedLists(h: Heap, h': Heap, p: nat, d: nat)
    requires Dropped(h, h', p, d) && ListsOk(h)
    ensures ListsOk(h')
  {
    forall k: nat, x | k < DESC_CNT && x in FreeList(h', k)
      ensures IsSmall(h', x.page, k) && x in Blocks(x.page, k)
    {
      assert x in FreeList(h, k);
    }
  }

  lemma DroppedCounts(h: Heap, h': Heap, p: nat, d: nat)
    requires Dropped(h, h', p, d) && CountsOk(h)
    ensures CountsOk(h')
  {
    forall q | q in h'.arenas && h'.arenas[q].Small?
      ensures h'.arenas[q].desc < DESC_CNT
      ensures h'.arenas[q].freeCnt == |OnPage(FreeList(h', h'.arenas[q].desc), q)|
    {
      if h.arenas[q].desc == d {
        assert OnPage(FreeList(h', d), q) == OnPage(FreeList(h, d), q);
      }
    }
  }

  lemma DropKeepsInv(h: Heap, p: nat, d: nat)
    requires Shape(h) && BusyBut(h, p) && IsSmall(h, p, d) && d < DESC_CNT && AllFree(h, p, d)
    ensures Inv(Drop(h, p, d)) && SameLive(h, Drop(h, p, d)) && Others(Drop(h, p, d)) == Others(h)
  {
    var h' := Drop(h, p, d);
    FewerArenasApart(h, h', p);
    FewerArenasOthers(h, h', p);
    DropDrops(h, p, d);
    DroppedLists(h, h', p, d);
    DroppedCounts(h, h', p, d);
  }

  /* Big blocks */

  lemma BigListsCounts(h: Heap, h': Heap, n: nat, cnt: nat)
    requires ListsOk(h) && CountsOk(h) && n !in h.arenas && h'.free == h.free && h'.arenas == h.arenas[n := Big(cnt)]
    ensures ListsOk(h') && CountsOk(h')
    ensures LiveAdded(h, h', Addr(n, ARENA_HEADER))
  {
    assert forall d: nat :: FreeList(h', d) == FreeList(h, d);
    forall k: nat, x | k < DESC_CNT && x in FreeList(h', k)
      ensures IsSmall(h', x.page, k) && x in Blocks(x.page, k)
    {
      assert x in FreeList(h, k);
    }
  }

  lemma MallocBigKeepsInv(h: Heap, size: nat)
    requires Inv(h) && MallocBig(h, size).block.Pointer?
    ensures var r := MallocBig(h, size);
            && Inv(r.heap) && Others(r.heap) == Others(h)
            && !IsLive(h, r.block.addr) && LiveAdded(h, r.heap, r.block.addr)
  {
    var cnt := PageCnt(size);
    var n := GetResult(h.pool, cnt).index;
    var h' := MallocBig(h, size).heap;
    MoreArenasApart(h, h', n, Big(cnt));
    MoreArenasOthers(h, h', n, Big(cnt));
    BigListsCounts(h, h', n, cnt);
  }

  lemma DropBigKeepsInv(h: Heap, b: Addr, cnt: nat)
    requires Inv(h) && IsLive(h, b) && h.arenas[b.page] == Big(cnt)
    ensures var h' := DropBig(h, b.page, cnt);
            && Inv(h') && Others(h') == Others(h)
            && !IsLive(h', b) && LiveAdded(h', h, b)
  {
    var h' := DropBig(h, b.page, cnt);
    FewerArenasApart(h, h', b.page);
    FewerArenasOthers(h, h', b.page);
    assert forall d: nat :: FreeList(h', d) == FreeList(h, d);
    forall k: nat, x | k < DESC_CNT && x in FreeList(h', k)
      ensures IsSmall(h', x.page, k) && x in Blocks(x.page, k)
    {
      assert x in FreeList(h, k);
    }
  }

  /* ----- The allocator as its callers see it ----- */

  /** malloc() returns null and changes nothing, or makes one block live that was not. */
  lemma AllocateCorrect(h: Heap, size: nat)
    requires Inv(h)
    ensures var r := Allocate(h, size);
            && Inv(r.heap) && Others(r.heap) == Others(h)
            && match r.block
               case Null => r.heap == h
               case Pointer(b) => !IsLive(h, b) && LiveAdded(h, r.heap, b)
  {
    var d := DescFor(size, 0);
    if size == 0 {
    } else if d == DESC_CNT {
      if MallocBig(h, size).block.Pointer? { MallocBigKeepsInv(h, size); }
    } else if FreeList(h, d) != [] {
      TakeKeepsInv(h, d);
    } else if GetResult(h.pool, 1).At? {
      BlockSizes();
      NewArenaShape(h, d);
      TakeKeepsInv(NewArena(h, d, GetResult(h.pool, 1).index), d);
    }
  }

  /** free() makes exactly the block it is given not live. */
  lemma ReleaseCorrect(h: Heap, b: Addr)
    requires Inv(h) && IsLive(h, b)
    ensures var h' := Release(h, b);
            Inv(h') && Others(h') == Others(h) && !IsLive(h', b) && LiveAdded(h', h, b)
  {
    match h.arenas[b.page] {
      case Big(cnt) => DropBigKeepsInv(h, b, cnt);
      case Small(d, n) =>
        PutShape(h, b);
        CountsAtMost(Put(h, b), b.page);
        if n + 1 >= PerArena(d) { DropKeepsInv(Put(h, b), b.page, d); }
    }
  }

  /* ----- malloc() and free() undo each other ----- */

  /** Freeing a block just obtained leaves the heap as it was, new arena or not. */
  lemma FreeUndoesMalloc(h: Heap, size: nat)
    requires Inv(h) && Allocate(h, size).block.Pointer?
    ensures Release(Allocate(h, size).heap, Allocate(h, size).block.addr) == h
  {
    var d := DescFor(size, 0);
    if d == DESC_CNT {
      BigUndone(h, size);
    } else if FreeList(h, d) != [] {
      HeadCounted(h, d);
      TakenPutBack(h, d, FreeList(h, d)[0]);
    } else {
      FreshPages(h, 1);
      ArenaUndone(h, d, GetResult(h.pool, 1).index);
    }
  }

  lemma BigUndone(h: Heap, size: nat)
    requires Inv(h) && MallocBig(h, size).block.Pointer?
    ensures Release(MallocBig(h, size).heap, MallocBig(h, size).block.addr) == h
  {
    FreshPages(h, PageCnt(size));
    GiveUndoesGet(h.pool, PageCnt(size));
    assert MallocBig(h, size).heap.arenas - {GetResult(h.pool, PageCnt(size)).index} == h.arenas;
  }

  lemma TakenPutBack(h: Heap, d: nat, b: Addr)
    requires d < DESC_CNT && FreeList(h, d) != [] && b == FreeList(h, d)[0]
    requires IsSmall(h, b.page, d) && 0 < h.arenas[b.page].freeCnt
    ensures Take(h, d).block == Pointer(b) && IsSmall(Take(h, d).heap, b.page, d)
    ensures Take(h, d).heap.arenas[b.page].freeCnt == h.arenas[b.page].freeCnt - 1
    ensures Put(Take(h, d).heap, b) == h
  {
    assert [b] + FreeList(h, d)[1..] == FreeList(h, d);
    assert Put(Take(h, d).heap, b).free == h.free;
  }

  lemma ArenaUndone(h: Heap, d: nat, n: nat)
    requires d < DESC_CNT && FreeList(h, d) == [] && GetResult(h.pool, 1) == At(n) && n !in h.arenas
    ensures FreeList(NewArena(h, d, n), d) != []
    ensures var r := Take(NewArena(h, d, n), d); r.block.Pointer? && Release(r.heap, r.block.addr) == h
  {
    BlockSizes();
    NewArenaDropped(h, d, n);
    TakenPutBack(NewArena(h, d, n), d, Blocks(n, d)[0]);
  }

  lemma NewArenaDropped(h: Heap, d: nat, n: nat)
    requires d < DESC_CNT && FreeList(h, d) == [] && GetResult(h.pool, 1) == At(n) && n !in h.arenas
    ensures FreeList(NewArena(h, d, n), d) == Blocks(n, d) && Drop(NewArena(h, d, n), n, d) == h
  {
    GiveUndoesGet(h.pool, 1);
    NoBlocksLeft(n, d);
    assert FreeList(h, d) + Blocks(n, d) == Blocks(n, d);
    assert h.arenas[n := Small(d, PerArena(d))] - {n} == h.arenas;
    assert Drop(NewArena(h, d, n), n, d).free == h.free;
  }

  lemma NoBlocksLeft(n: nat, d: nat)
    ensures WithoutBlocks(Blocks(n, d), n, d, PerArena(d)) == []
  {
    BlocksDistinct(n, d);
    WithoutBlocksElems(Blocks(n, d), n, d, PerArena(d));
    assert Blocks(n, d)[..PerArena(d)] == Blocks(n, d);
    NoElems(WithoutBlocks(Blocks(n, d), n, d, PerArena(d)));
  }

  lemma NoElems(l: seq<Addr>)
    ensures l == [] || exists x :: x in l
  {
    if l != [] { assert l[0] in l; }
  }

  /** The block freed last is the one obtained next, and the heap is as it was before. */
  lemma MallocUndoesFree(h: Heap, b: Addr, size: nat)
    requires Inv(h) && IsLive(h, b) && h.arenas[b.page].Small? && size > 0 && DescFor(size, 0) == h.arenas[b.page].desc
    requires h.arenas[b.page].freeCnt + 1 < PerArena(h.arenas[b.page].desc)
    ensures Allocate(Release(h, b), size) == Outcome(h, Pointer(b))
  {
    var d := h.arenas[b.page].desc;
    assert FreeList(Put(h, b), d)[1..] == FreeList(h, d);
    assert Take(Put(h, b), d).heap.free == h.free;
  }

  /** block_size() */
  function BlockBytes(h: Heap, b: Addr): (n: int)
    requires b.page in h.arenas
  {
    match h.arenas[b.page]
    case Small(d, _) => BlockSize(d)
    case Big(cnt) => PGSIZE * cnt - b.ofs
  }

  function Linear(b: Addr): (n: nat)
  {
    b.page * PGSIZE + b.ofs
  }

  /** A live block lies past its arena's header and inside the arena's pages. */
  lemma LiveInArena(h: Heap, b: Addr)
    requires Inv(h) && IsLive(h, b)
    ensures b.page * PGSIZE + ARENA_HEADER <= Linear(b)
    ensures Linear(b) + BlockBytes(h, b) <= (b.page + Extent(h.arenas[b.page])) * PGSIZE
  {
    match h.arenas[b.page]
    case Big(_) =>
    case Small(d, _) =>
      var i: nat :| i < PerArena(d) && Blocks(b.page, d)[i] == b;
      BlocksApart(b.page, d, i, i);
  }

  /** No two live blocks share a byte. */
  lemma LiveApart(h: Heap, b: Addr, c: Addr)
    requires Inv(h) && IsLive(h, b) && IsLive(h, c) && b != c
    ensures Linear(b) + BlockBytes(h, b) <= Linear(c) || Linear(c) + BlockBytes(h, c) <= Linear(b)
  {
    LiveInArena(h, b);
    LiveInArena(h, c);
    if b.page == c.page {
      var d := h.arenas[b.page].desc;
      var i: nat :| i < PerArena(d) && Blocks(b.page, d)[i] == b;
      var j: nat :| j < PerArena(d) && Blocks(b.page, d)[j] == c;
      BlocksApart(b.page, d, i, j);
      BlocksApart(b.page, d, j, i);
    }
  }

  /** What malloc() returns holds the bytes asked for exactly when adding the arena header to the
      size does not wrap: for the eleven largest sizes a one-page block is returned. */
  lemma EnoughIff(h: Heap, size: nat)
    requires Inv(h) && size < SIZE_RANGE && Allocate(h, size).block.Pointer?
    ensures var r := Allocate(h, size);
            && r.block.addr.page in r.heap.arenas
            && (BlockBytes(r.heap, r.block.addr) >= size <==> size + ARENA_HEADER <= SIZE_RANGE)
  {
    var r := Allocate(h, size);
    var d := DescFor(size, 0);
    AllocateCorrect(h, size);
    assert IsLive(r.heap, r.block.addr);
    if d == DESC_CNT {
      assert BlockSize(DESC_CNT - 1) < size;
    } else {
      assert IsSmall(r.heap, r.block.addr.page, d) by { SmallFrom(h, d); }
    }
  }

  lemma SmallFrom(h: Heap, d: nat)
    requires Inv(h) && d < DESC_CNT && MallocSmall(h, d).block.Pointer?
    ensures IsSmall(MallocSmall(h, d).heap, MallocSmall(h, d).block.addr.page, d)
  {
    if FreeList(h, d) != [] {
      TakePops(h, d);
    } else {
      var n := GetResult(h.pool, 1).index;
      BlockSizes();
      NewArenaShape(h, d);
      TakePops(NewArena(h, d, n), d);
    }
  }

  /* ----- When malloc() returns null ----- */

  /** The descriptor of the smallest blocks that hold `size` bytes */
  ghost predicate SmallestFit(d: nat, size: nat)
  {
    d < DESC_CNT && size <= BlockSize(d) && forall k: nat | k < d :: BlockSize(k) < size
  }

  /** `n` pages hold an arena header and `size` bytes, and one page less does not. */
  predicate JustEnough(n: nat, size: nat)
  {
    (n - 1) * PGSIZE < size + ARENA_HEADER <= n * PGSIZE
  }

  /** Every block of every arena of the smallest fitting block size is live, and no page is free. */
  ghost predicate AllTaken(h: Heap, size: nat)
  {
    && Free(h.pool) == {}
    && forall p, d: nat, b | IsSmall(h, p, d) && SmallestFit(d, size) && b in Blocks(p, d) :: IsLive(h, b)
  }

  /** No free run of pages is long enough.  In the 32 bits of the source, sizes within a page of the
      largest come out as no page at all, and the eleven largest as one. */
  ghost predicate NoRun(h: Heap, size: nat)
  {
    if size + ARENA_HEADER > SIZE_RANGE then Free(h.pool) == {}
    else if size + ARENA_HEADER > SIZE_RANGE - PGSIZE then true
    else forall n: nat, m: nat | JustEnough(n, size) :: !(Run(m, n) <= Free(h.pool))
  }

  /** When a request is refused */
  ghost predicate Refused(h: Heap, size: nat)
  {
    size == 0 || (if size <= 1024 then AllTaken(h, size) else NoRun(h, size))
  }

  lemma PageCntIs(size: nat)
    requires 0 < size < SIZE_RANGE
    ensures size + ARENA_HEADER > SIZE_RANGE ==> PageCnt(size) == 1
    ensures SIZE_RANGE - PGSIZE < size + ARENA_HEADER <= SIZE_RANGE ==> PageCnt(size) == 0
    ensures size + ARENA_HEADER <= SIZE_RANGE - PGSIZE ==> JustEnough(PageCnt(size), size)
  {
  }

  lemma JustEnoughUnique(n: nat, k: nat, size: nat)
    requires JustEnough(n, size) && JustEnough(k, size)
    ensures n == k
  {
  }

  lemma SmallSizes(size: nat)
    requires size > 0
    ensures DescFor(size, 0) < DESC_CNT <==> size <= 1024
    ensures forall d: nat :: SmallestFit(d, size) <==> d == DescFor(size, 0) && d < DESC_CNT
  {
    assert BlockSize(0) == 16 && BlockSize(1) == 32 && BlockSize(2) == 64 && BlockSize(3) == 128;
    assert BlockSize(4) == 256 && BlockSize(5) == 512 && BlockSize(6) == 1024;
    var r := DescFor(size, 0);
    forall d: nat
      ensures SmallestFit(d, size) <==> d == r && d < DESC_CNT
    {
      assert d < r ==> BlockSize(d) < size;
    }
  }

  lemma NothingListedIff(h: Heap, d: nat)
    requires ListsOk(h) && d < DESC_CNT
    ensures FreeList(h, d) == [] <==> forall p, b | IsSmall(h, p, d) && b in Blocks(p, d) :: IsLive(h, b)
  {
    if FreeList(h, d) != [] {
      var b := FreeList(h, d)[0];
      assert b in FreeList(h, d);
      assert IsSmall(h, b.page, d) && b in Blocks(b.page, d) && !IsLive(h, b);
    }
  }

  lemma NothingFreeIff(p: Pool)
    ensures GetResult(p, 1).NotFound? <==> Free(p) == {}
  {
    GetTakesFree(p, 1);
    forall m | m in Free(p) ensures Run(m, 1) <= Free(p) { assert Run(m, 1) == {m}; }
    forall m: nat | Run(m, 1) <= Free(p) ensures m in Free(p) { assert m in Run(m, 1); }
  }

  lemma SmallRefusedIff(h: Heap, size: nat, d: nat)
    requires Inv(h) && 0 < size <= 1024 && d == DescFor(size, 0) && d < DESC_CNT
    ensures MallocSmall(h, d).block.Null? <==> AllTaken(h, size)
  {
    SmallSizes(size);
    NothingListedIff(h, d);
    NothingFreeIff(h.pool);
  }

  lemma BigRefusedIff(h: Heap, size: nat)
    requires 1024 < size < SIZE_RANGE
    ensures MallocBig(h, size).block.Null? <==> NoRun(h, size)
  {
    PageCntIs(size);
    var n := PageCnt(size);
    if size + ARENA_HEADER > SIZE_RANGE {
      NothingFreeIff(h.pool);
    } else if size + ARENA_HEADER <= SIZE_RANGE - PGSIZE {
      GetTakesFree(h.pool, n);
      forall k: nat | JustEnough(k, size) ensures k == n { JustEnoughUnique(n, k, size); }
    }
  }

  /** malloc() returns null exactly when it has to: see Refused. */
  lemma AllocateNullIff(h: Heap, size: nat)
    requires Inv(h) && size < SIZE_RANGE
    ensures Allocate(h, size).block.Null? <==> Refused(h, size)
  {
    if size > 0 {
      SmallSizes(size);
      if size <= 1024 { SmallRefusedIff(h, size, DescFor(size, 0)); } else { BigRefusedIff(h, size); }
    }
  }

  /** Where a block comes from: an arena of the smallest size that fits, or just enough pages. */
  lemma AllocateFits(h: Heap, size: nat)
    requires Inv(h) && size < SIZE_RANGE && Allocate(h, size).block.Pointer?
    ensures var r := Allocate(h, size);
            if size <= 1024 then exists d: nat :: SmallestFit(d, size) && IsSmall(r.heap, r.block.addr.page, d)
            else
              && r.block.addr.page in r.heap.arenas && r.heap.arenas[r.block.addr.page].Big?
              && var n := r.heap.arenas[r.block.addr.page].pages;
                 if size + ARENA_HEADER > SIZE_RANGE then n == 1 else JustEnough(n, size)
  {
    SmallSizes(size);
    if size <= 1024 {
      SmallFrom(h, DescFor(size, 0));
    } else {
      PageCntIs(size);
    }
  }

  /** malloc_init() */
  function EmptyHeap(pool: Pool): (h: Heap)
  {
    Heap(pool, [[], [], [], [], [], [], []], map[])
  }

  lemma EmptyHeapInv(pool: Pool)
    ensures Inv(EmptyHeap(pool)) && (forall b :: !IsLive(EmptyHeap(pool), b)) && Others(EmptyHeap(pool)) == Held(pool)
  {
    assert forall d: nat :: FreeList(EmptyHeap(pool), d) == [];
    assert forall p: nat, n: nat :: !InArenaAt(EmptyHeap(pool), p, n);
  }

  /** One of the sizes EnoughIff shuts out: with a page free, 2^32 - 1 bytes are "served" by 4084. */
  lemma WrapReturnsTooLittle()
    ensures var r := Allocate(EmptyHeap(Pool(1, [false])), SIZE_RANGE - 1);
            && r.block == Pointer(Addr(1, ARENA_HEADER)) && 1 in r.heap.arenas
            && BlockBytes(r.heap, Addr(1, ARENA_HEADER)) == 4084
  {
    BlockSizes();
    assert DescFor(SIZE_RANGE - 1, 0) == DESC_CNT;
    assert PageCnt(SIZE_RANGE - 1) == 1;
    assert Uniform([false], 0, 1, false);
  }

  /** An arena's page goes back to the pool exactly when its last live block is freed. */
  lemma PageReturnedWithLast(h: Heap, b: Addr)
    requires Inv(h) && IsLive(h, b) && h.arenas[b.page].Small?
    ensures b.page !in Release(h, b).arenas <==> forall c | IsLive(h, c) && c.page == b.page :: c == b
    ensures b.page !in Release(h, b).arenas ==> !InUse(Release(h, b).pool, b.page)
  {
    var d := h.arenas[b.page].desc;
    var h' := Put(h, b);
    PutShape(h, b);
    CountsAtMost(h', b.page);
    if AllFree(h', b.page, d) {
      forall c | IsLive(h, c) && c.page == b.page
        ensures c == b
      {
        assert c in Blocks(b.page, d);
        assert IsLive(h', c) || c == b;
      }
      ArenaMayFree(h', b.page);
      GiveReturns(h'.pool, b.page, 1);
    } else {
      var c :| c in Blocks(b.page, d) && c !in FreeList(h', d);
      assert IsLive(h', c);
    }
  }

  /** Every arena has a live block. */
  lemma ArenaHasLive(h: Heap, p: nat)
    requires Inv(h) && p in h.arenas
    ensures exists b: Addr :: b.page == p && IsLive(h, b)
  {
    match h.arenas[p] {
      case Big(_) => assert IsLive(h, Addr(p, ARENA_HEADER));
      case Small(d, _) =>
        CountsAtMost(h, p);
        var c :| c in Blocks(p, d) && c !in FreeList(h, d);
        assert IsLive(h, c);
    }
  }

  /** With nothing live, every page is back: malloc() leaks no pages. */
  lemma NothingLiveNothingHeld(h: Heap)
    requires Inv(h) && forall b :: !IsLive(h, b)
    ensures h.arenas == map[] && Held(h.pool) == Others(h)
  {
    forall p: nat
      ensures p !in h.arenas
    {
      if p in h.arenas {
        ArenaHasLive(h, p);
        assert false;
      }
    }
    assert forall p: nat, n: nat :: !InArenaAt(h, p, n);
  }

  /* ----- realloc() ----- */

  function Resize(h: Heap, prior: Pointer, size: nat): (r: Outcome)
  {
    if size == 0 then Outcome(if prior.Null? then h else Release(h, prior.addr), Null)
    else
      var r := Allocate(h, size);
      if prior.Null? || r.block.Null? then r else Outcome(Release(r.heap, prior.addr), r.block)
  }

  /** The bytes realloc() copies */
  function CopySize(h: Heap, prior: Addr, size: nat): (n: int)
    requires prior.page in h.arenas
  {
    if size < BlockBytes(h, prior) then size else BlockBytes(h, prior)
  }

  /** realloc() trades the old block for the new one, or leaves both alone when there is no memory. */
  lemma ResizeCorrect(h: Heap, prior: Pointer, size: nat)
    requires Inv(h) && (prior.Pointer? ==> IsLive(h, prior.addr))
    ensures var r := Resize(h, prior, size);
            && Inv(r.heap) && Others(r.heap) == Others(h)
            && (forall x :: IsLive(r.heap, x) <==>
                  Pointer(x) == r.block || (IsLive(h, x) && (Pointer(x) != prior || (r.block.Null? && size != 0))))
  {
    AllocateCorrect(h, size);
    if prior.Pointer? {
      if size == 0 {
        ReleaseCorrect(h, prior.addr);
      } else if Allocate(h, size).block.Pointer? {
        ReleaseCorrect(Allocate(h, size).heap, prior.addr);
      }
    }
  }

  /** realloc() returns null exactly when malloc() would. */
  lemma ResizeNullIff(h: Heap, prior: Pointer, size: nat)
    requires Inv(h) && size < SIZE_RANGE
    ensures Resize(h, prior, size).block.Null? <==> Refused(h, size)
  {
    AllocateNullIff(h, size);
  }

  /** Its copy reads inside the old block, which the new one does not overlap; it writes inside
      the new one exactly if adding the arena header to the size does not wrap, or the old block
      is no larger than the one page that is then returned. */
  lemma ResizeCopies(h: Heap, prior: Addr, size: nat)
    requires Inv(h) && IsLive(h, prior) && size < SIZE_RANGE && Allocate(h, size).block.Pointer?
    ensures var r := Allocate(h, size);
            && r.block.addr.page in r.heap.arenas && prior.page in r.heap.arenas
            && CopySize(r.heap, prior, size) <= BlockBytes(r.heap, prior) && CopySize(r.heap, prior, size) <= size
            && CopySize(r.heap, prior, size) in {BlockBytes(r.heap, prior), size}
            && (CopySize(r.heap, prior, size) <= BlockBytes(r.heap, r.block.addr) <==>
                size + ARENA_HEADER <= SIZE_RANGE || BlockBytes(r.heap, prior) <= PGSIZE - ARENA_HEADER)
            && (Linear(prior) + BlockBytes(r.heap, prior) <= Linear(r.block.addr)
                || Linear(r.block.addr) + BlockBytes(r.heap, r.block.addr) <= Linear(prior))
  {
    var r := Allocate(h, size);
    AllocateCorrect(h, size);
    EnoughIff(h, size);
    if size + ARENA_HEADER > SIZE_RANGE { WrappedBlock(h, size); }
    LiveApart(r.heap, prior, r.block.addr);
  }

  lemma WrappedBlock(h: Heap, size: nat)
    requires Inv(h) && size < SIZE_RANGE < size + ARENA_HEADER && Allocate(h, size).block.Pointer?
    ensures var r := Allocate(h, size);
            r.block.addr.page in r.heap.arenas && BlockBytes(r.heap, r.block.addr) == PGSIZE - ARENA_HEADER
  {
    BlockSizes();
    assert DescFor(size, 0) == DESC_CNT;
    assert PageCnt(size) == 1;
  }

  /* ----- Runs ----- */

  /** Calls of malloc(), free() and realloc(), and of the page allocator by the rest of the kernel */
  datatype Call = MallocCall(size: nat)
                | FreeCall(block: Pointer)
                | ReallocCall(prior: Pointer, size: nat)
                | GetPages(cnt: nat)
                | FreePagesCall(page: nat, cnt: nat)

  /** A caller frees only blocks and pages it was handed and has not given back. */
  ghost predicate Proper(h: Heap, c: Call)
  {
    match c
    case MallocCall(_) => true
    case FreeCall(p) => p.Pointer? ==> IsLive(h, p.addr)
    case ReallocCall(p, _) => p.Pointer? ==> IsLive(h, p.addr)
    case GetPages(_) => true
    case FreePagesCall(page, cnt) => cnt != 0 ==> Run(page, cnt) <= Others(h)
  }

  ghost function Next(h: Heap, c: Call): (r: Outcome)
  {
    match c
    case MallocCall(size) => Allocate(h, size)
    case FreeCall(p) => Outcome(if p.Null? then h else Release(h, p.addr), Null)
    case ReallocCall(p, size) => Resize(h, p, size)
    case GetPages(cnt) => Outcome(h.(pool := Get(h.pool, cnt)), Null)
    case FreePagesCall(page, cnt) => Outcome(h.(pool := if cnt == 0 then h.pool else Returned(h.pool, page, cnt)), Null)
  }

  ghost function Handed(b: Pointer): (s: set<Addr>)
  {
    match b case Null => {} case Pointer(a) => {a}
  }

  /** The blocks callers own after a call that returned `result`, going by the interface alone */
  ghost function Owned(c: Call, result: Pointer, owned: set<Addr>): (owned': set<Addr>)
  {
    match c
    case MallocCall(_) => owned + Handed(result)
    case FreeCall(p) => owned - Handed(p)
    case ReallocCall(p, size) => if size != 0 && result.Null? then owned else owned - Handed(p) + Handed(result)
    case _ => owned
  }

  /** The pages the rest of the kernel owns, likewise */
  ghost function OwnedPages(h: Heap, c: Call, pages: set<nat>): (pages': set<nat>)
  {
    match c
    case GetPages(cnt) => (match GetResult(h.pool, cnt) case NotFound => pages case At(n) => pages + Run(n, cnt))
    case FreePagesCall(page, cnt) => pages - Run(page, cnt)
    case _ => pages
  }

  ghost predicate Agrees(h: Heap, owned: set<Addr>, pages: set<nat>)
  {
    Inv(h) && (forall b :: IsLive(h, b) <==> b in owned) && Others(h) == pages
  }

  lemma PoolChange(h: Heap, h': Heap)
    requires Inv(h) && h'.free == h.free && h'.arenas == h.arenas && Held(h.pool) - Others(h) <= Held(h'.pool)
    ensures Inv(h') && SameLive(h, h')
    ensures forall n :: n in Others(h') <==> n in Held(h'.pool) && !(n in Held(h.pool) && n !in Others(h))
  {
    assert forall d: nat :: FreeList(h', d) == FreeList(h, d);
    assert forall p: nat, n: nat :: InArenaAt(h', p, n) <==> InArenaAt(h, p, n);
    assert forall n: nat :: InArena(h', n) <==> InArena(h, n);
    forall p, n | InArenaAt(h, p, n) ensures n in Held(h.pool) && n !in Others(h) { assert InArena(h, n); }
    forall p | p in h.arenas
      ensures Run(p, Extent(h.arenas[p])) <= Held(h'.pool)
    {
      forall n | n in Run(p, Extent(h.arenas[p])) ensures n in Held(h'.pool) { assert InArenaAt(h, p, n); }
    }
    assert ArenasApart(h');
  }

  lemma GetPagesKeeps(h: Heap, cnt: nat, owned: set<Addr>, pages: set<nat>)
    requires Agrees(h, owned, pages)
    ensures Agrees(h.(pool := Get(h.pool, cnt)), owned, OwnedPages(h, GetPages(cnt), pages))
  {
    var h' := h.(pool := Get(h.pool, cnt));
    if cnt != 0 { GetTakesFree(h.pool, cnt); }
    PoolChange(h, h');
    assert Others(h') == OwnedPages(h, GetPages(cnt), pages);
  }

  lemma FreePagesKeeps(h: Heap, page: nat, cnt: nat, owned: set<Addr>, pages: set<nat>)
    requires Agrees(h, owned, pages) && cnt != 0 && Run(page, cnt) <= pages
    ensures MayFree(h.pool, page, cnt)
    ensures Agrees(h.(pool := Returned(h.pool, page, cnt)), owned, pages - Run(page, cnt))
  {
    var h' := h.(pool := Returned(h.pool, page, cnt));
    assert page in Run(page, cnt) && page + cnt - 1 in Run(page, cnt);
    forall k | page - h.pool.base <= k < page - h.pool.base + cnt ensures h.pool.used[k] { assert h.pool.base + k in Run(page, cnt); }
    GiveReturns(h.pool, page, cnt);
    PoolChange(h, h');
    assert Others(h') == pages - Run(page, cnt);
  }

  lemma ReallocKeeps(h: Heap, p: Pointer, size: nat, owned: set<Addr>, pages: set<nat>)
    requires Agrees(h, owned, pages) && (p.Pointer? ==> IsLive(h, p.addr))
    ensures var r := Resize(h, p, size);
            Agrees(r.heap, Owned(ReallocCall(p, size), r.block, owned), pages) && Handed(r.block) !! owned
  {
    var r := Resize(h, p, size);
    var owned' := Owned(ReallocCall(p, size), r.block, owned);
    ResizeCorrect(h, p, size);
    AllocateCorrect(h, size);
    assert r.block.Pointer? ==> r.block.addr !in owned;
    forall b
      ensures IsLive(r.heap, b) <==> b in owned'
    {
      assert IsLive(h, b) <==> b in owned;
      assert Pointer(b) == r.block <==> b in Handed(r.block);
      assert Pointer(b) == p <==> b in Handed(p);
    }
  }

  lemma CallKeeps(h: Heap, c: Call, owned: set<Addr>, pages: set<nat>)
    requires Agrees(h, owned, pages) && Proper(h, c)
    ensures Agrees(Next(h, c).heap, Owned(c, Next(h, c).block, owned), OwnedPages(h, c, pages))
    ensures c.MallocCall? || c.ReallocCall? ==> Handed(Next(h, c).block) !! owned
  {
    match c {
      case MallocCall(size) => AllocateCorrect(h, size);
      case FreeCall(p) => if p.Pointer? { ReleaseCorrect(h, p.addr); }
      case ReallocCall(p, size) => ReallocKeeps(h, p, size, owned, pages);
      case GetPages(cnt) => GetPagesKeeps(h, cnt, owned, pages);
      case FreePagesCall(page, cnt) =>
        if cnt != 0 { FreePagesKeeps(h, page, cnt, owned, pages); }
    }
  }

  ghost predicate IsRun(h: Heap, cs: seq<Call>)
    decreases |cs|
  {
    cs == [] || (Proper(h, cs[0]) && IsRun(Next(h, cs[0]).heap, cs[1..]))
  }

  ghost function After(h: Heap, cs: seq<Call>): (h': Heap)
    decreases |cs|
  {
    if cs == [] then h else After(Next(h, cs[0]).heap, cs[1..])
  }

  ghost function OwnedAfter(h: Heap, cs: seq<Call>, owned: set<Addr>): (owned': set<Addr>)
    decreases |cs|
  {
    if cs == [] then owned
    else OwnedAfter(Next(h, cs[0]).heap, cs[1..], Owned(cs[0], Next(h, cs[0]).block, owned))
  }

  ghost function OwnedPagesAfter(h: Heap, cs: seq<Call>, pages: set<nat>): (pages': set<nat>)
    decreases |cs|
  {
    if cs == [] then pages else OwnedPagesAfter(Next(h, cs[0]).heap, cs[1..], OwnedPages(h, cs[0], pages))
  }

  lemma {:induction false} RunKeeps(h: Heap, cs: seq<Call>, owned: set<Addr>, pages: set<nat>)
    requires Agrees(h, owned, pages) && IsRun(h, cs)
    ensures Agrees(After(h, cs), OwnedAfter(h, cs, owned), OwnedPagesAfter(h, cs, pages))
    decreases |cs|
  {
    if cs != [] {
      CallKeeps(h, cs[0], owned, pages);
      RunKeeps(Next(h, cs[0]).heap, cs[1..], Owned(cs[0], Next(h, cs[0]).block, owned), OwnedPages(h, cs[0], pages));
    }
  }

  /** From an empty heap, after any run of proper calls: the live blocks are those the callers own,
      they share no byte, and once all are freed the pool holds only the other callers' pages. */
  lemma RunIsSafe(pool: Pool, cs: seq<Call>)
    requires IsRun(EmptyHeap(pool), cs)
    ensures var h, owned := After(EmptyHeap(pool), cs), OwnedAfter(EmptyHeap(pool), cs, {});
            && Inv(h) && (forall b :: b in owned ==> b.page in h.arenas)
            && (forall b, c | b in owned && c in owned && b != c ::
                  Linear(b) + BlockBytes(h, b) <= Linear(c) || Linear(c) + BlockBytes(h, c) <= Linear(b))
            && (owned == {} ==> h.arenas == map[] && Held(h.pool) == OwnedPagesAfter(EmptyHeap(pool), cs, Held(pool)))
  {
    var h, owned := After(EmptyHeap(pool), cs), OwnedAfter(EmptyHeap(pool), cs, {});
    EmptyHeapInv(pool);
    RunKeeps(EmptyHeap(pool), cs, {}, Held(pool));
    forall b, c | b in owned && c in owned && b != c
      ensures Linear(b) + BlockBytes(h, b) <= Linear(c) || Linear(c) + BlockBytes(h, c) <= Linear(b)
    {
      LiveApart(h, b, c);
    }
    if owned == {} { NothingLiveNothingHeld(h); }
  }
}
