/** malloc.c in place: the descriptors and arenas as the kernel updates them. */
module MallocKernel {
  import opened Bitmaps
  import opened Palloc
  import opened Malloc

  /** struct desc, without its lock */
  datatype Desc = Desc(blockSize: nat, blocksPerArena: nat, freeList: seq<Addr>)

  ghost function Lists(descs: seq<Desc>): (l: FreeLists)
    requires |descs| == DESC_CNT
    ensures forall d: nat | d < DESC_CNT :: l[d] == descs[d].freeList
  {
    seq(DESC_CNT, d requires 0 <= d < DESC_CNT => descs[d].freeList)
  }

  ghost predicate DescsOk(descs: seq<Desc>)
  {
    |descs| == DESC_CNT &&
    forall d: nat | d < DESC_CNT :: descs[d].blockSize == BlockSize(d) && descs[d].blocksPerArena == PerArena(d)
  }

  /** The loop of malloc_init() */
  method InitDescs() returns (descs: seq<Desc>)
    ensures DescsOk(descs) && forall d: nat | d < DESC_CNT :: descs[d].freeList == []
  {
    BlockSizes();
    descs := [];
    var blockSize := 16;
    while blockSize < PGSIZE / 2
      invariant |descs| <= DESC_CNT && blockSize == BlockSize(|descs|)
      invariant forall d: nat | d < |descs| :: descs[d] == Desc(BlockSize(d), PerArena(d), [])
      decreases DESC_CNT - |descs|
    {
      descs := descs + [Desc(blockSize, (PGSIZE - ARENA_HEADER) / blockSize, [])];
      blockSize := blockSize * 2;
    }
  }

  class Allocator {
    const pages: PageAllocator
    var descs: seq<Desc>
    var arenas: map<nat, Arena>

    /** malloc_init() */
    constructor (pages: PageAllocator)
      requires pages.Valid()
      ensures this.pages == pages && Valid() && View() == EmptyHeap(pages.View().kernel)
    {
      this.pages := pages;
      var descs := InitDescs();
      this.descs := descs;
      arenas := map[];
      EmptyHeapInv(pages.View().kernel);
      assert Lists(descs) == EmptyHeap(pages.View().kernel).free;
    }

    ghost predicate Valid()
      reads this, pages.kernelPool.usedMap.bits, pages.userPool.usedMap.bits
    {
      pages.Valid() && DescsOk(descs) && Inv(View())
    }

    ghost function View(): Heap
      requires pages.kernelPool.Valid() && |descs| == DESC_CNT
      reads this, pages.kernelPool.usedMap.bits
    {
      Heap(pages.kernelPool.View(), Lists(descs), arenas)
    }

    /** The search loop at the start of malloc() */
    method FindDesc(size: nat) returns (d: nat)
      requires DescsOk(descs)
      ensures d == DescFor(size, 0)
    {
      d := 0;
      while d < DESC_CNT && descs[d].blockSize < size
        invariant d <= DESC_CNT && DescFor(size, d) == DescFor(size, 0)
      {
        d := d + 1;
      }
    }

    method SetList(d: nat, l: seq<Addr>)
      requires pages.kernelPool.Valid() && DescsOk(descs) && d < DESC_CNT
      modifies this`descs
      ensures DescsOk(descs) && View() == WithList(old(View()), d, l)
    {
      descs := descs[d := descs[d].(freeList := l)];
      assert Lists(descs) == Lists(old(descs))[d := l];
    }

    /** list_pop_front() and the count of the block's arena */
    method TakeBlock(d: nat) returns (b: Addr)
      requires pages.kernelPool.Valid() && DescsOk(descs) && Shape(View()) && d < DESC_CNT && FreeList(View(), d) != []
      modifies this
      ensures DescsOk(descs) && Outcome(View(), Pointer(b)) == Take(old(View()), d)
    {
      HeadCounted(View(), d);
      b := descs[d].freeList[0];
      SetList(d, descs[d].freeList[1..]);
      var a := arenas[b.page];
      arenas := arenas[b.page := a.(freeCnt := a.freeCnt - 1)];
    }
  
    /** The loop of malloc() that puts a new arena's blocks on the free list */
    method AddBlocks(d: nat, page: nat)
      requires pages.kernelPool.Valid() && DescsOk(descs) && d < DESC_CNT
      modifies this`descs
      ensures DescsOk(descs) && View() == WithList(old(View()), d, FreeList(old(View()), d) + Blocks(page, d))
    {
      var l := descs[d].freeList;
      var n := descs[d].blocksPerArena;
      for i := 0 to n
        invariant l == descs[d].freeList + Blocks(page, d)[..i]
      {
        l := l + [BlockAt(page, d, i)];
      }
      assert Blocks(page, d)[..n] == Blocks(page, d);
      SetList(d, l);
    }

    method GetArena(d: nat) returns (ok: bool)
      requires Valid() && d < DESC_CNT && FreeList(View(), d) == []
      modifies this, pages.kernelPool.usedMap.bits, pages.userPool.usedMap.bits
      ensures ok == GetResult(old(View()).pool, 1).At?
      ensures pages.Valid() && DescsOk(descs)
      ensures View() == if ok then NewArena(old(View()), d, GetResult(old(View()).pool, 1).index) else old(View())
      ensures ok ==> Shape(View()) && FreeList(View(), d) != []
    {
      ghost var h := View();
      var r := pages.GetMultiple(false, 1);
      if r.NotFound? {
        return false;
      }
      arenas := arenas[r.index := Small(d, descs[d].blocksPerArena)];
      AddBlocks(d, r.index);
      assert View() == NewArena(h, d, r.index);
      BlockSizes();
      NewArenaShape(h, d);
      return true;
    }

    method AllocateSmall(d: nat) returns (b: Pointer)
      requires Valid() && d < DESC_CNT
      modifies this, pages.kernelPool.usedMap.bits, pages.userPool.usedMap.bits
      ensures pages.Valid() && DescsOk(descs) && Outcome(View(), b) == MallocSmall(old(View()), d)
    {
      if descs[d].freeList == [] {
        var ok := GetArena(d);
        if !ok {
          return Null;
        }
      }
      var a := TakeBlock(d);
      b := Pointer(a);
    }

    method AllocateBig(size: nat) returns (b: Pointer)
      requires Valid()
      modifies this, pages.kernelPool.usedMap.bits, pages.userPool.usedMap.bits
      ensures pages.Valid() && DescsOk(descs) && Outcome(View(), b) == MallocBig(old(View()), size)
    {
      var cnt := PageCnt(size);
      var r := pages.GetMultiple(false, cnt);
      match r {
        case NotFound => b := Null;
        case At(n) =>
          arenas := arenas[n := Big(cnt)];
          b := Pointer(Addr(n, ARENA_HEADER));
      }
    }

    /** malloc() */
    method Allocate(size: nat) returns (b: Pointer)
      requires Valid()
      modifies this, pages.kernelPool.usedMap.bits, pages.userPool.usedMap.bits
      ensures Valid() && Outcome(View(), b) == Malloc.Allocate(old(View()), size)
      ensures size < SIZE_RANGE ==> (b.Null? <==> Refused(old(View()), size))
    {
      AllocateCorrect(View(), size);
      if size < SIZE_RANGE { AllocateNullIff(View(), size); }
      if size == 0 {
        return Null;
      }
      var d := FindDesc(size);
      if d == DESC_CNT {
        b := AllocateBig(size);
      } else {
        b := AllocateSmall(d);
      }
    }

    /** The loop of free() that takes an arena's blocks off the free list; each of them is on it. */
    method RemoveBlocks(d: nat, page: nat)
      requires pages.kernelPool.Valid() && DescsOk(descs) && d < DESC_CNT
      requires Distinct(FreeList(View(), d)) && AllFree(View(), page, d)
      modifies this`descs
      ensures DescsOk(descs)
      ensures View() == WithList(old(View()), d, WithoutBlocks(FreeList(old(View()), d), page, d, PerArena(d)))
    {
      ghost var start := descs[d].freeList;
      var l := descs[d].freeList;
      var n := descs[d].blocksPerArena;
      for i := 0 to n
        invariant descs == old(descs) && l == WithoutBlocks(start, page, d, i)
      {
        BlockStillThere(start, page, d, i);
        l := ListRemove(l, BlockAt(page, d, i));
      }
      SetList(d, l);
    }

    /** free() */
    method Free(p: Pointer)
      requires Valid() && (p.Pointer? ==> IsLive(View(), p.addr))
      modifies this, pages.kernelPool.usedMap.bits, pages.userPool.usedMap.bits
      ensures Valid() && View() == if p.Null? then old(View()) else Release(old(View()), p.addr)
    {
      match p {
        case Null =>
        case Pointer(b) =>
          ReleaseCorrect(View(), b);
          match arenas[b.page] {
            case Big(cnt) =>
              ArenaMayFree(View(), b.page);
              pages.FreeMultiple(b.page, cnt);
              arenas := arenas - {b.page};
            case Small(d, n) => FreeSmall(b, d, n);
          }
      }
    }

    method FreeSmall(b: Addr, d: nat, n: nat)
      requires Valid() && IsLive(View(), b) && arenas[b.page] == Small(d, n)
      modifies this, pages.kernelPool.usedMap.bits, pages.userPool.usedMap.bits
      ensures pages.Valid() && DescsOk(descs) && View() == Release(old(View()), b)
    {
      PutShape(View(), b);
      CountsAtMost(Put(View(), b), b.page);
      PutBlock(b, d, n);
      if n + 1 >= descs[d].blocksPerArena {
        DropArena(b.page, d);
      }
    }

    method PutBlock(b: Addr, d: nat, n: nat)
      requires pages.Valid() && DescsOk(descs) && d < DESC_CNT && b.page in arenas && arenas[b.page] == Small(d, n)
      modifies this
      ensures pages.Valid() && DescsOk(descs) && View() == Put(old(View()), b)
    {
      SetList(d, [b] + descs[d].freeList);
      arenas := arenas[b.page := Small(d, n + 1)];
    }

    method DropArena(page: nat, d: nat)
      requires pages.Valid() && DescsOk(descs) && Shape(View()) && d < DESC_CNT
      requires IsSmall(View(), page, d) && AllFree(View(), page, d)
      modifies this, pages.kernelPool.usedMap.bits, pages.userPool.usedMap.bits
      ensures pages.Valid() && DescsOk(descs) && View() == Drop(old(View()), page, d)
    {
      ArenaMayFree(View(), page);
      RemoveBlocks(d, page);
      pages.FreeMultiple(page, 1);
      arenas := arenas - {page};
    }

    /** realloc() */
    method Resize(prior: Pointer, size: nat) returns (b: Pointer)
      requires Valid() && (prior.Pointer? ==> IsLive(View(), prior.addr))
      modifies this, pages.kernelPool.usedMap.bits, pages.userPool.usedMap.bits
      ensures Valid() && Outcome(View(), b) == Malloc.Resize(old(View()), prior, size)
      ensures size < SIZE_RANGE ==> (b.Null? <==> Refused(old(View()), size))
    {
      if size == 0 {
        Free(prior);
        return Null;
      }
      AllocateCorrect(View(), size);
      b := Allocate(size);
      if prior.Pointer? && b.Pointer? {
        Free(prior);
      }
    }
  }

  lemma BlockStillThere(l: seq<Addr>, page: nat, d: nat, i: nat)
    requires Distinct(l) && i < PerArena(d) && forall b | b in Blocks(page, d) :: b in l
    ensures BlockAt(page, d, i) in WithoutBlocks(l, page, d, i)
  {
    WithoutBlocksElems(l, page, d, i);
    BlocksDistinct(page, d);
    assert Blocks(page, d)[i] == BlockAt(page, d, i);
  }

  /** list_remove(), whose caller must pass an element of the list */
  function ListRemove(l: seq<Addr>, b: Addr): (r: seq<Addr>)
    requires b in l
    ensures multiset(l) == multiset(r) + multiset{b}
  {
    WithoutOne(l, b);
    Without(l, b)
  }

  lemma {:induction false} WithoutOne(l: seq<Addr>, b: Addr)
    requires b in l
    ensures multiset(l) == multiset(Without(l, b)) + multiset{b}
  {
    assert l == [l[0]] + l[1..];
    if l[0] != b { WithoutOne(l[1..], b); }
  }
}
