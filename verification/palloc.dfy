/** palloc.c: the page allocator, two pools of pages each with a bitmap of the pages in use.
    A page is known by its page number. */
module Palloc {
  import opened Bitmaps

  const PGSIZE := 4096

  /** The contents of a pool: its first page, and which of its pages are in use. */
  datatype Pool = Pool(base: nat, used: seq<bool>)

  datatype Pools = Pools(kernel: Pool, user: Pool)

  /* ----- Held and free pages ----- */

  /** page_from_pool() */
  predicate FromPool(p: Pool, page: nat)
  {
    p.base <= page < p.base + |p.used|
  }

  predicate InUse(p: Pool, page: nat)
  {
    FromPool(p, page) && p.used[page - p.base]
  }

  ghost function All(p: Pool): (s: set<nat>)
  {
    Run(p.base, |p.used|)
  }

  ghost function Held(p: Pool): (s: set<nat>)
    ensures forall n: nat :: n in s <==> InUse(p, n)
  {
    set n | n in All(p) && InUse(p, n)
  }

  ghost function Free(p: Pool): (s: set<nat>)
    ensures forall n: nat :: n in s <==> FromPool(p, n) && !InUse(p, n)
  {
    set n | n in All(p) && !InUse(p, n)
  }

  /** Every page of a pool is either held or free. */
  lemma HeldAndFree(p: Pool)
    ensures Held(p) + Free(p) == All(p) && Held(p) !! Free(p)
    ensures |Held(p)| + |Free(p)| == |p.used|
  {
    RunCount(p.base, |p.used|);
    assert Held(p) + Free(p) == All(p);
  }

  /* ----- One pool ----- */

  /** What palloc_get_multiple() returns, with NotFound for a null pointer */
  function GetResult(p: Pool, cnt: nat): (r: Found)
  {
    if cnt == 0 then NotFound
    else
      match ScanFrom(p.used, 0, cnt)
      case NotFound => NotFound
      case At(i) => At(p.base + i)
  }

  /** The pool after palloc_get_multiple() */
  function Get(p: Pool, cnt: nat): (p': Pool)
    ensures p'.base == p.base && |p'.used| == |p.used|
  {
    match GetResult(p, cnt)
    case NotFound => p
    case At(n) => p.(used := Fill(p.used, n - p.base, cnt, true))
  }

  /** palloc_free_multiple() asserts that the pages are in use. */
  predicate MayFree(p: Pool, page: nat, cnt: nat)
  {
    p.base <= page && Uniform(p.used, page - p.base, cnt, true)
  }

  /** The pool after palloc_free_multiple() */
  function Give(p: Pool, page: nat, cnt: nat): (p': Pool)
    requires MayFree(p, page, cnt)
    ensures p'.base == p.base && |p'.used| == |p.used|
  {
    p.(used := Fill(p.used, page - p.base, cnt, false))
  }

  /** palloc_get_multiple() hands out pages nobody holds, the lowest run there is,
      and fails exactly when no run of free pages is long enough. */
  lemma GetTakesFree(p: Pool, cnt: nat)
    requires cnt != 0
    ensures match GetResult(p, cnt)
            case At(n) =>
              && Run(n, cnt) <= Free(p) && Held(Get(p, cnt)) == Held(p) + Run(n, cnt)
              && (forall m: nat | Run(m, cnt) <= Free(p) :: n <= m)
            case NotFound => Get(p, cnt) == p && forall m: nat :: !(Run(m, cnt) <= Free(p))
  {
    forall m: nat
      ensures Run(m, cnt) <= Free(p) <==> p.base <= m && Uniform(p.used, m - p.base, cnt, false)
    {
      FreeRun(p, m, cnt);
    }
    match GetResult(p, cnt) {
      case NotFound =>
      case At(n) =>
        assert Held(Get(p, cnt)) == Held(p) + Run(n, cnt);
    }
  }

  lemma FreeRun(p: Pool, m: nat, cnt: nat)
    requires cnt != 0
    ensures Run(m, cnt) <= Free(p) <==> p.base <= m && Uniform(p.used, m - p.base, cnt, false)
  {
    if Run(m, cnt) <= Free(p) {
      assert m in Run(m, cnt) && m + cnt - 1 in Run(m, cnt);
      forall k | m - p.base <= k < m - p.base + cnt ensures !p.used[k] { assert p.base + k in Run(m, cnt); }
    }
  }

  lemma GiveReturns(p: Pool, page: nat, cnt: nat)
    requires MayFree(p, page, cnt)
    ensures Run(page, cnt) <= Held(p) && Held(Give(p, page, cnt)) == Held(p) - Run(page, cnt)
  {
    assert Held(Give(p, page, cnt)) == Held(p) - Run(page, cnt);
  }

  /** Freeing what was just obtained restores the pool. */
  lemma GiveUndoesGet(p: Pool, cnt: nat)
    requires GetResult(p, cnt).At?
    ensures MayFree(Get(p, cnt), GetResult(p, cnt).index, cnt)
    ensures Give(Get(p, cnt), GetResult(p, cnt).index, cnt) == p
  {
    assert Give(Get(p, cnt), GetResult(p, cnt).index, cnt).used == p.used;
  }

  /* ----- Both pools ----- */

  /** A caller's request: palloc_get_multiple(PAL_USER or 0, cnt) or palloc_free_multiple(page, cnt) */
  datatype Request = Obtain(user: bool, cnt: nat) | Return(page: nat, cnt: nat)

  predicate PoolsApart(s: Pools)
  {
    s.kernel.base + |s.kernel.used| <= s.user.base
  }

  ghost function HeldPages(s: Pools): set<nat>
  {
    Held(s.kernel) + Held(s.user)
  }

  ghost function FreePages(s: Pools): set<nat>
  {
    Free(s.kernel) + Free(s.user)
  }

  /** The pages a request returns */
  function Obtained(s: Pools, user: bool, cnt: nat): (r: Found)
  {
    GetResult(if user then s.user else s.kernel, cnt)
  }

  /** The assertions of palloc_free_multiple(), which is a no-op for zero pages */
  predicate Allowed(s: Pools, r: Request)
  {
    match r
    case Obtain(_, _) => true
    case Return(page, cnt) =>
      cnt == 0 ||
      if FromPool(s.kernel, page) then MayFree(s.kernel, page, cnt)
      else FromPool(s.user, page) && MayFree(s.user, page, cnt)
  }

  function Serve(s: Pools, r: Request): (s': Pools)
    requires Allowed(s, r)
  {
    match r
    case Obtain(user, cnt) =>
      if user then s.(user := Get(s.user, cnt)) else s.(kernel := Get(s.kernel, cnt))
    case Return(page, cnt) =>
      if cnt == 0 then s
      else if FromPool(s.kernel, page) then s.(kernel := Give(s.kernel, page, cnt))
      else s.(user := Give(s.user, page, cnt))
  }

  /** The pages the callers hold once a request is served, by what they were handed and gave back */
  function Ledger(s: Pools, r: Request, held: set<nat>): (held': set<nat>)
  {
    match r
    case Obtain(user, cnt) => (match Obtained(s, user, cnt) case NotFound => held case At(n) => held + Run(n, cnt))
    case Return(page, cnt) => held - Run(page, cnt)
  }

  predicate IsRun(s: Pools, rs: seq<Request>)
    decreases |rs|
  {
    rs == [] || (Allowed(s, rs[0]) && IsRun(Serve(s, rs[0]), rs[1..]))
  }

  function After(s: Pools, rs: seq<Request>): (s': Pools)
    requires IsRun(s, rs)
    decreases |rs|
  {
    if rs == [] then s else After(Serve(s, rs[0]), rs[1..])
  }

  function LedgerAfter(s: Pools, rs: seq<Request>, held: set<nat>): (held': set<nat>)
    requires IsRun(s, rs)
    decreases |rs|
  {
    if rs == [] then held else LedgerAfter(Serve(s, rs[0]), rs[1..], Ledger(s, rs[0], held))
  }

  /** One request keeps the pools where they are, and the bitmaps agree with the callers' ledger. */
  lemma ServeKeepsLedger(s: Pools, r: Request)
    requires PoolsApart(s) && Allowed(s, r)
    ensures SameExtent(s, Serve(s, r))
    ensures HeldPages(Serve(s, r)) == Ledger(s, r, HeldPages(s))
    ensures r.Obtain? && Obtained(s, r.user, r.cnt).At? ==>
              Run(Obtained(s, r.user, r.cnt).index, r.cnt) <= (if r.user then Free(s.user) else Free(s.kernel)) <= FreePages(s)
  {
    match r {
      case Obtain(user, cnt) =>
        if cnt != 0 { GetTakesFree(if user then s.user else s.kernel, cnt); }
      case Return(page, cnt) =>
        if cnt == 0 {
        } else if FromPool(s.kernel, page) {
          GiveReturns(s.kernel, page, cnt);
        } else {
          GiveReturns(s.user, page, cnt);
        }
    }
  }

  predicate SameExtent(s: Pools, s': Pools)
  {
    && s'.kernel.base == s.kernel.base && |s'.kernel.used| == |s.kernel.used|
    && s'.user.base == s.user.base && |s'.user.used| == |s.user.used|
  }

  lemma HeldFreeApart(s: Pools)
    requires PoolsApart(s)
    ensures HeldPages(s) !! FreePages(s)
    ensures |HeldPages(s)| + |FreePages(s)| == |s.kernel.used| + |s.user.used|
  {
    HeldAndFree(s.kernel);
    HeldAndFree(s.user);
    assert Held(s.kernel) !! Held(s.user) && Free(s.kernel) !! Free(s.user);
  }

  /** Over any run of requests: a page handed out is one nobody holds, what the bitmaps mark
      is what the callers hold, and held and free pages always add up to the same number. */
  lemma {:induction false} RunKeepsLedger(s: Pools, rs: seq<Request>)
    requires PoolsApart(s) && IsRun(s, rs)
    ensures SameExtent(s, After(s, rs)) && PoolsApart(After(s, rs))
    ensures HeldPages(After(s, rs)) == LedgerAfter(s, rs, HeldPages(s))
    ensures |HeldPages(After(s, rs))| + |FreePages(After(s, rs))| == |HeldPages(s)| + |FreePages(s)|
    ensures HeldPages(After(s, rs)) !! FreePages(After(s, rs))
    decreases |rs|
  {
    HeldFreeApart(s);
    if rs != [] {
      ServeKeepsLedger(s, rs[0]);
      HeldFreeApart(Serve(s, rs[0]));
      RunKeepsLedger(Serve(s, rs[0]), rs[1..]);
    }
  }

  /** No page is ever held twice: what any run hands out next is disjoint from what is still held. */
  lemma NeverHeldTwice(s: Pools, rs: seq<Request>, user: bool, cnt: nat)
    requires PoolsApart(s) && IsRun(s, rs)
    ensures match Obtained(After(s, rs), user, cnt)
            case NotFound => true
            case At(n) => Run(n, cnt) !! LedgerAfter(s, rs, HeldPages(s))
  {
    RunKeepsLedger(s, rs);
    ServeKeepsLedger(After(s, rs), Obtain(user, cnt));
  }

  /* ----- palloc_init() ----- */

  const FIRST_FREE_PAGE := 1024 * 1024 / PGSIZE

  function DivRoundUp(x: nat, step: nat): (q: nat)
    requires step > 0
  {
    (x + step - 1) / step
  }

  /** bitmap_buf_size(): an 8-byte struct bitmap and 4 bytes a word */
  function BitmapBufSize(bits: nat): (n: nat)
  {
    8 + 4 * ElemCnt(bits)
  }

  datatype Booted = Panic | Ready(pools: Pools)

  function BitmapPages(cnt: nat): (n: nat)
  {
    DivRoundUp(BitmapBufSize(cnt), PGSIZE)
  }

  /** init_pool(), where it does not panic */
  function InitPool(first: nat, cnt: nat): (p: Pool)
    requires BitmapPages(cnt) <= cnt
  {
    Pool(first + BitmapPages(cnt), seq(cnt - BitmapPages(cnt), _ => false))
  }

  function UserShare(ramPages: nat, userLimit: nat): (n: nat)
    requires ramPages >= FIRST_FREE_PAGE
  {
    var half := (ramPages - FIRST_FREE_PAGE) / 2;
    if half > userLimit then userLimit else half
  }

  function Init(ramPages: nat, userLimit: nat): (r: Booted)
    requires ramPages >= FIRST_FREE_PAGE
  {
    var userPages := UserShare(ramPages, userLimit);
    var kernelPages := ramPages - FIRST_FREE_PAGE - userPages;
    if BitmapPages(kernelPages) > kernelPages || BitmapPages(userPages) > userPages then Panic
    else
      Ready(Pools(InitPool(FIRST_FREE_PAGE, kernelPages), InitPool(FIRST_FREE_PAGE + kernelPages, userPages)))
  }

  lemma BitmapIsSmall(cnt: nat)
    ensures BitmapPages(cnt) <= cnt <==> cnt != 0
  {
    assert ElemCnt(cnt) <= cnt;
  }

  /** The bitmap at the head of a pool's memory fits in front of the pages it describes. */
  lemma BitmapFits(first: nat, cnt: nat)
    requires BitmapPages(cnt) <= cnt
    ensures BitmapBufSize(|InitPool(first, cnt).used|) <= (InitPool(first, cnt).base - first) * PGSIZE
  {
    var left := cnt - BitmapPages(cnt);
    assert ElemCnt(left) <= ElemCnt(cnt);
  }

  /** Booting fails exactly when a pool's share of memory is empty; otherwise the two pools and
      their bitmaps share free memory without overlap; all pages start out free. */
  lemma InitSplitsMemory(ramPages: nat, userLimit: nat)
    requires ramPages >= FIRST_FREE_PAGE
    ensures match Init(ramPages, userLimit)
            case Panic => ramPages < FIRST_FREE_PAGE + 2 || userLimit == 0
            case Ready(s) =>
              && ramPages >= FIRST_FREE_PAGE + 2 && userLimit != 0
              && PoolsApart(s) && HeldPages(s) == {}
              && FIRST_FREE_PAGE * PGSIZE + BitmapBufSize(|s.kernel.used|) <= s.kernel.base * PGSIZE
              && (s.kernel.base + |s.kernel.used|) * PGSIZE + BitmapBufSize(|s.user.used|) <= s.user.base * PGSIZE
              && s.user.base + |s.user.used| == ramPages
  {
    var userPages := UserShare(ramPages, userLimit);
    var kernelPages := ramPages - FIRST_FREE_PAGE - userPages;
    BitmapIsSmall(userPages);
    BitmapIsSmall(kernelPages);
    if Init(ramPages, userLimit).Ready? {
      BitmapFits(FIRST_FREE_PAGE, kernelPages);
      BitmapFits(FIRST_FREE_PAGE + kernelPages, userPages);
    }
  }

  /** Of `free` pages the user pool gets half, rounded down, but no more than its limit. */
  predicate IsUserShare(free: nat, limit: nat, share: int)
  {
    share <= limit && 2 * share <= free && (share == limit || free < 2 * share + 2)
  }

  /** `n` pages hold `bytes` bytes and one page less does not. */
  predicate LeastPages(n: int, bytes: nat)
  {
    (n - 1) * PGSIZE < bytes <= n * PGSIZE
  }

  predicate LeastWords(n: int, bits: nat)
  {
    (n - 1) * 32 < bits <= n * 32
  }

  /** `pages` pages are what a struct bitmap of 8 bytes and the 4-byte words of `bits` bits take. */
  ghost predicate TakesPages(bits: nat, pages: int)
  {
    exists words: nat :: LeastWords(words, bits) && LeastPages(pages, 8 + 4 * words)
  }

  /** How memory is shared: the user pool gets half of it up to its limit, the kernel pool the rest, and
      either loses no page more than its bitmap takes. */
  lemma InitShares(ramPages: nat, userLimit: nat)
    requires ramPages >= FIRST_FREE_PAGE && Init(ramPages, userLimit).Ready?
    ensures var s := Init(ramPages, userLimit).pools;
            var end := s.kernel.base + |s.kernel.used|;
            && IsUserShare(ramPages - FIRST_FREE_PAGE, userLimit, ramPages - end)
            && end - FIRST_FREE_PAGE >= 0 && TakesPages(end - FIRST_FREE_PAGE, s.kernel.base - FIRST_FREE_PAGE)
            && ramPages - end >= 0 && TakesPages(ramPages - end, s.user.base - end)
            && s.user.base + |s.user.used| == ramPages
  {
    var userPages := UserShare(ramPages, userLimit);
    BitmapPagesLeast(userPages);
    BitmapPagesLeast(ramPages - FIRST_FREE_PAGE - userPages);
  }

  lemma BitmapPagesLeast(cnt: nat)
    ensures TakesPages(cnt, BitmapPages(cnt))
  {
    assert LeastWords(ElemCnt(cnt), cnt) && LeastPages(BitmapPages(cnt), 8 + 4 * ElemCnt(cnt));
  }

  /* ----- In place ----- */

  /** struct pool */
  class PagePool {
    const base: nat
    const usedMap: Bitmap

    constructor (first: nat, cnt: nat)
      requires BitmapPages(cnt) <= cnt
      ensures Valid() && fresh(usedMap.bits) && View() == InitPool(first, cnt)
    {
      base := first + BitmapPages(cnt);
      usedMap := new Bitmap(cnt - BitmapPages(cnt));
    }

    ghost predicate Valid()
      reads usedMap.bits
    {
      usedMap.Valid()
    }

    ghost function View(): Pool
      requires Valid()
      reads usedMap.bits
    {
      Pool(base, usedMap.Contents())
    }

    /** page_from_pool() */
    method Owns(page: nat) returns (r: bool)
      requires Valid()
      ensures r == FromPool(View(), page)
    {
      r := base <= page < base + usedMap.bitCnt;
    }
  }

  lemma InitIs(ramPages: nat, userLimit: nat, userPages: nat, kernelPages: nat)
    requires ramPages >= FIRST_FREE_PAGE && Init(ramPages, userLimit).Ready?
    requires userPages == UserShare(ramPages, userLimit) && kernelPages == ramPages - FIRST_FREE_PAGE - userPages
    ensures BitmapPages(kernelPages) <= kernelPages && BitmapPages(userPages) <= userPages
    ensures var s := Pools(InitPool(FIRST_FREE_PAGE, kernelPages), InitPool(FIRST_FREE_PAGE + kernelPages, userPages));
            s == Init(ramPages, userLimit).pools && PoolsApart(s)
  {
    InitSplitsMemory(ramPages, userLimit);
  }

  class PageAllocator {
    const kernelPool: PagePool
    const userPool: PagePool

    /** palloc_init(), where it does not panic */
    constructor (ramPages: nat, userLimit: nat)
      requires ramPages >= FIRST_FREE_PAGE && Init(ramPages, userLimit).Ready?
      ensures Valid() && View() == Init(ramPages, userLimit).pools
      ensures fresh(kernelPool.usedMap.bits) && fresh(userPool.usedMap.bits)
    {
      var userPages := UserShare(ramPages, userLimit);
      var kernelPages := ramPages - FIRST_FREE_PAGE - userPages;
      InitIs(ramPages, userLimit, userPages, kernelPages);
      kernelPool := new PagePool(FIRST_FREE_PAGE, kernelPages);
      userPool := new PagePool(FIRST_FREE_PAGE + kernelPages, userPages);
    }

    ghost predicate Valid()
      reads kernelPool.usedMap.bits, userPool.usedMap.bits
    {
      && kernelPool.Valid() && userPool.Valid()
      && kernelPool.usedMap.bits != userPool.usedMap.bits && PoolsApart(View())
    }

    ghost function View(): Pools
      requires kernelPool.Valid() && userPool.Valid()
      reads kernelPool.usedMap.bits, userPool.usedMap.bits
    {
      Pools(kernelPool.View(), userPool.View())
    }

    /** palloc_get_multiple() */
    method GetMultiple(user: bool, cnt: nat) returns (r: Found)
      requires Valid()
      modifies kernelPool.usedMap.bits, userPool.usedMap.bits
      ensures Valid() && r == Obtained(old(View()), user, cnt)
      ensures View() == Serve(old(View()), Obtain(user, cnt))
    {
      var pool := if user then userPool else kernelPool;
      if cnt == 0 {
        return NotFound;
      }
      ghost var was := pool.View();
      var idx := pool.usedMap.ScanAndFlip(0, cnt, false);
      FirstUniformUnique(was.used, 0, cnt, false, idx, ScanFrom(was.used, 0, cnt));
      match idx {
        case NotFound => r := NotFound;
        case At(i) => r := At(pool.base + i);
      }
    }

    /** palloc_free_multiple() */
    method FreeMultiple(page: nat, cnt: nat)
      requires Valid() && Allowed(View(), Return(page, cnt))
      modifies kernelPool.usedMap.bits, userPool.usedMap.bits
      ensures Valid() && View() == Serve(old(View()), Return(page, cnt))
    {
      if cnt == 0 {
        return;
      }
      var inKernel := kernelPool.Owns(page);
      var pool := if inKernel then kernelPool else userPool;
      pool.usedMap.SetMultiple(page - pool.base, cnt, false);
    }
  }
}
