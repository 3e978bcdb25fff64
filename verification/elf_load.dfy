/** process.c: loading an ELF segment into a process's address space. */
module ElfLoad {
  import opened Bitmaps
  import opened Palloc
  import opened PageTable

  const RANGE := 0x1_0000_0000
  const PHYS_BASE := 0xC000_0000

  type Word = w: int | 0 <= w < RANGE

  /** struct Elf32_Phdr, the fields used */
  datatype Phdr = Phdr(offset: Word, vaddr: Word, filesz: Word, memsz: Word, writable: bool)

  /* ----- 32-bit arithmetic ----- */

  function Add(a: Word, b: Word): (r: Word) { (a + b) % RANGE }
  function Sub(a: Word, b: Word): (r: Word) { (a - b) % RANGE }

  /** ROUND_UP (x, PGSIZE) */
  function RoundUp(x: Word): (r: Word) { ((x + PGSIZE - 1) % RANGE / PGSIZE * PGSIZE) % RANGE }

  function PageOfs(a: Word): (r: Word) { a % PGSIZE }
  function PageStart(a: Word): (r: Word) { a - a % PGSIZE }

  /** validate_segment(), for a file of `length` bytes */
  predicate Validate(p: Phdr, length: Word)
  {
    && PageOfs(p.offset) == PageOfs(p.vaddr)
    && p.offset <= length
    && p.memsz >= p.filesz
    && p.memsz != 0
    && p.vaddr < PHYS_BASE
    && Add(p.vaddr, p.memsz) < PHYS_BASE
    && Add(p.vaddr, p.memsz) >= p.vaddr
    && p.vaddr >= PGSIZE
  }

  /** What the checks come to without wrap-around */
  lemma ValidateIff(p: Phdr, length: Word)
    ensures Validate(p, length) <==>
            && p.offset % PGSIZE == p.vaddr % PGSIZE && p.offset <= length
            && 0 < p.memsz && p.filesz <= p.memsz
            && PGSIZE <= p.vaddr && p.vaddr + p.memsz < PHYS_BASE
  {
  }

  /** The arguments load() passes to load_segment() */
  datatype Plan = Plan(ofs: Word, upage: Word, readBytes: Word, zeroBytes: Word)

  function PlanOf(p: Phdr): (r: Plan)
  {
    var pageOffset := PageOfs(p.vaddr);
    if p.filesz > 0 then
      var readBytes := Add(pageOffset, p.filesz);
      Plan(PageStart(p.offset), PageStart(p.vaddr), readBytes, Sub(RoundUp(Add(pageOffset, p.memsz)), readBytes))
    else
      Plan(PageStart(p.offset), PageStart(p.vaddr), 0, RoundUp(Add(pageOffset, p.memsz)))
  }

  /** The number of a segment's first page, and how many pages it takes */
  function FirstPage(p: Phdr): (v: nat) { p.vaddr / PGSIZE }

  function PageCnt(p: Phdr): (n: nat)
    requires p.memsz > 0
  {
    (p.vaddr + p.memsz - 1) / PGSIZE - p.vaddr / PGSIZE + 1
  }

  /** For a segment that passes the checks nothing wraps; load_segment()'s assertions hold; its pages
      are those the segment touches, user pages other than page 0. */
  lemma PlanIsExact(p: Phdr, length: Word)
    requires Validate(p, length)
    ensures var r := PlanOf(p);
            && r.ofs == p.offset - p.offset % PGSIZE && r.upage == FirstPage(p) * PGSIZE
            && r.readBytes == (if p.filesz > 0 then p.vaddr % PGSIZE + p.filesz else 0)
            && r.readBytes + r.zeroBytes == PageCnt(p) * PGSIZE
            && 1 <= FirstPage(p) && FirstPage(p) + PageCnt(p) <= USER_PAGES
  {
    ValidateIff(p, length);
    var o := p.vaddr % PGSIZE;
    var size := PageCnt(p) * PGSIZE;
    assert p.vaddr == FirstPage(p) * PGSIZE + o && 1 <= FirstPage(p);
    RoundUpPages(p, o);
    AddExact(o, p.memsz);
    if p.filesz > 0 {
      AddExact(o, p.filesz);
      SubExact(size, o + p.filesz);
    }
  }

  lemma AddExact(a: Word, b: Word)
    requires a + b < RANGE
    ensures Add(a, b) == a + b
  {
  }

  lemma SubExact(a: Word, b: Word)
    requires b <= a
    ensures Sub(a, b) == a - b
  {
  }

  lemma RoundUpPages(p: Phdr, o: nat)
    requires o == p.vaddr % PGSIZE && 0 < p.memsz && p.vaddr + p.memsz < PHYS_BASE
    ensures RoundUp(o + p.memsz) == PageCnt(p) * PGSIZE && PageCnt(p) * PGSIZE >= o + p.memsz
    ensures FirstPage(p) + PageCnt(p) <= USER_PAGES
  {
    var k := p.vaddr / PGSIZE;
    assert (p.vaddr + p.memsz - 1) / PGSIZE == k + (o + p.memsz - 1) / PGSIZE;
    assert (o + p.memsz + PGSIZE - 1) / PGSIZE == (o + p.memsz - 1) / PGSIZE + 1;
  }

  /* ----- The image of a segment ----- */

  /** Page `i` of what load_segment() puts into memory */
  ghost function PageImage(file: seq<int>, ofs: nat, readBytes: nat, i: nat): (s: seq<int>)
    ensures |s| == PGSIZE
  {
    seq(PGSIZE, j requires 0 <= j < PGSIZE =>
          var b := i * PGSIZE + j; if b < readBytes && ofs + b < |file| then file[ofs + b] else 0)
  }

  /** Byte `b` of the segment's memory, counted from its first page */
  ghost function ImageByte(file: seq<int>, ofs: nat, readBytes: nat, b: nat): (x: int)
  {
    PageImage(file, ofs, readBytes, b / PGSIZE)[b % PGSIZE]
  }

  /** The program header pages of the ELF specification: the segment's memory holds the file's bytes
      and then zeros. */
  lemma ImageIsSegment(p: Phdr, file: seq<int>, k: nat)
    requires |file| < RANGE && Validate(p, |file|) && k < p.memsz
    requires PlanOf(p).readBytes == 0 || PlanOf(p).ofs + PlanOf(p).readBytes <= |file|
    ensures p.filesz > 0 ==> p.offset + p.filesz <= |file|
    ensures ImageByte(file, PlanOf(p).ofs, PlanOf(p).readBytes, p.vaddr % PGSIZE + k)
            == if k < p.filesz then file[p.offset + k] else 0
  {
    PlanIsExact(p, |file|);
    var b := p.vaddr % PGSIZE + k;
    assert b == b / PGSIZE * PGSIZE + b % PGSIZE;
    assert p.offset % PGSIZE == p.vaddr % PGSIZE;
  }

  datatype Page = NoPage | Page(contents: seq<int>, writable: bool)

  /* ----- Frames and page tables ----- */

  lemma OneFewer(p: Pool)
    requires GetResult(p, 1).At?
    ensures |Free(Get(p, 1))| == |Free(p)| - 1
  {
    var f := GetResult(p, 1).index;
    GetTakesFree(p, 1);
    HeldAndFree(p);
    HeldAndFree(Get(p, 1));
    OneOfRun(f);
    Joins(Held(p), f, Held(Get(p, 1)));
  }

  lemma OneOfRun(f: nat)
    ensures Run(f, 1) == {f}
  {
  }

  lemma Joins(a: set<nat>, f: nat, b: set<nat>)
    requires f !in a && b == a + {f}
    ensures |b| == |a| + 1
  {
  }

  lemma OneMore(p: Pool, f: nat)
    requires MayFree(p, f, 1)
    ensures |Free(Give(p, f, 1))| == |Free(p)| + 1
  {
    GiveReturns(p, f, 1);
    OneOfRun(f);
    OneLess(p, f, Give(p, f, 1));
  }

  lemma OneLess(p: Pool, f: nat, p': Pool)
    requires f in Held(p) && Held(p') == Held(p) - {f} && |p'.used| == |p.used|
    ensures |Free(p')| == |Free(p)| + 1
  {
    HeldAndFree(p);
    HeldAndFree(p');
    Joins(Held(p'), f, Held(p));
  }

  /** The entries without a table in a page directory */
  ghost function Zeros(pd: seq<nat>): (ds: set<nat>)
  {
    set d: nat | d < |pd| && pd[d] == 0
  }

  lemma ZerosBut(pd: seq<nat>, pd': seq<nat>, d: nat)
    requires |pd| == |pd'| && d < |pd| && pd'[d] != 0 && forall e: nat | e < |pd| && e != d :: pd'[e] == pd[e]
    ensures |Zeros(pd')| == |Zeros(pd)| - if pd[d] == 0 then 1 else 0
  {
    assert Zeros(pd') == Zeros(pd) - {d};
    if pd[d] == 0 { Joins(Zeros(pd'), d, Zeros(pd)); } else { assert Zeros(pd') == Zeros(pd); }
  }

  /** Directory `pd'` is `pd`, but for tables it may have added for the entries from `lo` to `hi`. */
  ghost predicate Grew(pd: seq<nat>, pd': seq<nat>, lo: nat, hi: nat)
    requires |pd| == |pd'|
  {
    forall d: nat | d < |pd| && (pd[d] != 0 || !(lo <= d <= hi)) :: pd'[d] == pd[d]
  }

  lemma GrewOn(pd0: seq<nat>, pd: seq<nat>, pd': seq<nat>, lo: nat, hi: nat, d: nat)
    requires |pd0| == |pd| == |pd'| && Grew(pd0, pd, lo, hi) && lo <= d <= hi && Grew(pd, pd', d, d)
    ensures Grew(pd0, pd', lo, hi)
  {
  }

  /** The directory entries that `n` pages from `first` fall under and that have no table */
  ghost function TablesNeeded(pd: seq<nat>, first: nat, n: nat): (ds: set<nat>)
  {
    set d: nat | d < |pd| && n > 0 && PdNo(first) <= d <= PdNo(first + n - 1) && pd[d] == 0
  }

  lemma Included(a: set<nat>, b: set<nat>)
    requires a <= b
    ensures |b| == |a| + |b - a|
  {
    assert b == a + (b - a);
  }

  lemma TablesAdded(pd: seq<nat>, pd': seq<nat>, first: nat, n: nat)
    requires |pd| == |pd'| == ENTRIES && n > 0 && Grew(pd, pd', PdNo(first), PdNo(first + n - 1))
    ensures var added := Zeros(pd) - Zeros(pd');
            added <= TablesNeeded(pd, first, n) && |Zeros(pd)| - |Zeros(pd')| == |added|
  {
    assert Zeros(pd') <= Zeros(pd);
    Included(Zeros(pd'), Zeros(pd));
  }

  /** With a table for every page, all that were needed have been added ... */
  lemma AllAdded(pd: seq<nat>, pd': seq<nat>, first: nat, n: nat)
    requires |pd| == |pd'| == ENTRIES && n > 0 && first + n <= USER_PAGES && Grew(pd, pd', PdNo(first), PdNo(first + n - 1))
    requires forall v: nat | first <= v < first + n :: pd'[PdNo(v)] != 0
    ensures |TablesNeeded(pd, first, n)| == |Zeros(pd)| - |Zeros(pd')|
  {
    TablesAdded(pd, pd', first, n);
    forall d | d in TablesNeeded(pd, first, n) ensures d !in Zeros(pd') {
      var v := if d * ENTRIES < first then first else d * ENTRIES;
      assert PdNo(v) == d;
    }
    assert TablesNeeded(pd, first, n) == Zeros(pd) - Zeros(pd');
  }

  /** ... and where one is missing, they have not. */
  lemma OneMissing(pd: seq<nat>, pd': seq<nat>, first: nat, n: nat, v: nat)
    requires |pd| == |pd'| == ENTRIES && first <= v < first + n <= USER_PAGES && Grew(pd, pd', PdNo(first), PdNo(first + n - 1))
    requires pd'[PdNo(v)] == 0
    ensures |TablesNeeded(pd, first, n)| > |Zeros(pd)| - |Zeros(pd')|
  {
    TablesAdded(pd, pd', first, n);
    var need, added := TablesNeeded(pd, first, n), Zeros(pd) - Zeros(pd');
    Included(added, need);
    assert PdNo(v) in need - added;
  }

  /** Each new page table takes a frame of the kernel pool, so this does not change. */
  ghost function Spare(kernel: Pool, pd: seq<nat>): (n: int)
  {
    |Free(kernel)| - |Zeros(pd)|
  }

  lemma SomethingFree(p: Pool)
    ensures Free(p) != {} <==> exists m: nat :: Run(m, 1) <= Free(p)
  {
    forall m | m in Free(p) ensures Run(m, 1) <= Free(p) { assert Run(m, 1) == {m}; }
    forall m: nat | Run(m, 1) <= Free(p) ensures Free(p) != {} { assert m in Run(m, 1); }
  }

  /* ----- What a segment needs ----- */

  /** file_read() returns all of `n` bytes. */
  predicate CanRead(file: seq<int>, pos: nat, n: nat, served: bool)
  {
    n > 0 ==> served && pos + n <= |file|
  }

  /** What load_segment() reads for page `i` of a segment with `readBytes` bytes in the file */
  function ReadOf(readBytes: nat, i: nat): (n: nat)
    ensures n <= PGSIZE
  {
    if readBytes <= i * PGSIZE then 0 else if readBytes - i * PGSIZE < PGSIZE then readBytes - i * PGSIZE else PGSIZE
  }

  /** The reads for those of the `n` pages from `first` that hold bytes of the file are served. */
  ghost predicate AllServed(first: nat, readBytes: nat, n: nat, served: set<nat>)
  {
    forall v: nat | first <= v < first + n && (v - first) * PGSIZE < readBytes :: v in served
  }

  lemma ServedStep(first: nat, readBytes: nat, i: nat, served: set<nat>)
    requires AllServed(first, readBytes, i, served) && (ReadOf(readBytes, i) > 0 ==> first + i in served)
    ensures AllServed(first, readBytes, i + 1, served)
  {
  }

  function ReadFrom(file: seq<int>, pos: nat, n: nat): (b: seq<int>)
    requires n > 0 ==> pos + n <= |file|
    ensures |b| == n
  {
    if n == 0 then [] else file[pos..pos + n]
  }

  /** Of an address space: its pages, its page directory, and how many frames are free in each pool */
  datatype Supply = Supply(pages: seq<Page>, pd: seq<nat>, user: nat, kernel: nat)
  {
    predicate Ok()
    {
      |pages| == USER_PAGES && |pd| == ENTRIES
    }
  }

  /** Everything load_segment() needs: its pages are not mapped, the reads are served and the file is long
      enough, and there are frames for the pages and for the page tables they are the first to need. */
  ghost predicate Supplied(s: Supply, file: seq<int>, ofs: nat, readBytes: nat, first: nat, n: nat, served: set<nat>)
    requires s.Ok() && first + n <= USER_PAGES
  {
    && (forall v: nat | first <= v < first + n :: s.pages[v] == NoPage)
    && AllServed(first, readBytes, n, served) && (readBytes > 0 ==> ofs + readBytes <= |file|)
    && n <= s.user && |TablesNeeded(s.pd, first, n)| <= s.kernel
  }

  lemma SuppliedReads(s: Supply, file: seq<int>, ofs: nat, readBytes: nat, first: nat, n: nat, served: set<nat>, i: nat)
    requires s.Ok() && first + n <= USER_PAGES && Supplied(s, file, ofs, readBytes, first, n, served) && i < n
    ensures CanRead(file, ofs + i * PGSIZE, ReadOf(readBytes, i), first + i in served) && s.pages[first + i] == NoPage
  {
    var v := first + i;
    assert v - first == i;
  }

  /** load_segment() has stopped with `s'` after `done` pages. */
  ghost predicate Stopped(s: Supply, s': Supply, file: seq<int>, ofs: nat, readBytes: nat, first: nat, n: nat, served: set<nat>,
                          done: nat)
    requires s.Ok() && s'.Ok() && first + n <= USER_PAGES && done <= n
  {
    && (forall v: nat | first <= v < first + done :: s.pages[v] == NoPage && s'.pd[PdNo(v)] != 0)
    && AllServed(first, readBytes, done, served)
    && s'.user == s.user - done && s'.kernel - |Zeros(s'.pd)| == s.kernel - |Zeros(s.pd)|
    && (n > 0 ==> Grew(s.pd, s'.pd, PdNo(first), PdNo(first + n - 1)))
    && if done == n then readBytes > 0 ==> ofs + readBytes <= |file|
       else || !CanRead(file, ofs + done * PGSIZE, ReadOf(readBytes, done), first + done in served)
            || s.pages[first + done] != NoPage || s'.user == 0 || (s'.kernel == 0 && s'.pd[PdNo(first + done)] == 0)
  }

  /** It has loaded every page if and only if it had all it needs. */
  lemma StoppedMeans(s: Supply, s': Supply, file: seq<int>, ofs: nat, readBytes: nat, first: nat, n: nat, served: set<nat>, done: nat)
    requires s.Ok() && s'.Ok() && first + n <= USER_PAGES && done <= n
    requires Stopped(s, s', file, ofs, readBytes, first, n, served, done)
    ensures done == n <==> Supplied(s, file, ofs, readBytes, first, n, served)
  {
    if n == 0 {
      assert TablesNeeded(s.pd, first, n) == {};
    } else if done == n {
      AllAdded(s.pd, s'.pd, first, n);
    } else if Supplied(s, file, ofs, readBytes, first, n, served) {
      SuppliedReads(s, file, ofs, readBytes, first, n, served, done);
      if s'.pd[PdNo(first + done)] == 0 { OneMissing(s.pd, s'.pd, first, n, first + done); }
    }
  }

  /* ----- load_segment() ----- */

  /** A process's address space: its page directory, the page allocator, and what the frames hold */
  class AddressSpace {
    const pagedir: PageDirectory
    var pools: Pools
    var memory: map<nat, seq<int>>

    constructor (pools: Pools)
      requires PoolsApart(pools)
      ensures Valid() && fresh(pagedir) && this.pools == pools && forall v: nat | UserPage(v) :: PageAt(v) == NoPage
    {
      this.pools := pools;
      memory := map[];
      pagedir := new PageDirectory();
    }

    /** Page tables and mapped pages are held, each by one user only. */
    ghost predicate Valid()
      reads this, pagedir
    {
      && pagedir.Valid() && PoolsApart(pools)
      && (forall f | f in pagedir.tables.pts :: f in Held(pools.kernel))
      && (forall v: nat | UserPage(v) :: FrameOk(v))
      && (forall u: nat, v: nat | UserPage(u) && UserPage(v) && u != v :: Separate(Translate(pagedir.tables, u), Translate(pagedir.tables, v)))
    }

    ghost predicate FrameOk(v: nat)
      requires pagedir.Valid() && UserPage(v)
      reads this, pagedir
    {
      match Translate(pagedir.tables, v)
      case Unmapped => true
      case Mapped(f, _) => f in Held(pools.user) && f in memory
    }

    /** What page `v` holds */
    ghost function PageAt(v: nat): (p: Page)
      requires Valid() && UserPage(v)
      reads this, pagedir
    {
      match Translate(pagedir.tables, v)
      case Unmapped => NoPage
      case Mapped(f, writable) => assert FrameOk(v); Page(memory[f], writable)
    }

    /** palloc_get_page() */
    method GetFrame(user: bool) returns (r: Found)
      requires Valid()
      modifies this`pools
      ensures Valid() && SameExtent(old(pools), pools)
      ensures forall v: nat | UserPage(v) :: PageAt(v) == old(PageAt(v))
      ensures r.At? <==> old(Free(if user then pools.user else pools.kernel)) != {}
      ensures match r
              case NotFound => pools == old(pools)
              case At(f) =>
                && |Free(if user then pools.user else pools.kernel)| == old(|Free(if user then pools.user else pools.kernel)|) - 1
                && if user then f in Held(pools.user) && f !in old(Held(pools.user)) && pools.kernel == old(pools.kernel)
                            else f in Held(pools.kernel) && f !in old(Held(pools.kernel)) && pools.user == old(pools.user)
    {
      GetTakesFree(if user then pools.user else pools.kernel, 1);
      SomethingFree(if user then pools.user else pools.kernel);
      if GetResult(if user then pools.user else pools.kernel, 1).At? { OneFewer(if user then pools.user else pools.kernel); }
      r := Obtained(pools, user, 1);
      if r.At? { assert r.index in Run(r.index, 1); }
      pools := Serve(pools, Obtain(user, 1));
      assert forall f | f in old(Held(pools.kernel)) :: f in Held(pools.kernel);
      assert forall f | f in old(Held(pools.user)) :: f in Held(pools.user);
      assert forall v: nat | UserPage(v) :: old(FrameOk(v)) ==> FrameOk(v);
    }

    /** No page maps to frame `f`. */
    ghost predicate Unused(f: nat)
      requires pagedir.Valid()
      reads this, pagedir
    {
      forall v: nat | UserPage(v) :: Separate(Translate(pagedir.tables, v), Mapped(f, true))
    }

    /** palloc_free_page() of a frame of the user pool that is not mapped */
    method FreeFrame(f: nat)
      requires Valid() && f in Held(pools.user) && Unused(f)
      modifies this`pools
      ensures Valid() && forall v: nat | UserPage(v) :: PageAt(v) == old(PageAt(v))
      ensures |Free(pools.user)| == old(|Free(pools.user)|) + 1 && pools.kernel == old(pools.kernel)
    {
      assert Uniform(pools.user.used, f - pools.user.base, 1, true);
      GiveReturns(pools.user, f, 1);
      OneMore(pools.user, f);
      pools := Serve(pools, Return(f, 1));
      assert forall v: nat | UserPage(v) :: old(FrameOk(v)) ==> FrameOk(v);
    }

    /** install_page() and the table lookup_page() creates for it */
    method InstallPage(v: nat, f: nat, writable: bool) returns (ok: bool)
      requires Valid() && UserPage(v) && f in Held(pools.user) && f in memory && Unused(f)
      modifies this`pools, pagedir
      ensures Valid() && f in Held(pools.user) && memory == old(memory)
      ensures forall u: nat | UserPage(u) && u != v :: PageAt(u) == old(PageAt(u))
      ensures ok <==> old(PageAt(v)) == NoPage && old(TableFor(v))
      ensures ok ==> PageAt(v) == Page(memory[f], writable)
      ensures !ok ==> PageAt(v) == old(PageAt(v)) && Unused(f)
      ensures pools.user == old(pools.user) && TablesAre(old(pagedir.tables), old(pools.kernel), v, ok)
    {
      var m := pagedir.GetPage(v);
      if m.Mapped? {
        return false;
      }
      var has := HasTable(v);
      if !has {
        return false;
      }
      pagedir.MapPage(v, f, writable);
      return true;
    }

    /** Page `v` has a page table, or there is memory for one. */
    ghost predicate TableFor(v: nat)
      requires pagedir.Valid() && UserPage(v)
      reads this, pagedir
    {
      pagedir.tables.pd[PdNo(v)] != 0 || Free(pools.kernel) != {}
    }

    /** The page directory and the kernel pool are as they were, but for a table for page `v` if `made` and
        there was none. */
    ghost predicate TablesAre(was: Tables, kernel: Pool, v: nat, made: bool)
      requires TablesOk(was) && UserPage(v) && pagedir.Valid()
      reads this, pagedir
    {
      if made && was.pd[PdNo(v)] == 0 then
        && pagedir.tables.pd[PdNo(v)] != 0 && |Free(pools.kernel)| == |Free(kernel)| - 1
        && forall d: nat | d < ENTRIES && d != PdNo(v) :: pagedir.tables.pd[d] == was.pd[d]
      else pagedir.tables.pd == was.pd && pools.kernel == kernel
    }

    /** A page table for page `v`, new if need be; false if there is no memory for one */
    method HasTable(v: nat) returns (ok: bool)
      requires Valid() && UserPage(v)
      modifies this`pools, pagedir
      ensures Valid() && memory == old(memory) && pools.user == old(pools).user
      ensures ok == old(TableFor(v)) && (ok ==> pagedir.tables.pd[PdNo(v)] != 0)
      ensures TablesAre(old(pagedir.tables), old(pools.kernel), v, ok)
      ensures forall u: nat | UserPage(u) :: Translate(pagedir.tables, u) == old(Translate(pagedir.tables, u))
    {
      if pagedir.tables.pd[PdNo(v)] == 0 {
        var r := GetFrame(false);
        if r.NotFound? {
          return false;
        }
        ghost var before := pagedir.tables;
        pagedir.EnsureTable(v, r.index);
        assert forall u: nat | UserPage(u) :: Translate(pagedir.tables, u) == Translate(before, u);
        assert forall u: nat | UserPage(u) :: FrameOk(u);
      }
      return true;
    }

    /** Page `v` is mapped, or there is no frame for it or for its page table. */
    ghost predicate Stuck(v: nat)
      requires Valid() && UserPage(v)
      reads this, pagedir
    {
      PageAt(v) != NoPage || Free(pools.user) == {} || !TableFor(v)
    }

    /** One turn of load_segment(): a frame filled from the file and then with zeros, and mapped;
        `served` says that the read, if there is anything to read, finds the memory it needs. */
    method LoadPage(file: seq<int>, pos: nat, v: nat, pageRead: nat, writable: bool, served: bool) returns (ok: bool)
      requires Valid() && UserPage(v) && pageRead <= PGSIZE
      modifies this, pagedir
      ensures Valid()
      ensures forall u: nat | UserPage(u) && u != v :: PageAt(u) == old(PageAt(u))
      ensures !ok ==> PageAt(v) == old(PageAt(v))
      ensures ok <==> CanRead(file, pos, pageRead, served) && !old(Stuck(v))
      ensures !ok && CanRead(file, pos, pageRead, served) ==> Stuck(v)
      ensures ok ==> old(PageAt(v)) == NoPage
      ensures ok ==> PageAt(v) == Page(ReadFrom(file, pos, pageRead) + seq(PGSIZE - pageRead, _ => 0), writable)
      ensures |Free(pools.user)| == old(|Free(pools.user)|) - (if ok then 1 else 0)
      ensures Spare(pools.kernel, pagedir.tables.pd) == old(Spare(pools.kernel, pagedir.tables.pd))
      ensures Grew(old(pagedir.tables.pd), pagedir.tables.pd, PdNo(v), PdNo(v))
    {
      ghost var pd := pagedir.tables.pd;
      var r := GetFrame(true);
      if r.NotFound? {
        return false;
      }
      var f := r.index;
      assert Unused(f) by { assert forall u: nat | UserPage(u) :: old(FrameOk(u)); }
      if !CanRead(file, pos, pageRead, served) {
        FreeFrame(f);
        return false;
      }
      FillFrame(f, ReadFrom(file, pos, pageRead) + seq(PGSIZE - pageRead, _ => 0));
      ok := InstallPage(v, f, writable);
      if !ok {
        FreeFrame(f);
      } else {
        ZerosBut(pd, pagedir.tables.pd, PdNo(v));
      }
    }

    /** file_read() and memset() into a frame that is not mapped */
    method FillFrame(f: nat, contents: seq<int>)
      requires Valid() && f in Held(pools.user) && Unused(f)
      modifies this`memory
      ensures Valid() && Unused(f) && memory == old(memory)[f := contents]
      ensures forall u: nat | UserPage(u) :: PageAt(u) == old(PageAt(u))
    {
      memory := memory[f := contents];
      assert forall u: nat | UserPage(u) :: old(FrameOk(u)) ==> FrameOk(u);
      assert forall u: nat | UserPage(u) :: Separate(Translate(pagedir.tables, u), Mapped(f, true));
    }

    /** There is no loading page `i` of the segment from page `first`. */
    ghost predicate Blocked(file: seq<int>, ofs: nat, readBytes: nat, first: nat, i: nat, served: set<nat>)
      requires Valid() && UserPage(first + i)
      reads this, pagedir
    {
      CanRead(file, ofs + i * PGSIZE, ReadOf(readBytes, i), first + i in served) ==> Stuck(first + i)
    }

    /** The pages of the user */
    ghost function Pages(): (pages: seq<Page>)
      requires Valid()
      reads this, pagedir
      ensures |pages| == USER_PAGES && forall v: nat | UserPage(v) :: pages[v] == PageAt(v)
    {
      seq(USER_PAGES, v requires 0 <= v < USER_PAGES && Valid() reads this, pagedir => PageAt(v))
    }

    ghost function View(): (s: Supply)
      requires Valid()
      reads this, pagedir
      ensures s.Ok()
    {
      Supply(Pages(), pagedir.tables.pd, |Free(pools.user)|, |Free(pools.kernel)|)
    }

    /** The pages are as they `were`, but for `i` pages from `first` that were not mapped and hold the image. */
    ghost predicate Loaded(were: seq<Page>, file: seq<int>, ofs: nat, readBytes: nat, first: nat, i: nat, writable: bool)
      requires Valid() && |were| == USER_PAGES
      reads this, pagedir
    {
      forall v: nat | UserPage(v) ::
        if first <= v < first + i then were[v] == NoPage && PageAt(v) == Page(PageImage(file, ofs, readBytes, v - first), writable)
        else PageAt(v) == were[v]
    }

    method LoadImage(file: seq<int>, pos: nat, ghost ofs: nat, ghost readBytes: nat, first: nat, i: nat, pageRead: nat, writable: bool,
                     served: set<nat>, ghost were: seq<Page>)
      returns (ok: bool)
      requires Valid() && UserPage(first + i) && pageRead == ReadOf(readBytes, i) && (pageRead > 0 ==> pos == ofs + i * PGSIZE)
      requires |were| == USER_PAGES && Loaded(were, file, ofs, readBytes, first, i, writable)
      modifies this, pagedir
      ensures Valid() && (ok ==> Loaded(were, file, ofs, readBytes, first, i + 1, writable))
      ensures !ok ==> Loaded(were, file, ofs, readBytes, first, i, writable)
      ensures if ok then CanRead(file, pos, pageRead, first + i in served) else Blocked(file, ofs, readBytes, first, i, served)
      ensures |Free(pools.user)| == old(|Free(pools.user)|) - (if ok then 1 else 0)
      ensures Spare(pools.kernel, pagedir.tables.pd) == old(Spare(pools.kernel, pagedir.tables.pd))
      ensures Grew(old(pagedir.tables.pd), pagedir.tables.pd, PdNo(first + i), PdNo(first + i))
    {
      ok := LoadPage(file, pos, first + i, pageRead, writable, first + i in served);
      if ok { ChunkIsImage(file, ofs, readBytes, i, pos, pageRead); }
    }

    lemma NextRead(readBytes: nat, n: nat, i: nat, read: nat, zero: nat, pageRead: nat)
      requires read + zero == (n - i) * PGSIZE && read + zero > 0 && i <= n
      requires read == (if readBytes > i * PGSIZE then readBytes - i * PGSIZE else 0)
      requires pageRead == if read < PGSIZE then read else PGSIZE
      ensures i < n && pageRead == ReadOf(readBytes, i) && zero >= PGSIZE - pageRead
      ensures read - pageRead == if readBytes > (i + 1) * PGSIZE then readBytes - (i + 1) * PGSIZE else 0
    {
    }

    /** The loop of load_segment(), which loads `done` pages and does not let the counters go below zero; it
        fails only at a page that it cannot load. */
    method LoadPages(file: seq<int>, ofs: nat, first: nat, readBytes: nat, zeroBytes: nat, n: nat, writable: bool,
                       served: set<nat>)
      returns (ok: bool, ghost done: nat)
      requires Valid() && readBytes + zeroBytes == n * PGSIZE && first + n <= USER_PAGES
      modifies this, pagedir
      ensures Valid() && done <= n && ok == (done == n)
      ensures Loaded(old(Pages()), file, ofs, readBytes, first, done, writable)
      ensures done < n ==> Blocked(file, ofs, readBytes, first, done, served)
      ensures AllServed(first, readBytes, done, served)
      ensures ok ==> readBytes == 0 || ofs + readBytes <= |file|
      ensures |Free(pools.user)| == |old(Free(pools.user))| - done
      ensures Spare(pools.kernel, pagedir.tables.pd) == old(Spare(pools.kernel, pagedir.tables.pd))
      ensures n > 0 ==> Grew(old(pagedir.tables.pd), pagedir.tables.pd, PdNo(first), PdNo(first + n - 1))
    {
      ghost var were, pd, last := Pages(), pagedir.tables.pd, if n == 0 then first else first + n - 1;
      var read, zero, i, pos := readBytes, zeroBytes, 0, ofs;
      while read > 0 || zero > 0
        invariant 0 <= i <= n && read >= 0 && zero >= 0
        invariant read + zero == (n - i) * PGSIZE && read == (if readBytes > i * PGSIZE then readBytes - i * PGSIZE else 0)
        invariant pos == ofs + readBytes - read && (read == readBytes || pos <= |file|)
        invariant Valid() && Loaded(were, file, ofs, readBytes, first, i, writable) && AllServed(first, readBytes, i, served)
        invariant |Free(pools.user)| == |old(Free(pools.user))| - i
        invariant Spare(pools.kernel, pagedir.tables.pd) == old(Spare(pools.kernel, pagedir.tables.pd))
        invariant Grew(pd, pagedir.tables.pd, PdNo(first), PdNo(last))
        decreases n - i
      {
        var pageRead := if read < PGSIZE then read else PGSIZE;
        var pageZero := PGSIZE - pageRead;
        NextRead(readBytes, n, i, read, zero, pageRead);
        ghost var before := pagedir.tables.pd;
        ok := LoadImage(file, pos, ofs, readBytes, first, i, pageRead, writable, served, were);
        GrewOn(pd, before, pagedir.tables.pd, PdNo(first), PdNo(last), PdNo(first + i));
        if !ok {
          return false, i;
        }
        ServedStep(first, readBytes, i, served);
        read := read - pageRead;
        zero := zero - pageZero;
        i := i + 1;
        pos := pos + pageRead;
      }
      return true, i;
    }

    /** load_segment(). It succeeds if and only if it has all it needs. The pages loaded hold the image and
        were not mapped before, and every other page is as it was. The reads for the pages of `served` find
        the memory they need. */
    method LoadSegment(file: seq<int>, ofs: nat, first: nat, readBytes: nat, zeroBytes: nat, n: nat, writable: bool,
                       served: set<nat>)
      returns (ok: bool, ghost done: nat)
      requires Valid() && readBytes + zeroBytes == n * PGSIZE && first + n <= USER_PAGES
      modifies this, pagedir
      ensures Valid() && done <= n && Loaded(old(Pages()), file, ofs, readBytes, first, done, writable)
      ensures ok == (done == n) == Supplied(old(View()), file, ofs, readBytes, first, n, served)
    {
      ghost var s := View();
      ok, done := LoadPages(file, ofs, first, readBytes, zeroBytes, n, writable, served);
      StoppedMeans(s, View(), file, ofs, readBytes, first, n, served, done);
    }

    /** The case of load() for a PT_LOAD header. On success the segment's addresses hold the file's
        bytes and then zeros; pages the segment does not touch, page 0 among them, are as they were. */
    method LoadHeader(file: seq<int>, p: Phdr, served: set<nat>) returns (ok: bool)
      requires Valid() && |file| < RANGE
      modifies this, pagedir
      ensures Valid()
      ensures Validate(p, |file|) ==> 1 <= FirstPage(p) && FirstPage(p) + PageCnt(p) <= USER_PAGES
      ensures ok ==> Validate(p, |file|)
      ensures Validate(p, |file|) ==>
                ok == Supplied(old(View()), file, PlanOf(p).ofs, PlanOf(p).readBytes, FirstPage(p), PageCnt(p), served)
      ensures ok ==> forall k: nat | k < p.memsz :: Holds(p.vaddr + k, SegmentByte(file, p, k), p.writable)
      ensures forall v: nat | UserPage(v) && !(p.memsz > 0 && FirstPage(p) <= v < FirstPage(p) + PageCnt(p)) :: PageAt(v) == old(PageAt(v))
      ensures forall v: nat | UserPage(v) && old(PageAt(v)) != NoPage :: PageAt(v) == old(PageAt(v))
    {
      if !Validate(p, |file|) {
        return false;
      }
      PlanIsExact(p, |file|);
      var r := PlanOf(p);
      var first, n := r.upage / PGSIZE, (r.readBytes + r.zeroBytes) / PGSIZE;
      assert first == FirstPage(p) && n == PageCnt(p);
      ghost var done;
      ok, done := LoadSegment(file, r.ofs, first, r.readBytes, r.zeroBytes, n, p.writable, served);
      if ok { SegmentHolds(file, p, r); }
    }

    lemma SegmentHolds(file: seq<int>, p: Phdr, r: Plan)
      requires Valid() && |file| < RANGE && Validate(p, |file|) && r == PlanOf(p) && FirstPage(p) + PageCnt(p) <= USER_PAGES
      requires r.readBytes == 0 || r.ofs + r.readBytes <= |file|
      requires forall v: nat | FirstPage(p) <= v < FirstPage(p) + PageCnt(p) ::
                 PageAt(v) == Page(PageImage(file, r.ofs, r.readBytes, v - FirstPage(p)), p.writable)
      ensures forall k: nat | k < p.memsz :: Holds(p.vaddr + k, SegmentByte(file, p, k), p.writable)
    {
      forall k: nat | k < p.memsz
        ensures Holds(p.vaddr + k, SegmentByte(file, p, k), p.writable)
      {
        AddressInPage(p, k);
        ImageIsSegment(p, file, k);
      }
    }

    /** The byte at user address `a` is `x`, in a page with the given permission. */
    ghost predicate Holds(a: nat, x: int, writable: bool)
      requires Valid()
      reads this, pagedir
    {
      && UserPage(a / PGSIZE) && PageAt(a / PGSIZE).Page? && PageAt(a / PGSIZE).writable == writable
      && |PageAt(a / PGSIZE).contents| == PGSIZE && PageAt(a / PGSIZE).contents[a % PGSIZE] == x
    }
  }

  /** Byte `k` of a segment according to its program header */
  ghost function SegmentByte(file: seq<int>, p: Phdr, k: nat): (x: int)
  {
    if k < p.filesz && p.offset + k < |file| then file[p.offset + k] else 0
  }

  lemma AddressInPage(p: Phdr, k: nat)
    requires k < p.memsz
    ensures var b := p.vaddr % PGSIZE + k;
            (p.vaddr + k) / PGSIZE == FirstPage(p) + b / PGSIZE && (p.vaddr + k) % PGSIZE == b % PGSIZE && b / PGSIZE < PageCnt(p)
  {
    var o, m := p.vaddr % PGSIZE, p.memsz;
    assert p.vaddr == FirstPage(p) * PGSIZE + o;
    assert (p.vaddr + m - 1) / PGSIZE == FirstPage(p) + (o + m - 1) / PGSIZE;
  }

  lemma ChunkIsImage(file: seq<int>, ofs: nat, readBytes: nat, i: nat, pos: nat, pageRead: nat)
    requires pageRead == ReadOf(readBytes, i)
    requires pageRead > 0 ==> pos == ofs + i * PGSIZE && pos + pageRead <= |file|
    ensures ReadFrom(file, pos, pageRead) + seq(PGSIZE - pageRead, _ => 0) == PageImage(file, ofs, readBytes, i)
  {
  }

  predicate Separate(a: Mapping, b: Mapping)
  {
    a.Mapped? && b.Mapped? ==> a.frame != b.frame
  }
}
