/** When a marked sector can be nobody's. */
module FsLeaks {
  import opened Bitmaps
  import opened FsState
  import opened FsOwnership

  /* ----- Leaks ----- */

  ghost predicate Owned(fs: Fs, i: nat)
  {
    exists s: nat :: Owner(fs, s) && i in SectorsOf(fs, s)
  }

  /** Every marked sector has an owner. */
  ghost predicate NothingLeaked(fs: Fs)
  {
    forall i: nat | Marked(fs.freeMap, i) :: Owned(fs, i)
  }

  /** filesys_create() gets as far as dir_add(), which turns the name down, with data allocated. */
  predicate Leaks(fs: Fs, c: Call)
  {
    && c.CreateCall? && c.m == Memory(true, true, true, true) && c.size > 0 && !MayAdd(fs, c.name)
    && match ScanFrom(fs.freeMap, 0, 1)
       case NotFound => false
       case At(i) => ScanFrom(Fill(fs.freeMap, i, 1, true), 0, SectorCnt(c.size)).At?
  }

  lemma OwnedStill(fs: Fs, fs': Fs, i: nat, gone: set<nat>)
    requires Owned(fs, i) && forall s: nat | Owner(fs, s) && s !in gone :: Owner(fs', s) && SectorsOf(fs', s) == SectorsOf(fs, s)
    requires forall s: nat | s in gone :: i !in SectorsOf(fs, s)
    ensures Owned(fs', i)
  {
    var s: nat :| Owner(fs, s) && i in SectorsOf(fs, s);
    assert Owner(fs', s);
  }

  lemma CreatedOwned(fs: Fs, fs': Fs, s: nat)
    requires NothingLeaked(fs) && !Owner(fs, s)
    requires forall t: nat :: Owner(fs', t) <==> Owner(fs, t) || t == s
    requires forall t: nat | t != s :: OnDisk(fs', t) == OnDisk(fs, t)
    requires forall i: nat | Marked(fs'.freeMap, i) :: Marked(fs.freeMap, i) || i in SectorsOf(fs', s)
    ensures NothingLeaked(fs')
  {
    forall i: nat | Marked(fs'.freeMap, i)
      ensures Owned(fs', i)
    {
      if Marked(fs.freeMap, i) {
        OwnedStill(fs, fs', i, {});
      } else {
        assert Owner(fs', s) && i in SectorsOf(fs', s);
      }
    }
  }

  lemma CreatedLeaksNothing(fs: Fs, fs': Fs, name: Name, size: nat, s: nat, start: nat)
    requires Inv(fs) && NothingLeaked(fs) && MayAdd(fs, name)
    requires Uniform(fs.freeMap, s, 1, false) && Uniform(Fill(fs.freeMap, s, 1, true), start, SectorCnt(size), false)
    requires fs' == fs.(freeMap := Fill(Fill(fs.freeMap, s, 1, true), start, SectorCnt(size), true),
                        disk := fs.disk[s := InodeDisk(start, size)], dir := fs.dir[name := s])
    ensures NothingLeaked(fs')
  {
    CreatedMarks(fs.freeMap, s, start, SectorCnt(size));
    UnmarkedOwnsNothing(fs, s);
    forall t: nat ensures Named(fs'.dir, t) <==> Named(fs.dir, t) || t == s { NamedWith(fs.dir, name, s, t); }
    CreatedOwned(fs, fs', s);
  }

  /** A sector marked without a new owner is nobody's. */
  lemma MarkedUnowned(fs: Fs, fs': Fs, i: nat)
    requires OwnershipOk(fs) && SameOwners(fs, fs') && !Marked(fs.freeMap, i) && Marked(fs'.freeMap, i)
    requires forall t: nat | Owner(fs, t) :: OnDisk(fs', t) == OnDisk(fs, t)
    ensures !NothingLeaked(fs')
  {
    forall s: nat | Owner(fs', s) ensures i !in SectorsOf(fs', s) { assert AllMarked(fs.freeMap, SectorsOf(fs, s)); }
    assert !Owned(fs', i);
  }

  lemma LeakedNotOwned(fs: Fs, fs': Fs, s: nat, d: InodeDisk)
    requires Inv(fs) && NothingLeaked(fs) && !Marked(fs.freeMap, s) && Uniform(fs.freeMap, d.start, SectorCnt(d.length), false)
    requires fs' == fs.(freeMap := Fill(fs.freeMap, d.start, SectorCnt(d.length), true), disk := fs.disk[s := d])
    ensures NothingLeaked(fs') <==> d.length == 0
  {
    FillMarks(fs.freeMap, d.start, SectorCnt(d.length));
    UnmarkedOwnsNothing(fs, s);
    assert forall t: nat | Owner(fs, t) :: OnDisk(fs', t) == OnDisk(fs, t);
    if d.length == 0 {
      NoNewMarks(fs, fs');
    } else {
      assert d.start in Run(d.start, SectorCnt(d.length));
      MarkedUnowned(fs, fs', d.start);
    }
  }

  lemma NoNewMarks(fs: Fs, fs': Fs)
    requires NothingLeaked(fs) && SameOwners(fs, fs') && forall i: nat | Marked(fs'.freeMap, i) :: Marked(fs.freeMap, i)
    requires forall t: nat | Owner(fs, t) :: OnDisk(fs', t) == OnDisk(fs, t)
    ensures NothingLeaked(fs')
  {
    forall i: nat | Marked(fs'.freeMap, i) ensures Owned(fs', i) { OwnedStill(fs, fs', i, {}); }
  }

  lemma CreateLeaksIff(fs: Fs, name: Name, size: nat, m: Memory)
    requires Inv(fs) && NothingLeaked(fs)
    ensures NothingLeaked(Create(fs, name, size, m)) <==> !Leaks(fs, CreateCall(name, size, m))
  {
    CreateEnds(fs, name, size, m);
    MapAllocates(fs.freeMap, 1, m.map1);
    var fs' := Create(fs, name, size, m);
    match EndingOf(fs, name, size, m)
    case Nothing =>
    case Created(s, start) => CreatedLeaksNothing(fs, fs', name, size, s, start);
    case Leaked(s, start) => LeakedNotOwned(fs, fs', s, InodeDisk(start, size));
  }

  lemma ReleaseLeavesOwned(fs: Fs, fs': Fs, s: nat)
    requires NothingLeaked(fs) && fs'.disk == fs.disk
    requires forall t: nat | Owner(fs, t) && t != s :: Owner(fs', t)
    requires forall i: nat | Marked(fs'.freeMap, i) :: Marked(fs.freeMap, i) && i !in SectorsOf(fs, s)
    ensures NothingLeaked(fs')
  {
    forall i: nat | Marked(fs'.freeMap, i) ensures Owned(fs', i) { OwnedStill(fs, fs', i, {s}); }
  }

  lemma SameMarksOwned(fs: Fs, fs': Fs)
    requires NothingLeaked(fs) && fs'.disk == fs.disk && fs'.freeMap == fs.freeMap
    requires forall t: nat | Owner(fs, t) :: Owner(fs', t)
    ensures NothingLeaked(fs')
  {
    forall i: nat | Marked(fs'.freeMap, i) ensures Owned(fs', i) { OwnedStill(fs, fs', i, {}); }
  }

  lemma RemoveLeaksNothing(fs: Fs, name: Name)
    requires Inv(fs) && NothingLeaked(fs) && name in fs.dir
    ensures NothingLeaked(Remove(fs, name, true))
  {
    var s, fs' := fs.dir[name], Remove(fs, name, true);
    RemoveCases(fs, name);
    RemoveReleases(fs, name);
    forall t: nat ensures Named(fs'.dir, t) <==> Named(fs.dir, t) && t != s { NamedWithout(fs.dir, name, t); }
    if s in fs.inodes { SameMarksOwned(fs, fs'); } else { ReleaseLeavesOwned(fs, fs', s); }
  }

  lemma CloseOwners(fs: Fs, f: nat)
    requires Inv(fs) && f in fs.files
    ensures var s, fs' := fs.files[f].sector, FileClose(fs, f);
            && fs'.disk == fs.disk
            && forall t: nat | Owner(fs, t) && !(t == s && fs.inodes[s].removed && fs.inodes[s].openCnt == 1) :: Owner(fs', t)
  {
    var fs1 := SetDeny(fs, f, false);
    InodeCloseOwners(fs1.(files := fs1.files - {f}), fs.files[f].sector);
    assert fs1.disk == fs.disk && fs1.dir == fs.dir && fs1.inodes.Keys == fs.inodes.Keys;
  }

  lemma InodeCloseOwners(fs: Fs, s: nat)
    requires s in fs.inodes && (s <= ROOT_DIR_SECTOR || fs.inodes[s].removed || Named(fs.dir, s))
    ensures var fs' := InodeClose(fs, s);
            && fs'.disk == fs.disk
            && forall t: nat | Owner(fs, t) && !(t == s && fs.inodes[s].removed && fs.inodes[s].openCnt == 1) :: Owner(fs', t)
  {
    var fs' := InodeClose(fs, s);
    assert fs'.dir == fs.dir && (forall t | t in fs.inodes && t != s :: t in fs'.inodes);
  }

  lemma CloseLeaksNothing(fs: Fs, f: nat)
    requires Inv(fs) && NothingLeaked(fs) && f in fs.files
    ensures NothingLeaked(FileClose(fs, f))
  {
    var s, fs' := fs.files[f].sector, FileClose(fs, f);
    CloseReleases(fs, f);
    CloseOwners(fs, f);
    if fs.inodes[s].removed && fs.inodes[s].openCnt == 1 {
      ReleaseLeavesOwned(fs, fs', s);
    } else {
      SameMarksOwned(fs, fs');
    }
  }

  lemma OpenLeaksNothing(fs: Fs, s: nat, handle: nat)
    requires NothingLeaked(fs)
    ensures NothingLeaked(FileOpen(InodeOpen(fs, s), s, handle))
  {
    SameMarksOwned(fs, FileOpen(InodeOpen(fs, s), s, handle));
  }

  lemma DenyLeaksNothing(fs: Fs, f: nat, deny: bool)
    requires NothingLeaked(fs) && f in fs.files && fs.files[f].sector in fs.inodes
    ensures NothingLeaked(SetDeny(fs, f, deny))
  {
    SameMarksOwned(fs, SetDeny(fs, f, deny));
  }

  /** A call keeps every marked sector owned exactly when it is not a create that Leaks describes. */
  lemma LeaksIff(fs: Fs, c: Call)
    requires Inv(fs) && NothingLeaked(fs) && Proper(fs, c)
    ensures NothingLeaked(Step(fs, c)) <==> !Leaks(fs, c)
  {
    match c
    case CreateCall(name, size, m) => CreateLeaksIff(fs, name, size, m);
    case OpenCall(name, h, memory) =>
      if memory && name in fs.dir { OpenLeaksNothing(fs, fs.dir[name], h); }
    case ReopenCall(f, h, memory) =>
      if memory { OpenLeaksNothing(fs, fs.files[f].sector, h); }
    case DenyCall(f) => DenyLeaksNothing(fs, f, true);
    case AllowCall(f) => DenyLeaksNothing(fs, f, false);
    case RemoveCall(name, memory) =>
      if memory && name in fs.dir { RemoveLeaksNothing(fs, name); }
    case CloseCall(f) => CloseLeaksNothing(fs, f);
  }

  /* ----- From a formatted device ----- */

  /** A formatted device starts out with the invariant and without leaks. */
  lemma FormatInv(n: nat)
    requires Format(n).Ready?
    ensures Inv(Format(n).fs) && NothingLeaked(Format(n).fs)
  {
    var fs := Format(n).fs;
    var d0, d1 := fs.disk[FREE_MAP_SECTOR], fs.disk[ROOT_DIR_SECTOR];
    var n0 := SectorCnt(d0.length);
    var m0 := InitialMap(n);
    var m1 := Fill(m0, d0.start, n0, true);
    FillMarks(m0, d0.start, n0);
    FillMarks(m1, d1.start, 1);
    assert forall s: nat :: Owner(fs, s) <==> s <= ROOT_DIR_SECTOR;
    assert forall i: nat :: Marked(m0, i) <==> i <= ROOT_DIR_SECTOR;
    FormatOwnership(fs, n0);
    FormatOwned(fs, n0);
    assert Handles(fs.files, 0) == {0} && Deniers(fs.files, 0) == {};
  }

  lemma FormatOwnership(fs: Fs, n0: nat)
    requires forall s: nat :: Owner(fs, s) <==> s <= ROOT_DIR_SECTOR
    requires SectorCnt(OnDisk(fs, 0).length) == n0 && SectorCnt(OnDisk(fs, 1).length) == 1
    requires OnDisk(fs, 0).start + n0 <= |fs.freeMap| && OnDisk(fs, 1).start < |fs.freeMap|
    requires forall i: nat :: Marked(fs.freeMap, i) <==> i <= 1 || i in Run(OnDisk(fs, 0).start, n0) || i in Run(OnDisk(fs, 1).start, 1)
    requires forall i: nat | i in Run(OnDisk(fs, 0).start, n0) :: i > 1
    requires forall i: nat | i in Run(OnDisk(fs, 1).start, 1) :: i > 1 && i !in Run(OnDisk(fs, 0).start, n0)
    ensures OwnershipOk(fs)
  {
    forall s: nat | Owner(fs, s)
      ensures AllMarked(fs.freeMap, SectorsOf(fs, s)) && WellPlaced(fs, s)
    {
      assert s == 0 || s == 1;
    }
    assert SectorsOf(fs, 0) !! SectorsOf(fs, 1);
  }

  lemma FormatOwned(fs: Fs, n0: nat)
    requires forall s: nat :: Owner(fs, s) <==> s <= ROOT_DIR_SECTOR
    requires SectorCnt(OnDisk(fs, 0).length) == n0 && SectorCnt(OnDisk(fs, 1).length) == 1
    requires OnDisk(fs, 0).start + n0 <= |fs.freeMap| && OnDisk(fs, 1).start < |fs.freeMap|
    requires forall i: nat :: Marked(fs.freeMap, i) <==> i <= 1 || i in Run(OnDisk(fs, 0).start, n0) || i in Run(OnDisk(fs, 1).start, 1)
    requires forall i: nat | i in Run(OnDisk(fs, 0).start, n0) :: i > 1
    requires forall i: nat | i in Run(OnDisk(fs, 1).start, 1) :: i > 1 && i !in Run(OnDisk(fs, 0).start, n0)
    ensures NothingLeaked(fs)
  {
    forall i: nat | Marked(fs.freeMap, i)
      ensures Owned(fs, i)
    {
      var s := if i == 0 || i in Run(OnDisk(fs, 0).start, n0) then 0 else 1;
      assert Owner(fs, s) && i in SectorsOf(fs, s);
    }
  }

  /** The theorem about runs, from a formatted device on: as long as no call is one that Leaks
      describes, exactly the owners' sectors are marked. */
  lemma {:induction false} RunLeaksNothing(fs: Fs, cs: seq<Call>)
    requires Inv(fs) && NothingLeaked(fs) && IsRun(fs, cs)
    requires forall k | 0 <= k < |cs| :: IsRun(fs, cs[..k]) && !Leaks(After(fs, cs[..k]), cs[k])
    ensures Inv(After(fs, cs)) && NothingLeaked(After(fs, cs))
    decreases |cs|
  {
    if cs != [] {
      var fs1, rest := Step(fs, cs[0]), cs[1..];
      assert cs[..0] == [];
      StepKeepsInv(fs, cs[0]);
      LeaksIff(fs, cs[0]);
      forall k | 0 <= k < |rest|
        ensures IsRun(fs1, rest[..k]) && !Leaks(After(fs1, rest[..k]), rest[k])
      {
        assert cs[..k + 1][1..] == rest[..k] && cs[..k + 1][0] == cs[0];
        assert IsRun(fs, cs[..k + 1]);
      }
      RunLeaksNothing(fs1, rest);
    }
  }

  /** A device of `n` sectors of which the first `k` are marked */
  function FirstMarked(n: nat, k: nat): (m: seq<bool>)
    ensures |m| == n
  {
    seq(n, i => i < k)
  }

  lemma NextRun(n: nat, k: nat, cnt: nat)
    requires cnt > 0 && k <= n
    ensures ScanFrom(FirstMarked(n, k), 0, cnt) == if k + cnt <= n then At(k) else NotFound
    ensures k + cnt <= n ==> Fill(FirstMarked(n, k), k, cnt, true) == FirstMarked(n, k + cnt)
  {
    var m := FirstMarked(n, k);
    forall j: nat | j < k ensures !Uniform(m, j, cnt, false) { assert m[j]; }
    if k + cnt <= n {
      FirstUniformUnique(m, 0, cnt, false, At(k), ScanFrom(m, 0, cnt));
    } else {
      FirstUniformUnique(m, 0, cnt, false, NotFound, ScanFrom(m, 0, cnt));
    }
  }

  lemma NextSector(n: nat, k: nat)
    requires k < n
    ensures ScanFrom(FirstMarked(n, k), 0, 1) == At(k)
    ensures Fill(FirstMarked(n, k), k, 1, true) == FirstMarked(n, k + 1)
  {
    NextRun(n, k, 1);
  }

  /** Formatting: the two inodes, the free map's bits and the root directory's 16 entries of 20 bytes
      take the first sectors; it panics exactly if they do not fit. */
  lemma FormatIs(n: nat)
    ensures var cnt := SectorCnt(4 * ElemCnt(n));
            && (Format(n).Ready? <==> 3 + cnt <= n)
            && (Format(n).Ready? ==>
                  var d0 := InodeDisk(2, 4 * ElemCnt(n));
                  Format(n).fs == Fs(FirstMarked(n, 3 + cnt), map[0 := d0, 1 := InodeDisk(2 + cnt, 320)], map[],
                                     map[0 := Inode(1, 0, false, d0)], map[0 := File(0, false)]))
  {
    var cnt := SectorCnt(4 * ElemCnt(n));
    if n > ROOT_DIR_SECTOR {
      assert InitialMap(n) == FirstMarked(n, 2);
      assert cnt > 0;
      NextRun(n, 2, cnt);
      if 2 + cnt <= n { NextRun(n, 2 + cnt, 1); }
      assert SectorCnt(ROOT_ENTRIES * DIR_ENTRY_SIZE) == 1;
    }
  }

  lemma FormatSmall(n: nat)
    requires 4 <= n <= 32
    ensures Format(n).Ready? && Format(n).fs.dir == map[] && Format(n).fs.freeMap == FirstMarked(n, 4)
  {
    FormatIs(n);
    assert SectorCnt(4 * ElemCnt(n)) == 1;
  }

  const ENOUGH := Memory(true, true, true, true)

  /** On a device of eight sectors, creating a one-byte file twice under one name leaks the second
      file's data sector. */
  lemma CreateTwiceLeaks()
    ensures Format(8).Ready?
    ensures var fs := Create(Format(8).fs, [97], 1, ENOUGH);
            Inv(fs) && NothingLeaked(fs) && !NothingLeaked(Create(fs, [97], 1, ENOUGH))
  {
    FormatSmall(8);
    FormatInv(8);
    FirstCreate(Format(8).fs);
    SecondLeaks(Create(Format(8).fs, [97], 1, ENOUGH));
  }

  lemma FirstCreate(fs: Fs)
    requires Inv(fs) && NothingLeaked(fs) && fs.dir == map[] && fs.freeMap == FirstMarked(8, 4)
    ensures var fs' := Create(fs, [97], 1, ENOUGH);
            Inv(fs') && NothingLeaked(fs') && [97] in fs'.dir && fs'.freeMap == FirstMarked(8, 6)
  {
    NextSector(8, 4);
    NextSector(8, 5);
    CreateEnds(fs, [97], 1, ENOUGH);
    CreateKeepsInv(fs, [97], 1, ENOUGH);
    CreateLeaksIff(fs, [97], 1, ENOUGH);
  }

  lemma SecondLeaks(fs: Fs)
    requires Inv(fs) && NothingLeaked(fs) && [97] in fs.dir && fs.freeMap == FirstMarked(8, 6)
    ensures !NothingLeaked(Create(fs, [97], 1, ENOUGH))
  {
    NextSector(8, 6);
    NextSector(8, 7);
    CreateLeaksIff(fs, [97], 1, ENOUGH);
  }
}
