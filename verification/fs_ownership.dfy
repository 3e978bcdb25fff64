/** Which sectors belong to whom, over runs in which files are removed while they are open. */
module FsOwnership {
  import opened Bitmaps
  import opened FsState

  /* ----- What holds between calls ----- */

  ghost predicate Named(dir: map<Name, nat>, sector: nat)
  {
    exists name :: name in dir && dir[name] == sector
  }

  /** Inodes that own sectors: the two of the system, the named ones, and those still open */
  ghost predicate Owner(fs: Fs, sector: nat)
  {
    sector == FREE_MAP_SECTOR || sector == ROOT_DIR_SECTOR || sector in fs.inodes || Named(fs.dir, sector)
  }

  ghost function SectorsOf(fs: Fs, sector: nat): (s: set<nat>)
  {
    Sectors(sector, OnDisk(fs, sector))
  }

  predicate Marked(m: seq<bool>, i: nat)
  {
    i < |m| && m[i]
  }

  ghost predicate AllMarked(m: seq<bool>, s: set<nat>)
  {
    forall i | i in s :: Marked(m, i)
  }

  /** Owners' sectors are marked in the free map, and no two owners share one. */
  ghost predicate OwnershipOk(fs: Fs)
  {
    && (forall s: nat | Owner(fs, s) :: AllMarked(fs.freeMap, SectorsOf(fs, s)) && WellPlaced(fs, s))
    && (forall s: nat, t: nat | Owner(fs, s) && Owner(fs, t) && s != t :: SectorsOf(fs, s) !! SectorsOf(fs, t))
  }

  /** An inode's data fits on the device and leaves out the inode's own sector. */
  ghost predicate WellPlaced(fs: Fs, s: nat)
  {
    var d := OnDisk(fs, s);
    d.start + SectorCnt(d.length) <= |fs.freeMap| && s !in Run(d.start, SectorCnt(d.length))
  }

  /** Names are valid and lead to different inodes, none of them removed; an open inode is named
      unless it is removed or the system's, and is the inode on disk. */
  ghost predicate NamesOk(fs: Fs)
  {
    && |fs.dir| <= ROOT_ENTRIES
    && (forall n | n in fs.dir :: ValidName(n) && fs.dir[n] > ROOT_DIR_SECTOR)
    && (forall n, k | n in fs.dir && k in fs.dir && n != k :: fs.dir[n] != fs.dir[k])
    && (forall s | s in fs.inodes :: InodeOk(fs, s, fs.inodes[s]))
  }

  ghost predicate InodeOk(fs: Fs, s: nat, i: Inode)
  {
    && i.data == OnDisk(fs, s)
    && if s <= ROOT_DIR_SECTOR then !i.removed else i.removed <==> !Named(fs.dir, s)
  }

  ghost function Handles(files: map<nat, File>, sector: nat): (s: set<nat>)
  {
    set h | h in files && files[h].sector == sector
  }

  ghost function Deniers(files: map<nat, File>, sector: nat): (s: set<nat>)
  {
    set h | h in files && files[h].sector == sector && files[h].denyWrite
  }

  ghost predicate CountOk(files: map<nat, File>, s: nat, i: Inode)
  {
    i.openCnt == |Handles(files, s)| && i.openCnt > 0 && i.denyWriteCnt == |Deniers(files, s)|
  }

  /** The counts of an open inode are those of the files open on it. */
  ghost predicate CountsOk(inodes: map<nat, Inode>, files: map<nat, File>)
  {
    && (forall h | h in files :: files[h].sector in inodes)
    && (forall s | s in inodes :: CountOk(files, s, inodes[s]))
  }

  ghost predicate Inv(fs: Fs)
  {
    OwnershipOk(fs) && NamesOk(fs) && CountsOk(fs.inodes, fs.files)
  }

  /* ----- Ownership ----- */

  ghost predicate SameOwners(fs: Fs, fs': Fs)
  {
    forall s: nat :: Owner(fs', s) <==> Owner(fs, s)
  }

  /** More marks, and new inodes only where nobody is an owner */
  lemma MoreMarks(fs: Fs, fs': Fs)
    requires OwnershipOk(fs) && SameOwners(fs, fs')
    requires |fs'.freeMap| == |fs.freeMap| && forall i: nat | Marked(fs.freeMap, i) :: Marked(fs'.freeMap, i)
    requires forall s: nat | Owner(fs, s) :: OnDisk(fs', s) == OnDisk(fs, s)
    ensures OwnershipOk(fs')
  {
    forall s: nat | Owner(fs', s)
      ensures AllMarked(fs'.freeMap, SectorsOf(fs', s)) && WellPlaced(fs', s)
    {
    }
  }

  /** A new owner takes sectors nobody had marked. */
  lemma NewOwner(fs: Fs, fs': Fs, sector: nat)
    requires OwnershipOk(fs)
    requires forall s: nat :: Owner(fs', s) <==> Owner(fs, s) || s == sector
    requires |fs'.freeMap| == |fs.freeMap| && forall i: nat | Marked(fs.freeMap, i) :: Marked(fs'.freeMap, i)
    requires forall s: nat | Owner(fs, s) :: OnDisk(fs', s) == OnDisk(fs, s)
    requires forall i | i in SectorsOf(fs', sector) :: !Marked(fs.freeMap, i) && Marked(fs'.freeMap, i)
    requires WellPlaced(fs', sector)
    ensures OwnershipOk(fs')
  {
    forall s: nat, t: nat | Owner(fs', s) && Owner(fs', t) && s != t
      ensures SectorsOf(fs', s) !! SectorsOf(fs', t)
    {
    }
  }

  /** An owner leaves: exactly its sectors are cleared, and both assertions of the release hold. */
  lemma OwnerLeaves(fs: Fs, fs': Fs, sector: nat)
    requires OwnershipOk(fs) && Owner(fs, sector)
    requires forall s: nat :: Owner(fs', s) <==> Owner(fs, s) && s != sector
    requires fs'.disk == fs.disk
    requires fs'.freeMap == MapRelease(MapRelease(fs.freeMap, sector, 1), OnDisk(fs, sector).start, SectorCnt(OnDisk(fs, sector).length))
    ensures OwnershipOk(fs')
  {
    ReleaseClears(fs, sector);
    OthersStay(fs, fs', sector);
  }

  lemma OthersStay(fs: Fs, fs': Fs, sector: nat)
    requires OwnershipOk(fs) && Owner(fs, sector) && fs'.disk == fs.disk && |fs'.freeMap| == |fs.freeMap|
    requires forall s: nat | Owner(fs', s) :: Owner(fs, s) && s != sector
    requires forall i: nat | Marked(fs.freeMap, i) && i !in SectorsOf(fs, sector) :: Marked(fs'.freeMap, i)
    ensures OwnershipOk(fs')
  {
    forall s: nat | Owner(fs', s)
      ensures AllMarked(fs'.freeMap, SectorsOf(fs', s)) && WellPlaced(fs', s)
    {
      assert SectorsOf(fs, s) !! SectorsOf(fs, sector);
    }
  }

  lemma ReleaseClears(fs: Fs, sector: nat)
    requires AllMarked(fs.freeMap, SectorsOf(fs, sector)) && WellPlaced(fs, sector)
    ensures Uniform(fs.freeMap, sector, 1, true)
    ensures var d := OnDisk(fs, sector);
            var m1 := MapRelease(fs.freeMap, sector, 1);
            && Uniform(m1, d.start, SectorCnt(d.length), true)
            && forall i: nat :: Marked(MapRelease(m1, d.start, SectorCnt(d.length)), i) <==>
                                Marked(fs.freeMap, i) && i !in SectorsOf(fs, sector)
  {
    var d := OnDisk(fs, sector);
    var n := SectorCnt(d.length);
    assert Marked(fs.freeMap, sector);
    MapReleaseClears(fs.freeMap, sector, 1);
    MarkedRun(fs.freeMap, d.start, n);
    assert Run(sector, 1) == {sector};
    MapReleaseClears(MapRelease(fs.freeMap, sector, 1), d.start, n);
  }

  lemma MarkedRun(m: seq<bool>, first: nat, cnt: nat)
    requires first + cnt <= |m| && forall i | i in Run(first, cnt) :: Marked(m, i)
    ensures Uniform(m, first, cnt, true)
  {
    forall k | first <= k < first + cnt ensures m[k] { assert k in Run(first, cnt); }
  }

  lemma MapReleaseClears(m: seq<bool>, first: nat, cnt: nat)
    requires Uniform(m, first, cnt, true)
    ensures forall i: nat :: Marked(MapRelease(m, first, cnt), i) <==> Marked(m, i) && i !in Run(first, cnt)
  {
  }

  /* ----- Opening, denying and closing ----- */

  /** Nothing changes but what inodes count, and owners stay owners. */
  lemma CountsOnly(fs: Fs, fs': Fs)
    requires OwnershipOk(fs) && NamesOk(fs) && CountsOk(fs'.inodes, fs'.files) && SameOwners(fs, fs')
    requires fs'.freeMap == fs.freeMap && fs'.disk == fs.disk && fs'.dir == fs.dir
    requires forall t | t in fs'.inodes :: InodeOk(fs, t, fs'.inodes[t])
    ensures Inv(fs')
  {
    MoreMarks(fs, fs');
  }

  lemma OpenKeepsInv(fs: Fs, s: nat, handle: nat)
    requires Inv(fs) && handle !in fs.files && (s in fs.inodes || (s > ROOT_DIR_SECTOR && Named(fs.dir, s)))
    ensures Inv(FileOpen(InodeOpen(fs, s), s, handle))
  {
    var fs' := FileOpen(InodeOpen(fs, s), s, handle);
    OpenCounts(fs.inodes, fs.files, s, fs'.inodes[s], handle);
    CountsOnly(fs, fs');
  }

  lemma OpenCounts(inodes: map<nat, Inode>, files: map<nat, File>, s: nat, i: Inode, handle: nat)
    requires CountsOk(inodes, files) && handle !in files
    requires i.openCnt == 1 + (if s in inodes then inodes[s].openCnt else 0)
    requires i.denyWriteCnt == if s in inodes then inodes[s].denyWriteCnt else 0
    ensures CountsOk(inodes[s := i], files[handle := File(s, false)])
  {
    var inodes' := inodes[s := i];
    forall t | t in inodes'
      ensures CountOk(files[handle := File(s, false)], t, inodes'[t])
    {
      HandlesOpened(files, s, handle, t);
      if t !in inodes { NoHandles(inodes, files, t); }
    }
  }

  lemma HandlesOpened(files: map<nat, File>, s: nat, handle: nat, t: nat)
    requires handle !in files
    ensures var files' := files[handle := File(s, false)];
            && |Handles(files', t)| == |Handles(files, t)| + (if t == s then 1 else 0)
            && Deniers(files', t) == Deniers(files, t)
  {
    var files' := files[handle := File(s, false)];
    assert Handles(files', t) == Handles(files, t) + (if t == s then {handle} else {});
  }

  lemma NoHandles(inodes: map<nat, Inode>, files: map<nat, File>, t: nat)
    requires CountsOk(inodes, files) && t !in inodes
    ensures Handles(files, t) == {} && Deniers(files, t) == {}
  {
  }

  lemma DenyKeepsInv(fs: Fs, handle: nat, deny: bool)
    requires Inv(fs) && handle in fs.files
    ensures Inv(SetDeny(fs, handle, deny))
  {
    DenyCounts(fs, handle, deny);
    CountsOnly(fs, SetDeny(fs, handle, deny));
  }

  lemma DenyCounts(fs: Fs, handle: nat, deny: bool)
    requires CountsOk(fs.inodes, fs.files) && handle in fs.files
    ensures CountsOk(SetDeny(fs, handle, deny).inodes, SetDeny(fs, handle, deny).files)
  {
    var f := fs.files[handle];
    var fs' := SetDeny(fs, handle, deny);
    if f.denyWrite != deny {
      forall t | t in fs'.inodes
        ensures CountOk(fs'.files, t, fs'.inodes[t])
      {
        DeniersChanged(fs.files, handle, deny, t);
      }
    }
  }

  lemma DeniersChanged(files: map<nat, File>, handle: nat, deny: bool, t: nat)
    requires handle in files && files[handle].denyWrite != deny
    ensures var files' := files[handle := files[handle].(denyWrite := deny)];
            && Handles(files', t) == Handles(files, t)
            && |Deniers(files', t)| == |Deniers(files, t)| + (if t != files[handle].sector then 0 else if deny then 1 else -1)
  {
    var files' := files[handle := files[handle].(denyWrite := deny)];
    if t != files[handle].sector {
      assert Deniers(files', t) == Deniers(files, t);
    } else if deny {
      assert Deniers(files', t) == Deniers(files, t) + {handle};
    } else {
      assert Deniers(files, t) == Deniers(files', t) + {handle};
    }
  }

  /** The assertions of inode_deny_write() and inode_allow_write() */
  lemma DenyWithinOpen(fs: Fs, s: nat)
    requires Inv(fs) && s in fs.inodes
    ensures fs.inodes[s].denyWriteCnt <= fs.inodes[s].openCnt
  {
    SubsetCount(Deniers(fs.files, s), Handles(fs.files, s));
  }

  lemma SubsetCount<T>(a: set<T>, b: set<T>)
    requires a <= b
    ensures |a| <= |b|
  {
    assert b == a + (b - a);
  }

  /* Closing a file that does not deny writes */

  lemma HandlesClosed(files: map<nat, File>, handle: nat, t: nat)
    requires handle in files && !files[handle].denyWrite
    ensures |Handles(files - {handle}, t)| == |Handles(files, t)| - (if t == files[handle].sector then 1 else 0)
    ensures Deniers(files - {handle}, t) == Deniers(files, t)
  {
    assert Handles(files, t) == Handles(files - {handle}, t) + (if t == files[handle].sector then {handle} else {});
  }

  lemma CloseCounts(fs: Fs, handle: nat)
    requires CountsOk(fs.inodes, fs.files) && handle in fs.files && !fs.files[handle].denyWrite
    ensures CountsOk(FileClose(fs, handle).inodes, fs.files - {handle})
  {
    var fs' := FileClose(fs, handle);
    var s := fs.files[handle].sector;
    forall t | t in fs'.inodes
      ensures CountOk(fs.files - {handle}, t, fs'.inodes[t])
    {
      HandlesClosed(fs.files, handle, t);
    }
    if s !in fs'.inodes { LastHandle(fs, handle); }
  }

  lemma LastHandle(fs: Fs, handle: nat)
    requires CountsOk(fs.inodes, fs.files) && handle in fs.files && fs.inodes[fs.files[handle].sector].openCnt == 1
    ensures forall h | h in fs.files && fs.files[h].sector == fs.files[handle].sector :: h == handle
  {
    var s := fs.files[handle].sector;
    assert handle in Handles(fs.files, s);
    forall h | h in fs.files && fs.files[h].sector == s
      ensures h == handle
    {
      assert h in Handles(fs.files, s);
      OneElement(Handles(fs.files, s), h, handle);
    }
  }

  lemma OneElement<T>(a: set<T>, x: T, y: T)
    requires |a| == 1 && x in a && y in a
    ensures x == y
  {
    SubsetCount({x, y}, a);
  }

  /** The last close of a removed inode: its sectors go back to the free map. */
  lemma LastCloseKeepsInv(fs: Fs, fs': Fs, s: nat)
    requires Inv(fs) && s in fs.inodes && fs.inodes[s].removed && CountsOk(fs'.inodes, fs'.files)
    requires fs'.inodes == fs.inodes - {s} && fs'.disk == fs.disk && fs'.dir == fs.dir
    requires fs'.freeMap == MapRelease(MapRelease(fs.freeMap, s, 1), OnDisk(fs, s).start, SectorCnt(OnDisk(fs, s).length))
    ensures Inv(fs')
  {
    assert !Named(fs.dir, s) && s > ROOT_DIR_SECTOR by { assert InodeOk(fs, s, fs.inodes[s]); }
    OwnerLeaves(fs, fs', s);
    forall t | t in fs'.inodes ensures InodeOk(fs', t, fs'.inodes[t]) { assert InodeOk(fs, t, fs.inodes[t]); }
  }

  lemma CloseKeepsInv(fs: Fs, handle: nat)
    requires Inv(fs) && handle in fs.files && !fs.files[handle].denyWrite
    ensures Inv(FileClose(fs, handle))
  {
    var fs' := FileClose(fs, handle);
    var s := fs.files[handle].sector;
    CloseCounts(fs, handle);
    assert InodeOk(fs, s, fs.inodes[s]);
    if fs.inodes[s].openCnt == 1 && fs.inodes[s].removed {
      LastCloseKeepsInv(fs, fs', s);
    } else {
      CountsOnly(fs, fs');
    }
  }

  /* ----- filesys_remove() ----- */

  /** An inode that is open keeps its sectors; one that is not gives them back at once. */
  lemma RemoveCases(fs: Fs, name: Name)
    requires Inv(fs) && name in fs.dir
    ensures var s, fs' := fs.dir[name], Remove(fs, name, true);
            if s in fs.inodes then
              fs' == fs.(dir := fs.dir - {name}, inodes := fs.inodes[s := fs.inodes[s].(removed := true)])
            else
              fs' == fs.(dir := fs.dir - {name}, freeMap :=
                         MapRelease(MapRelease(fs.freeMap, s, 1), OnDisk(fs, s).start, SectorCnt(OnDisk(fs, s).length)))
  {
    var s, fs' := fs.dir[name], Remove(fs, name, true);
    if s in fs.inodes {
      assert fs.inodes[s].openCnt > 0;
      assert fs'.inodes == fs.inodes[s := fs.inodes[s].(removed := true)];
    } else {
      assert fs'.inodes == fs.inodes;
    }
  }

  lemma NamedWithout(dir: map<Name, nat>, name: Name, t: nat)
    requires name in dir && forall n, k | n in dir && k in dir && n != k :: dir[n] != dir[k]
    ensures Named(dir - {name}, t) <==> Named(dir, t) && t != dir[name]
  {
    if Named(dir, t) && t != dir[name] {
      var n :| n in dir && dir[n] == t;
      assert n in dir - {name} && (dir - {name})[n] == t;
    }
  }

  lemma RemoveNames(fs: Fs, fs': Fs, name: Name)
    requires NamesOk(fs) && name in fs.dir && fs'.dir == fs.dir - {name} && fs'.disk == fs.disk
    requires fs'.inodes == if fs.dir[name] in fs.inodes then fs.inodes[fs.dir[name] := fs.inodes[fs.dir[name]].(removed := true)] else fs.inodes
    ensures NamesOk(fs')
  {
    SubsetCount(fs'.dir.Keys, fs.dir.Keys);
    forall t | t in fs'.inodes
      ensures InodeOk(fs', t, fs'.inodes[t])
    {
      NamedWithout(fs.dir, name, t);
      assert InodeOk(fs, t, fs.inodes[t]);
    }
  }

  /** Who owns sectors after a removal: as before, but for an inode that is not open. */
  lemma RemoveOwners(fs: Fs, fs': Fs, name: Name)
    requires NamesOk(fs) && name in fs.dir && fs'.dir == fs.dir - {name} && fs'.inodes.Keys == fs.inodes.Keys
    ensures Owner(fs, fs.dir[name])
    ensures forall t: nat :: Owner(fs', t) <==> Owner(fs, t) && (t != fs.dir[name] || t in fs.inodes)
  {
    assert Named(fs.dir, fs.dir[name]);
    forall t: nat
      ensures Owner(fs', t) <==> Owner(fs, t) && (t != fs.dir[name] || t in fs.inodes)
    {
      NamedWithout(fs.dir, name, t);
    }
  }

  lemma RemovedOwnership(fs: Fs, fs': Fs, name: Name)
    requires OwnershipOk(fs) && NamesOk(fs) && name in fs.dir
    requires fs'.dir == fs.dir - {name} && fs'.inodes.Keys == fs.inodes.Keys && fs'.disk == fs.disk
    requires var s := fs.dir[name];
             fs'.freeMap == if s in fs.inodes then fs.freeMap
                            else MapRelease(MapRelease(fs.freeMap, s, 1), OnDisk(fs, s).start, SectorCnt(OnDisk(fs, s).length))
    ensures OwnershipOk(fs')
  {
    RemoveOwners(fs, fs', name);
    if fs.dir[name] in fs.inodes {
      MoreMarks(fs, fs');
    } else {
      OwnerLeaves(fs, fs', fs.dir[name]);
    }
  }

  lemma RemovedCounts(inodes: map<nat, Inode>, files: map<nat, File>, s: nat)
    requires CountsOk(inodes, files) && s in inodes
    ensures CountsOk(inodes[s := inodes[s].(removed := true)], files)
  {
  }

  lemma RemoveKeepsInv(fs: Fs, name: Name)
    requires Inv(fs) && name in fs.dir
    ensures Inv(Remove(fs, name, true))
  {
    var s, fs' := fs.dir[name], Remove(fs, name, true);
    RemoveCases(fs, name);
    RemovedOwnership(fs, fs', name);
    RemoveNames(fs, fs', name);
    if s in fs.inodes {
      RemovedCounts(fs.inodes, fs.files, s);
    }
  }

  /* ----- filesys_create() ----- */

  lemma MapAllocates(m: seq<bool>, cnt: nat, written: bool)
    ensures match MapAllocate(m, cnt, written)
            case NotFound => MapAfter(m, cnt, written) == m
            case At(i) => Uniform(m, i, cnt, false) && MapAfter(m, cnt, written) == Fill(m, i, cnt, true)
  {
    match ScanFrom(m, 0, cnt)
    case NotFound =>
    case At(i) => assert Fill(Fill(m, i, cnt, true), i, cnt, false) == m;
  }

  lemma FillMarks(m: seq<bool>, first: nat, cnt: nat)
    requires Uniform(m, first, cnt, false)
    ensures forall i: nat :: Marked(Fill(m, first, cnt, true), i) <==> Marked(m, i) || i in Run(first, cnt)
    ensures forall i | i in Run(first, cnt) :: !Marked(m, i)
  {
  }

  /** How a call of filesys_create() ends */
  datatype Ending = Nothing | Created(sector: nat, start: nat) | Leaked(sector: nat, start: nat)

  function EndingOf(fs: Fs, name: Name, size: nat, m: Memory): (e: Ending)
  {
    if !m.root then Nothing
    else
      match MapAllocate(fs.freeMap, 1, m.map1)
      case NotFound => Nothing
      case At(sector) =>
        match MapAllocate(MapAfter(fs.freeMap, 1, m.map1), SectorCnt(size), m.map2)
        case NotFound => Nothing
        case At(start) =>
          if !m.inode then Nothing else if MayAdd(fs, name) then Created(sector, start) else Leaked(sector, start)
  }

  /** What filesys_create() leaves behind: the file; or, when dir_add() fails, its data sectors;
      or nothing at all. */
  lemma CreateEnds(fs: Fs, name: Name, size: nat, m: Memory)
    ensures var n, fs' := SectorCnt(size), Create(fs, name, size, m);
            match EndingOf(fs, name, size, m)
            case Nothing => fs' == fs
            case Created(s, start) =>
              && Uniform(fs.freeMap, s, 1, false) && Uniform(Fill(fs.freeMap, s, 1, true), start, n, false)
              && fs' == fs.(freeMap := Fill(Fill(fs.freeMap, s, 1, true), start, n, true),
                            disk := fs.disk[s := InodeDisk(start, size)], dir := fs.dir[name := s])
            case Leaked(s, start) =>
              && Uniform(fs.freeMap, s, 1, false) && Uniform(fs.freeMap, start, n, false) && s !in Run(start, n)
              && fs' == fs.(freeMap := Fill(fs.freeMap, start, n, true), disk := fs.disk[s := InodeDisk(start, size)])
  {
    MapAllocates(fs.freeMap, 1, m.map1);
    match MapAllocate(fs.freeMap, 1, m.map1)
    case NotFound =>
    case At(s) => CreateAtEnds(fs, name, size, s, m);
  }

  /** The same once the inode has a sector */
  lemma CreateAtEnds(fs: Fs, name: Name, size: nat, s: nat, m: Memory)
    requires Uniform(fs.freeMap, s, 1, false)
    ensures var n, m1 := SectorCnt(size), Fill(fs.freeMap, s, 1, true);
            var fs' := CreateAt(fs.(freeMap := m1), name, size, s, m);
            match MapAllocate(m1, n, m.map2)
            case NotFound => fs' == fs
            case At(start) =>
              && Uniform(m1, start, n, false) && Uniform(fs.freeMap, start, n, false) && s !in Run(start, n)
              && if !m.inode then fs' == fs
                 else if MayAdd(fs, name) then
                   fs' == fs.(freeMap := Fill(m1, start, n, true), disk := fs.disk[s := InodeDisk(start, size)],
                              dir := fs.dir[name := s])
                 else
                   fs' == fs.(freeMap := Fill(fs.freeMap, start, n, true), disk := fs.disk[s := InodeDisk(start, size)])
  {
    var n, m1 := SectorCnt(size), Fill(fs.freeMap, s, 1, true);
    assert Fill(m1, s, 1, false) == fs.freeMap && Uniform(m1, s, 1, true);
    MapAllocates(m1, n, m.map2);
    match MapAllocate(m1, n, m.map2)
    case NotFound =>
    case At(start) => DataApart(fs.freeMap, s, start, n);
  }

  lemma DataApart(fm: seq<bool>, s: nat, start: nat, n: nat)
    requires Uniform(fm, s, 1, false) && Uniform(Fill(fm, s, 1, true), start, n, false)
    ensures Uniform(fm, start, n, false) && s !in Run(start, n)
    ensures MapRelease(Fill(Fill(fm, s, 1, true), start, n, true), s, 1) == Fill(fm, start, n, true)
  {
    var m1 := Fill(fm, s, 1, true);
    assert m1[s];
    assert Uniform(Fill(m1, start, n, true), s, 1, true);
    assert Fill(Fill(m1, start, n, true), s, 1, false) == Fill(fm, start, n, true);
  }

  lemma UnmarkedOwnsNothing(fs: Fs, s: nat)
    requires OwnershipOk(fs) && !Marked(fs.freeMap, s)
    ensures !Owner(fs, s)
  {
    assert s in SectorsOf(fs, s);
  }

  lemma NamedWith(dir: map<Name, nat>, name: Name, s: nat, t: nat)
    requires name !in dir
    ensures Named(dir[name := s], t) <==> Named(dir, t) || t == s
  {
    if Named(dir, t) {
      var n :| n in dir && dir[n] == t;
      assert n in dir[name := s] && dir[name := s][n] == t;
    }
    assert dir[name := s][name] == s;
  }

  lemma CreatedMarks(fm: seq<bool>, s: nat, start: nat, n: nat)
    requires Uniform(fm, s, 1, false) && Uniform(Fill(fm, s, 1, true), start, n, false)
    ensures start + n <= |fm| && s !in Run(start, n)
    ensures var m2 := Fill(Fill(fm, s, 1, true), start, n, true);
            forall i: nat :: Marked(m2, i) <==> Marked(fm, i) || i == s || i in Run(start, n)
    ensures !Marked(fm, s) && forall i | i in Run(start, n) :: !Marked(fm, i)
  {
    FillMarks(fm, s, 1);
    FillMarks(Fill(fm, s, 1, true), start, n);
    DataApart(fm, s, start, n);
    assert forall i: nat :: i in Run(s, 1) <==> i == s;
  }

  lemma CreatedKeepsInv(fs: Fs, fs': Fs, name: Name, size: nat, s: nat, start: nat)
    requires Inv(fs) && MayAdd(fs, name)
    requires Uniform(fs.freeMap, s, 1, false) && Uniform(Fill(fs.freeMap, s, 1, true), start, SectorCnt(size), false)
    requires fs' == fs.(freeMap := Fill(Fill(fs.freeMap, s, 1, true), start, SectorCnt(size), true),
                        disk := fs.disk[s := InodeDisk(start, size)], dir := fs.dir[name := s])
    ensures Inv(fs')
  {
    CreatedMarks(fs.freeMap, s, start, SectorCnt(size));
    UnmarkedOwnsNothing(fs, s);
    forall t: nat ensures Named(fs'.dir, t) <==> Named(fs.dir, t) || t == s { NamedWith(fs.dir, name, s, t); }
    assert forall t: nat | Owner(fs, t) :: OnDisk(fs', t) == OnDisk(fs, t);
    NewOwner(fs, fs', s);
    CreatedNames(fs, fs', name, s);
  }

  lemma CreatedNames(fs: Fs, fs': Fs, name: Name, s: nat)
    requires NamesOk(fs) && MayAdd(fs, name) && !Owner(fs, s) && fs'.dir == fs.dir[name := s] && fs'.inodes == fs.inodes
    requires forall t: nat | Owner(fs, t) :: OnDisk(fs', t) == OnDisk(fs, t)
    ensures NamesOk(fs')
  {
    forall k | k in fs.dir ensures fs.dir[k] != s { assert Named(fs.dir, fs.dir[k]); }
    forall t | t in fs'.inodes
      ensures InodeOk(fs', t, fs'.inodes[t])
    {
      NamedWith(fs.dir, name, s, t);
      assert InodeOk(fs, t, fs.inodes[t]) && Owner(fs, t);
    }
  }

  lemma LeakedKeepsInv(fs: Fs, fs': Fs, s: nat, d: InodeDisk)
    requires Inv(fs) && Uniform(fs.freeMap, s, 1, false) && Uniform(fs.freeMap, d.start, SectorCnt(d.length), false)
    requires fs' == fs.(freeMap := Fill(fs.freeMap, d.start, SectorCnt(d.length), true), disk := fs.disk[s := d])
    ensures Inv(fs')
  {
    FillMarks(fs.freeMap, d.start, SectorCnt(d.length));
    UnmarkedOwnsNothing(fs, s);
    MoreMarks(fs, fs');
    forall t | t in fs'.inodes
      ensures InodeOk(fs', t, fs'.inodes[t])
    {
      assert InodeOk(fs, t, fs.inodes[t]) && Owner(fs, t);
    }
  }

  lemma CreateKeepsInv(fs: Fs, name: Name, size: nat, m: Memory)
    requires Inv(fs)
    ensures Inv(Create(fs, name, size, m))
  {
    CreateEnds(fs, name, size, m);
    var fs' := Create(fs, name, size, m);
    match EndingOf(fs, name, size, m)
    case Nothing =>
    case Created(s, start) => CreatedKeepsInv(fs, fs', name, size, s, start);
    case Leaked(s, start) => LeakedKeepsInv(fs, fs', s, InodeDisk(start, size));
  }

  /* ----- Runs ----- */

  lemma FileCloseKeepsInv(fs: Fs, f: nat)
    requires Inv(fs) && f in fs.files
    ensures Inv(FileClose(fs, f))
  {
    DenyKeepsInv(fs, f, false);
    var fs1 := SetDeny(fs, f, false);
    CloseKeepsInv(fs1, f);
    assert FileClose(fs1, f) == FileClose(fs, f);
  }

  lemma StepKeepsInv(fs: Fs, c: Call)
    requires Inv(fs) && Proper(fs, c)
    ensures Inv(Step(fs, c))
  {
    match c
    case CreateCall(name, size, m) => CreateKeepsInv(fs, name, size, m);
    case OpenCall(name, h, memory) =>
      if memory && name in fs.dir { OpenKeepsInv(fs, fs.dir[name], h); }
    case ReopenCall(f, h, memory) =>
      if memory { OpenKeepsInv(fs, fs.files[f].sector, h); }
    case DenyCall(f) => DenyKeepsInv(fs, f, true);
    case AllowCall(f) => DenyKeepsInv(fs, f, false);
    case RemoveCall(name, memory) =>
      if memory && name in fs.dir { RemoveKeepsInv(fs, name); }
    case CloseCall(f) => FileCloseKeepsInv(fs, f);
  }

  predicate IsRun(fs: Fs, cs: seq<Call>)
    decreases |cs|
  {
    cs == [] || (Proper(fs, cs[0]) && IsRun(Step(fs, cs[0]), cs[1..]))
  }

  function After(fs: Fs, cs: seq<Call>): (fs': Fs)
    requires IsRun(fs, cs)
    decreases |cs|
  {
    if cs == [] then fs else After(Step(fs, cs[0]), cs[1..])
  }

  /** After any run of calls, owners' sectors are disjoint and marked, different names lead to different
      files, none of them removed, and the counts of open inodes are those of the open files. */
  lemma {:induction false} RunKeepsInv(fs: Fs, cs: seq<Call>)
    requires Inv(fs) && IsRun(fs, cs)
    ensures Inv(After(fs, cs))
    decreases |cs|
  {
    if cs != [] {
      StepKeepsInv(fs, cs[0]);
      RunKeepsInv(Step(fs, cs[0]), cs[1..]);
    }
  }

  /** Neither assertion of inode_deny_write() and inode_allow_write() can fail. */
  lemma DenyAssertionsHold(fs: Fs, f: nat)
    requires Inv(fs) && f in fs.files
    ensures var i := fs.inodes[fs.files[f].sector];
            && i.denyWriteCnt <= i.openCnt
            && if fs.files[f].denyWrite then i.denyWriteCnt > 0 else i.denyWriteCnt + 1 <= i.openCnt
  {
    var s := fs.files[f].sector;
    DenyWithinOpen(fs, s);
    if fs.files[f].denyWrite {
      assert f in Deniers(fs.files, s);
    } else {
      assert f in Handles(fs.files, s);
      SubsetCount(Deniers(fs.files, s) + {f}, Handles(fs.files, s));
    }
  }

  /* ----- Release ----- */

  datatype Victim = NoVictim | Victim(sector: nat)

  /** The inode a call destroys: a removed one whose last file is closed, or one removed while not open */
  function VictimOf(fs: Fs, c: Call): (v: Victim)
  {
    match c
    case CloseCall(f) =>
      if f in fs.files && fs.files[f].sector in fs.inodes
         && fs.inodes[fs.files[f].sector].removed && fs.inodes[fs.files[f].sector].openCnt == 1
      then Victim(fs.files[f].sector) else NoVictim
    case RemoveCall(name, memory) =>
      if memory && name in fs.dir && fs.dir[name] !in fs.inodes then Victim(fs.dir[name]) else NoVictim
    case _ => NoVictim
  }

  /** A call unmarks exactly the sectors of the inode it destroys, if it destroys one; that inode was
      an owner and is none afterwards, so its sectors are released once. The assertions of
      free_map_release() hold. */
  lemma ReleasedOnce(fs: Fs, c: Call)
    requires Inv(fs) && Proper(fs, c)
    ensures match VictimOf(fs, c)
            case NoVictim => forall i: nat | Marked(fs.freeMap, i) :: Marked(Step(fs, c).freeMap, i)
            case Victim(s) =>
              && Owner(fs, s) && !Owner(Step(fs, c), s)
              && Uniform(fs.freeMap, s, 1, true)
              && Uniform(MapRelease(fs.freeMap, s, 1), OnDisk(fs, s).start, SectorCnt(OnDisk(fs, s).length), true)
              && forall i: nat :: Marked(Step(fs, c).freeMap, i) <==> Marked(fs.freeMap, i) && i !in SectorsOf(fs, s)
  {
    match c
    case CreateCall(name, size, m) => CreateMarksMore(fs, name, size, m);
    case OpenCall(_, _, _) =>
    case ReopenCall(_, _, _) =>
    case DenyCall(_) =>
    case AllowCall(_) =>
    case RemoveCall(name, memory) =>
      if memory && name in fs.dir { RemoveReleases(fs, name); }
    case CloseCall(f) => CloseReleases(fs, f);
  }

  lemma CreateMarksMore(fs: Fs, name: Name, size: nat, m: Memory)
    ensures forall i: nat | Marked(fs.freeMap, i) :: Marked(Create(fs, name, size, m).freeMap, i)
  {
    CreateEnds(fs, name, size, m);
  }

  lemma RemoveReleases(fs: Fs, name: Name)
    requires Inv(fs) && name in fs.dir
    ensures var s, fs' := fs.dir[name], Remove(fs, name, true);
            if s in fs.inodes then fs'.freeMap == fs.freeMap
            else
              && Owner(fs, s) && !Owner(fs', s) && Uniform(fs.freeMap, s, 1, true)
              && Uniform(MapRelease(fs.freeMap, s, 1), OnDisk(fs, s).start, SectorCnt(OnDisk(fs, s).length), true)
              && forall i: nat :: Marked(fs'.freeMap, i) <==> Marked(fs.freeMap, i) && i !in SectorsOf(fs, s)
  {
    var s := fs.dir[name];
    RemoveCases(fs, name);
    assert Named(fs.dir, s);
    NamedWithout(fs.dir, name, s);
    ReleaseClears(fs, s);
  }

  lemma CloseReleases(fs: Fs, f: nat)
    requires Inv(fs) && f in fs.files
    ensures var s, fs' := fs.files[f].sector, FileClose(fs, f);
            if !(fs.inodes[s].removed && fs.inodes[s].openCnt == 1) then fs'.freeMap == fs.freeMap
            else
              && Owner(fs, s) && !Owner(fs', s) && Uniform(fs.freeMap, s, 1, true)
              && Uniform(MapRelease(fs.freeMap, s, 1), OnDisk(fs, s).start, SectorCnt(OnDisk(fs, s).length), true)
              && forall i: nat :: Marked(fs'.freeMap, i) <==> Marked(fs.freeMap, i) && i !in SectorsOf(fs, s)
  {
    var s := fs.files[f].sector;
    assert InodeOk(fs, s, fs.inodes[s]);
    ReleaseClears(fs, s);
  }
}
