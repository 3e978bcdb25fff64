/** What every call of the file system does, in terms of names, files, inodes and sectors, without
    reference to the functions that take it. */
module FsEffects {
  import opened Bitmaps
  import opened FsState
  import opened FsOwnership

  /** No open inode but the one at `s` is changed. */
  ghost predicate InodesBut(fs: Fs, fs': Fs, s: nat)
  {
    forall t | t != s :: (t in fs'.inodes <==> t in fs.inodes) && (t in fs.inodes ==> fs'.inodes[t] == fs.inodes[t])
  }

  /** `handle` is a new file on the inode at `s`, which is open once more than before. */
  ghost predicate Opened(fs: Fs, fs': Fs, s: nat, handle: nat)
  {
    && fs'.freeMap == fs.freeMap && fs'.disk == fs.disk && fs'.dir == fs.dir
    && fs'.files == fs.files[handle := File(s, false)]
    && InodesBut(fs, fs', s) && s in fs'.inodes
    && var i' := fs'.inodes[s];
       if s in fs.inodes then
         var i := fs.inodes[s];
         i' == Inode(i.openCnt + 1, i.denyWriteCnt, i.removed, i.data)
       else i' == Inode(1, 0, false, OnDisk(fs, s))
  }

  /** filesys_open() opens the inode the name leads to. */
  lemma OpenDoes(fs: Fs, name: Name, handle: nat, memory: bool)
    requires handle !in fs.files
    ensures var fs' := Step(fs, OpenCall(name, handle, memory));
            if memory && name in fs.dir then Opened(fs, fs', fs.dir[name], handle) else fs' == fs
  {
  }

  /** file_reopen() opens the inode of the file it is given. */
  lemma ReopenDoes(fs: Fs, f: nat, handle: nat, memory: bool)
    requires f in fs.files && handle !in fs.files
    ensures var fs' := Step(fs, ReopenCall(f, handle, memory));
            if memory then Opened(fs, fs', fs.files[f].sector, handle) else fs' == fs
  {
  }

  function Change(was: bool, now: bool): (n: int)
  {
    if was == now then 0 else if now then 1 else -1
  }

  /** The file's flag is `deny`, and its inode counts the change. */
  ghost predicate FlagSet(fs: Fs, fs': Fs, f: nat, deny: bool)
    requires f in fs.files && fs.files[f].sector in fs.inodes
  {
    var s := fs.files[f].sector;
    var i := fs.inodes[s];
    && fs'.freeMap == fs.freeMap && fs'.disk == fs.disk && fs'.dir == fs.dir
    && fs'.files == fs.files[f := File(s, deny)]
    && InodesBut(fs, fs', s) && s in fs'.inodes
    && fs'.inodes[s] == Inode(i.openCnt, i.denyWriteCnt + Change(fs.files[f].denyWrite, deny), i.removed, i.data)
  }

  /** file_deny_write() and file_allow_write() */
  lemma DenyDoes(fs: Fs, f: nat)
    requires Inv(fs) && f in fs.files
    ensures FlagSet(fs, Step(fs, DenyCall(f)), f, true) && FlagSet(fs, Step(fs, AllowCall(f)), f, false)
  {
    SetDenyDoes(fs, f, true);
    SetDenyDoes(fs, f, false);
  }

  lemma SetDenyDoes(fs: Fs, f: nat, deny: bool)
    requires f in fs.files && fs.files[f].sector in fs.inodes
    ensures FlagSet(fs, SetDeny(fs, f, deny), f, deny)
  {
    assert fs.files[f := fs.files[f]] == fs.files;
  }

  ghost predicate LastOfRemoved(fs: Fs, f: nat)
    requires f in fs.files && fs.files[f].sector in fs.inodes
  {
    fs.inodes[fs.files[f].sector].openCnt == 1 && fs.inodes[fs.files[f].sector].removed
  }

  /** The file is gone, and with the last one its inode; if that was removed, its sectors are free. */
  ghost predicate Closed(fs: Fs, fs': Fs, f: nat)
    requires f in fs.files && fs.files[f].sector in fs.inodes
  {
    var s := fs.files[f].sector;
    var i := fs.inodes[s];
    && fs'.disk == fs.disk && fs'.dir == fs.dir && fs'.files == fs.files - {f}
    && InodesBut(fs, fs', s)
    && (if i.openCnt == 1 then s !in fs'.inodes
        else s in fs'.inodes
             && fs'.inodes[s] == Inode(i.openCnt - 1, i.denyWriteCnt + Change(fs.files[f].denyWrite, false), i.removed, i.data))
    && forall k: nat :: Marked(fs'.freeMap, k) <==> Marked(fs.freeMap, k) && !(LastOfRemoved(fs, f) && k in SectorsOf(fs, s))
  }

  /** file_close() */
  lemma CloseDoes(fs: Fs, f: nat)
    requires Inv(fs) && f in fs.files
    ensures Closed(fs, FileClose(fs, f), f)
  {
    var fs1, s := SetDeny(fs, f, false), fs.files[f].sector;
    SetDenyDoes(fs, f, false);
    var fs2 := fs1.(files := fs1.files - {f});
    InodeCloseDoes(fs2, s);
    CloseReleases(fs, f);
    ClosedFrom(fs, fs1, InodeClose(fs2, s), f);
  }

  /** The two halves of a close, the flag and the inode */
  lemma ClosedFrom(fs: Fs, fs1: Fs, fs': Fs, f: nat)
    requires f in fs.files && fs.files[f].sector in fs.inodes && FlagSet(fs, fs1, f, false)
    requires InodeClosed(fs1.(files := fs1.files - {f}), fs', fs.files[f].sector)
    requires forall k: nat :: Marked(fs'.freeMap, k) <==>
               Marked(fs.freeMap, k) && !(LastOfRemoved(fs, f) && k in SectorsOf(fs, fs.files[f].sector))
    ensures Closed(fs, fs', f)
  {
    assert fs1.files - {f} == fs.files - {f};
  }

  ghost predicate InodeClosed(fs: Fs, fs': Fs, s: nat)
    requires s in fs.inodes
  {
    && fs'.disk == fs.disk && fs'.dir == fs.dir && fs'.files == fs.files && InodesBut(fs, fs', s)
    && if fs.inodes[s].openCnt == 1 then s !in fs'.inodes
       else s in fs'.inodes && fs'.inodes[s] == fs.inodes[s].(openCnt := fs.inodes[s].openCnt - 1)
  }

  lemma InodeCloseDoes(fs: Fs, s: nat)
    requires s in fs.inodes
    ensures InodeClosed(fs, InodeClose(fs, s), s)
  {
  }

  /** The name is gone; an open inode is marked removed, one that is not open gives its sectors back. */
  ghost predicate Unlinked(fs: Fs, fs': Fs, name: Name)
    requires name in fs.dir
  {
    var s := fs.dir[name];
    && fs'.disk == fs.disk && fs'.files == fs.files && fs'.dir == fs.dir - {name}
    && InodesBut(fs, fs', s)
    && if s in fs.inodes then
         var i := fs.inodes[s];
         s in fs'.inodes && fs'.inodes[s] == Inode(i.openCnt, i.denyWriteCnt, true, i.data) && fs'.freeMap == fs.freeMap
       else
         && s !in fs'.inodes
         && forall k: nat :: Marked(fs'.freeMap, k) <==> Marked(fs.freeMap, k) && k !in SectorsOf(fs, s)
  }

  /** filesys_remove() */
  lemma RemoveDoes(fs: Fs, name: Name, memory: bool)
    requires Inv(fs)
    ensures var fs' := Step(fs, RemoveCall(name, memory));
            if memory && name in fs.dir then Unlinked(fs, fs', name) else fs' == fs
  {
    if memory && name in fs.dir {
      RemoveCases(fs, name);
      RemoveReleases(fs, name);
    }
  }

  /* ----- filesys_create() ----- */

  /** The least number of sectors that hold `length` bytes */
  lemma SectorCntIs(length: nat)
    ensures (SectorCnt(length) - 1) * BLOCK_SECTOR_SIZE < length <= SectorCnt(length) * BLOCK_SECTOR_SIZE
  {
  }

  /** `s` is the first sector that is not marked, and `start` the first run of `n` then. */
  ghost predicate Places(m: seq<bool>, s: nat, start: nat, n: nat)
  {
    && FirstUniform(m, 0, 1, false, At(s)) && s < |m|
    && FirstUniform(m[s := true], 0, n, false, At(start))
  }

  /** The new file, its inode on the one and its data on the others of these sectors */
  ghost predicate CreatedOn(fs: Fs, fs': Fs, name: Name, size: nat, s: nat, start: nat)
  {
    && fs'.files == fs.files && fs'.inodes == fs.inodes
    && fs'.dir == fs.dir[name := s] && fs'.disk == fs.disk[s := InodeDisk(start, size)]
    && forall k: nat :: Marked(fs'.freeMap, k) <==> Marked(fs.freeMap, k) || k == s || k in Run(start, SectorCnt(size))
  }

  /** What it takes to create a file: memory, a valid new name, room in the directory and sectors */
  ghost predicate MayCreate(fs: Fs, name: Name, size: nat, m: Memory)
  {
    && m.root && m.map1 && m.inode && m.map2
    && 1 <= |name| <= NAME_MAX && name !in fs.dir && |fs.dir| < ROOT_ENTRIES
    && exists s: nat, start: nat :: Places(fs.freeMap, s, start, SectorCnt(size))
  }

  lemma TakenMap(m: seq<bool>, s: nat)
    requires s < |m|
    ensures m[s := true] == Fill(m, s, 1, true)
  {
  }

  lemma PlacesAre(m: seq<bool>, s: nat, start: nat, n: nat)
    ensures Places(m, s, start, n) <==>
            ScanFrom(m, 0, 1) == At(s) && s < |m| && ScanFrom(Fill(m, s, 1, true), 0, n) == At(start)
  {
    if s < |m| {
      TakenMap(m, s);
      if FirstUniform(m, 0, 1, false, At(s)) { FirstUniformUnique(m, 0, 1, false, At(s), ScanFrom(m, 0, 1)); }
      var m1 := Fill(m, s, 1, true);
      if FirstUniform(m1, 0, n, false, At(start)) { FirstUniformUnique(m1, 0, n, false, At(start), ScanFrom(m1, 0, n)); }
    }
  }

  lemma EndingIff(fs: Fs, name: Name, size: nat, m: Memory)
    ensures EndingOf(fs, name, size, m).Created? <==> MayCreate(fs, name, size, m)
    ensures match EndingOf(fs, name, size, m)
            case Created(s, start) => Places(fs.freeMap, s, start, SectorCnt(size))
            case _ => true
  {
    var n := SectorCnt(size);
    forall s: nat, start: nat
      ensures Places(fs.freeMap, s, start, n) <==>
              ScanFrom(fs.freeMap, 0, 1) == At(s) && s < |fs.freeMap| && ScanFrom(Fill(fs.freeMap, s, 1, true), 0, n) == At(start)
    {
      PlacesAre(fs.freeMap, s, start, n);
    }
    match ScanFrom(fs.freeMap, 0, 1)
    case NotFound =>
    case At(s) =>
      match ScanFrom(Fill(fs.freeMap, s, 1, true), 0, n)
      case NotFound =>
      case At(start) => assert Places(fs.freeMap, s, start, n);
  }

  /** filesys_create() makes the file exactly if MayCreate, on the first sectors that will do; otherwise
      it adds no name and opens nothing. */
  lemma CreateDoes(fs: Fs, name: Name, size: nat, m: Memory)
    ensures var fs' := Step(fs, CreateCall(name, size, m));
            if MayCreate(fs, name, size, m) then
              exists s: nat, start: nat :: Places(fs.freeMap, s, start, SectorCnt(size)) && CreatedOn(fs, fs', name, size, s, start)
            else fs'.dir == fs.dir && fs'.files == fs.files && fs'.inodes == fs.inodes
  {
    EndingIff(fs, name, size, m);
    CreateEnds(fs, name, size, m);
    match EndingOf(fs, name, size, m)
    case Created(s, start) =>
      CreatedMarks(fs.freeMap, s, start, SectorCnt(size));
      assert CreatedOn(fs, Create(fs, name, size, m), name, size, s, start);
    case _ =>
  }

  /* ----- The calls, each with its invariant and its effect ----- */

  lemma OpenOk(fs: Fs, name: Name, handle: nat, memory: bool) returns (fs': Fs)
    requires Inv(fs) && handle !in fs.files
    ensures fs' == Open(fs, name, handle, memory) && Inv(fs')
    ensures if memory && name in fs.dir then Opened(fs, fs', fs.dir[name], handle) else fs' == fs
  {
    fs' := Open(fs, name, handle, memory);
    OpenDoes(fs, name, handle, memory);
    StepKeepsInv(fs, OpenCall(name, handle, memory));
  }

  lemma ReopenOk(fs: Fs, f: nat, handle: nat, memory: bool) returns (fs': Fs)
    requires Inv(fs) && f in fs.files && handle !in fs.files
    ensures fs' == Reopen(fs, f, handle, memory) && Inv(fs')
    ensures if memory then Opened(fs, fs', fs.files[f].sector, handle) else fs' == fs
  {
    fs' := Reopen(fs, f, handle, memory);
    ReopenDoes(fs, f, handle, memory);
    StepKeepsInv(fs, ReopenCall(f, handle, memory));
  }

  lemma DenyOk(fs: Fs, f: nat, deny: bool) returns (fs': Fs)
    requires Inv(fs) && f in fs.files
    ensures fs' == SetDeny(fs, f, deny) && Inv(fs') && FlagSet(fs, fs', f, deny)
  {
    fs' := SetDeny(fs, f, deny);
    SetDenyDoes(fs, f, deny);
    DenyKeepsInv(fs, f, deny);
  }

  lemma CreateOk(fs: Fs, name: Name, size: nat, m: Memory) returns (fs': Fs)
    requires Inv(fs)
    ensures fs' == Create(fs, name, size, m) && Inv(fs')
    ensures EndingOf(fs, name, size, m).Created? <==> MayCreate(fs, name, size, m)
    ensures if MayCreate(fs, name, size, m) then exists s: nat, start: nat :: CreatedOn(fs, fs', name, size, s, start)
            else fs'.dir == fs.dir
  {
    fs' := Create(fs, name, size, m);
    EndingIff(fs, name, size, m);
    CreateDoes(fs, name, size, m);
    CreateKeepsInv(fs, name, size, m);
  }
}
