/** inode.c, free-map.c, file.c and filesys.c in place: every method keeps the invariant of
    FsOwnership and changes the state as its function in FsState says. */
module FsKernel {
  import opened Bitmaps
  import opened FsState
  import opened FsOwnership
  import opened FsEffects

  class FileSystem {
    const freeMap: Bitmap
    var disk: map<nat, InodeDisk>
    var dir: map<Name, nat>
    var inodes: map<nat, Inode>
    var files: map<nat, File>

    /** filesys_init() with formatting, where it does not panic */
    constructor (n: nat)
      requires Format(n).Ready?
      ensures freeMap.Valid() && fresh(freeMap.bits) && View() == Format(n).fs
    {
      freeMap := new Bitmap(n);
      disk, dir, inodes, files := map[], map[], map[], map[];
      new;
      freeMap.Mark(FREE_MAP_SECTOR);
      freeMap.Mark(ROOT_DIR_SECTOR);
      FirstTwo(n);
      DoFormat(n);
    }

    /** do_format() and the opening of the free map's file */
    method DoFormat(n: nat)
      requires Format(n).Ready? && freeMap.Valid() && freeMap.Contents() == InitialMap(n)
      modifies this, freeMap.bits
      ensures freeMap.Valid() && View() == Format(n).fs
    {
      var mapSize, rootSize := MapFileSize(n), ROOT_ENTRIES * DIR_ENTRY_SIZE;
      var a := FreeMapAllocate(SectorCnt(mapSize), true);
      var b := FreeMapAllocate(SectorCnt(rootSize), true);
      var d0, d1 := InodeDisk(a.index, mapSize), InodeDisk(b.index, rootSize);
      disk := map[FREE_MAP_SECTOR := d0, ROOT_DIR_SECTOR := d1];
      dir := map[];
      inodes := map[FREE_MAP_SECTOR := Inode(1, 0, false, d0)];
      files := map[0 := File(FREE_MAP_SECTOR, false)];
    }

    ghost function View(): (fs: Fs)
      requires freeMap.Valid()
      reads this, freeMap.bits
    {
      Fs(freeMap.Contents(), disk, dir, inodes, files)
    }

    ghost predicate Valid()
      reads this, freeMap.bits
    {
      freeMap.Valid() && Inv(View())
    }

    /** free_map_allocate() */
    method FreeMapAllocate(cnt: nat, written: bool) returns (r: Found)
      requires freeMap.Valid()
      modifies freeMap.bits
      ensures freeMap.Valid() && r == MapAllocate(old(View()).freeMap, cnt, written)
      ensures View() == old(View()).(freeMap := MapAfter(old(View()).freeMap, cnt, written))
    {
      ghost var m := freeMap.Contents();
      r := freeMap.ScanAndFlip(0, cnt, false);
      FirstUniformUnique(m, 0, cnt, false, r, ScanFrom(m, 0, cnt));
      if r.At? && !written {
        freeMap.SetMultiple(r.index, cnt, false);
        r := NotFound;
      }
    }

    /** free_map_release(), with its assertion as precondition */
    method FreeMapRelease(first: nat, cnt: nat)
      requires freeMap.Valid() && Uniform(View().freeMap, first, cnt, true)
      modifies freeMap.bits
      ensures freeMap.Valid() && View() == old(View()).(freeMap := MapRelease(old(View()).freeMap, first, cnt))
    {
      freeMap.SetMultiple(first, cnt, false);
    }

    /** inode_open() and inode_reopen() */
    method OpenInode(sector: nat)
      requires freeMap.Valid()
      modifies this`inodes
      ensures freeMap.Valid() && View() == InodeOpen(old(View()), sector)
    {
      if sector in inodes {
        inodes := inodes[sector := inodes[sector].(openCnt := inodes[sector].openCnt + 1)];
      } else {
        var data := if sector in disk then disk[sector] else InodeDisk(0, 0);
        inodes := inodes[sector := Inode(1, 0, false, data)];
      }
    }

    /** inode_close(); a removed inode must hold its sectors still. */
    method CloseInode(sector: nat)
      requires freeMap.Valid() && HoldsSectors(View(), sector)
      modifies this`inodes, freeMap.bits
      ensures freeMap.Valid() && View() == InodeClose(old(View()), sector)
    {
      ReleaseClears(View(), sector);
      var i := inodes[sector];
      inodes := inodes[sector := i.(openCnt := i.openCnt - 1)];
      if inodes[sector].openCnt == 0 {
        inodes := inodes - {sector};
        assert inodes == old(inodes) - {sector};
        if i.removed {
          FreeMapRelease(sector, 1);
          FreeMapRelease(i.data.start, SectorCnt(i.data.length));
        }
      }
    }
  
    /** inode_create() */
    method CreateInode(sector: nat, length: nat, memory: bool, written: bool) returns (ok: bool)
      requires freeMap.Valid()
      modifies this`disk, freeMap.bits
      ensures freeMap.Valid() && ok == InodeCreated(old(View()), length, memory, written)
      ensures View() == InodeCreate(old(View()), sector, length, memory, written)
    {
      if !memory {
        return false;
      }
      var r := FreeMapAllocate(SectorCnt(length), written);
      if r.At? {
        disk := disk[sector := InodeDisk(r.index, length)];
      }
      return r.At?;
    }

    /** filesys_create() */
    method CreateFile(name: Name, size: nat, m: Memory) returns (ok: bool)
      requires Valid()
      modifies this`disk, this`dir, freeMap.bits
      ensures Valid() && View() == Create(old(View()), name, size, m)
      ensures ok == MayCreate(old(View()), name, size, m)
      ensures if ok then exists s: nat, start: nat :: CreatedOn(old(View()), View(), name, size, s, start) else dir == old(dir)
    {
      ghost var fs' := CreateOk(View(), name, size, m);
      ok := MakeFile(name, size, m);
      assert View() == fs';
    }

    method MakeFile(name: Name, size: nat, m: Memory) returns (ok: bool)
      requires freeMap.Valid()
      modifies this`disk, this`dir, freeMap.bits
      ensures freeMap.Valid() && View() == Create(old(View()), name, size, m)
      ensures ok == EndingOf(old(View()), name, size, m).Created?
    {
      ghost var fs := View();
      if !m.root {
        return false;
      }
      var r := FreeMapAllocate(1, m.map1);
      if r.NotFound? {
        return false;
      }
      ghost var fs1 := View();
      var made := CreateInode(r.index, size, m.inode, m.map2);
      if made && ValidName(name) && name !in dir && |dir| < ROOT_ENTRIES {
        dir := dir[name := r.index];
        return true;
      } else {
        SectorStillMarked(fs, fs1, View(), r.index, size, m);
        FreeMapRelease(r.index, 1);
        return false;
      }
    }

    /** filesys_open(), of a file that is there and given memory for it */
    method OpenFile(name: Name, handle: nat, memory: bool) returns (ok: bool)
      requires Valid() && handle !in files
      modifies this`inodes, this`files
      ensures Valid() && View() == Open(old(View()), name, handle, memory) && ok == (memory && name in dir)
      ensures if ok then Opened(old(View()), View(), dir[name], handle) else View() == old(View())
      ensures ok ==> files == old(files)[handle := File(dir[name], false)]
    {
      ghost var fs' := OpenOk(View(), name, handle, memory);
      ok := memory && name in dir;
      if ok {
        AddFile(dir[name], handle);
      }
      assert View() == fs';
    }

    /** file_open() of the inode at a sector */
    method AddFile(sector: nat, handle: nat)
      requires freeMap.Valid()
      modifies this`inodes, this`files
      ensures freeMap.Valid() && View() == FileOpen(InodeOpen(old(View()), sector), sector, handle)
    {
      OpenInode(sector);
      files := files[handle := File(sector, false)];
    }

    /** file_reopen() */
    method ReopenFile(f: nat, handle: nat, memory: bool)
      requires Valid() && f in files && handle !in files
      modifies this`inodes, this`files
      ensures Valid() && View() == Reopen(old(View()), f, handle, memory)
      ensures if memory then Opened(old(View()), View(), old(files)[f].sector, handle) else View() == old(View())
      ensures memory ==> files == old(files)[handle := File(old(files)[f].sector, false)]
    {
      ghost var fs' := ReopenOk(View(), f, handle, memory);
      if memory {
        AddFile(files[f].sector, handle);
      }
      assert View() == fs';
    }

    /** file_deny_write() and file_allow_write(); the assertions they lead to hold. */
    method DenyFile(f: nat, deny: bool)
      requires Valid() && f in files
      modifies this`inodes, this`files
      ensures Valid() && View() == SetDeny(old(View()), f, deny) && FlagSet(old(View()), View(), f, deny)
    {
      ghost var fs' := DenyOk(View(), f, deny);
      DenyAssertionsHold(View(), f);
      SetDenyFlag(f, deny);
      assert View() == fs';
    }

    method SetDenyFlag(f: nat, deny: bool)
      requires freeMap.Valid() && f in files && files[f].sector in inodes
      requires var i := inodes[files[f].sector];
               && i.denyWriteCnt <= i.openCnt
               && if files[f].denyWrite then i.denyWriteCnt > 0 else i.denyWriteCnt + 1 <= i.openCnt
      modifies this`inodes, this`files
      ensures freeMap.Valid() && View() == SetDeny(old(View()), f, deny)
    {
      if files[f].denyWrite != deny {
        var s := files[f].sector;
        var i := inodes[s];
        files := files[f := files[f].(denyWrite := deny)];
        if deny {
          inodes := inodes[s := i.(denyWriteCnt := i.denyWriteCnt + 1)];
          assert inodes[s].denyWriteCnt <= inodes[s].openCnt;
        } else {
          assert 0 < i.denyWriteCnt <= i.openCnt;
          inodes := inodes[s := i.(denyWriteCnt := i.denyWriteCnt - 1)];
        }
      }
    }

    /** file_close() */
    method CloseFile(f: nat)
      requires Valid() && f in files
      modifies this`inodes, this`files, freeMap.bits
      ensures Valid() && View() == FileClose(old(View()), f) && Closed(old(View()), View(), f)
    {
      ghost var fs' := FileClose(View(), f);
      CloseDoes(View(), f);
      FileCloseKeepsInv(View(), f);
      DenyFile(f, false);
      InodeHoldsSectors(View(), files[f].sector);
      DropFile(f);
      assert View() == fs';
    }

    method DropFile(f: nat)
      requires freeMap.Valid() && f in files && HoldsSectors(View(), files[f].sector)
      modifies this`inodes, this`files, freeMap.bits
      ensures freeMap.Valid() && View() == InodeClose(old(View()).(files := old(files) - {f}), old(files)[f].sector)
    {
      var s := files[f].sector;
      files := files - {f};
      CloseInode(s);
    }

    /** filesys_remove() */
    method RemoveFile(name: Name, memory: bool) returns (ok: bool)
      requires Valid()
      modifies this`dir, this`inodes, freeMap.bits
      ensures Valid() && View() == Remove(old(View()), name, memory) && ok == (memory && name in old(dir))
      ensures if ok then Unlinked(old(View()), View(), name) else View() == old(View())
    {
      RemoveDoes(View(), name, memory);
      StepKeepsInv(View(), RemoveCall(name, memory));
      if !memory || name !in dir {
        return false;
      }
      NamedHoldsSectors(View(), name);
      OpenInode(dir[name]);
      Unlink(name);
      return true;
    }

    method Unlink(name: Name)
      requires freeMap.Valid() && name in dir && HoldsSectors(View(), dir[name])
      modifies this`dir, this`inodes, freeMap.bits
      ensures freeMap.Valid()
      ensures var fs, s := old(View()), old(dir)[name];
              View() == InodeClose(InodeRemove(fs.(dir := fs.dir - {name}), s), s)
    {
      var s := dir[name];
      dir := dir - {name};
      inodes := inodes[s := inodes[s].(removed := true)];
      CloseInode(s);
    }
  }

  lemma FirstTwo(n: nat)
    requires n > ROOT_DIR_SECTOR
    ensures seq(n, _ => false)[FREE_MAP_SECTOR := true][ROOT_DIR_SECTOR := true] == InitialMap(n)
  {
  }

  /** What inode_close() relies on */
  ghost predicate HoldsSectors(fs: Fs, s: nat)
  {
    && s in fs.inodes && fs.inodes[s].data == OnDisk(fs, s)
    && AllMarked(fs.freeMap, SectorsOf(fs, s)) && WellPlaced(fs, s)
  }

  lemma InodeHoldsSectors(fs: Fs, s: nat)
    requires Inv(fs) && s in fs.inodes
    ensures HoldsSectors(fs, s)
  {
    assert Owner(fs, s) && InodeOk(fs, s, fs.inodes[s]);
  }

  lemma NamedHoldsSectors(fs: Fs, name: Name)
    requires Inv(fs) && name in fs.dir
    ensures HoldsSectors(InodeOpen(fs, fs.dir[name]), fs.dir[name])
  {
    var s := fs.dir[name];
    assert Named(fs.dir, s) && Owner(fs, s);
    assert s in fs.inodes ==> InodeOk(fs, s, fs.inodes[s]);
  }

  lemma SectorStillMarked(fs: Fs, fs1: Fs, fs2: Fs, s: nat, size: nat, m: Memory)
    requires MapAllocate(fs.freeMap, 1, m.map1) == At(s) && fs1 == fs.(freeMap := MapAfter(fs.freeMap, 1, m.map1))
    requires fs2 == InodeCreate(fs1, s, size, m.inode, m.map2)
    ensures Uniform(fs2.freeMap, s, 1, true)
  {
    MapAllocates(fs.freeMap, 1, m.map1);
    MapAllocates(fs1.freeMap, SectorCnt(size), m.map2);
  }
}
