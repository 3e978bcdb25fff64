/** The names of the file system and the bytes of the root directory: filesys_create() and
    filesys_remove() change both alike, and writes to other files change neither. */
module FsDirectory {
  import opened Bitmaps
  import opened CStrings
  import opened FsState
  import opened FsOwnership
  import opened InodeIo
  import Directory

  ghost function Root(fs: Fs): (d: InodeDisk)
  {
    OnDisk(fs, ROOT_DIR_SECTOR)
  }

  /** The names are those in the root directory's file on the device. */
  ghost predicate NamesOnDevice(fs: Fs, sectors: Sectors)
  {
    && |sectors| == |fs.freeMap| && Fits(sectors, Root(fs)) && Root(fs).length == ROOT_ENTRIES * DIR_ENTRY_SIZE
    && NamesIn(fs.dir, Directory.Entries(Flat(sectors, Root(fs))))
  }

  ghost predicate NamesIn(dir: map<Name, nat>, es: seq<Directory.Entry>)
  {
    |es| == ROOT_ENTRIES && Directory.DirOk(es) && Directory.MapOf(es) == dir
  }

  /** do_format() leaves a root directory of zeros and no names. */
  lemma NoNames(flat: seq<Byte>)
    requires |flat| == ROOT_ENTRIES * DIR_ENTRY_SIZE && forall i | 0 <= i < |flat| :: flat[i] == 0
    ensures NamesIn(map[], Directory.Entries(flat))
  {
    var es := Directory.Entries(flat);
    forall k: nat | k < |es|
      ensures !es[k].inUse
    {
      Directory.EntriesAt(flat, k);
    }
    assert Directory.Names(es) == {};
  }

  /** dir_add() as filesys_create() calls it, with the memory it needs: it succeeds exactly if
      MayAdd says so, and adds the name to both. */
  method AddName(device: Device, ghost fs: Fs, root: InodeDisk, name: Name, sector: nat) returns (ok: bool)
    requires NamesOnDevice(fs, device.sectors) && root == Root(fs)
    requires NonZero(name) && sector < 0x1_0000_0000
    modifies device
    ensures ok == MayAdd(fs, name)
    ensures NamesOnDevice(fs.(dir := if ok then fs.dir[name := sector] else fs.dir), device.sectors)
    ensures OnlyFile(old(device.sectors), device.sectors, root)
  {
    Directory.AddRefinesMap(Directory.DirEntries(device, root), name, sector);
    Directory.EnoughReadsAdd(Directory.DirEntries(device, root), name, sector, ROOT_ENTRIES, ROOT_ENTRIES);
    ok := Directory.Add(device, root, name, sector, ROOT_ENTRIES, ROOT_ENTRIES, true);
  }

  /** dir_remove() as filesys_remove() calls it; short of memory it leaves the name in both. */
  method RemoveName(device: Device, ghost fs: Fs, root: InodeDisk, name: Name, looked: nat, written: bool) returns (ok: bool)
    requires NamesOnDevice(fs, device.sectors) && root == Root(fs)
    modifies device
    ensures ok ==> name in fs.dir
    ensures looked >= ROOT_ENTRIES && written ==> ok == (name in fs.dir)
    ensures NamesOnDevice(fs.(dir := if ok then fs.dir - {name} else fs.dir), device.sectors)
    ensures OnlyFile(old(device.sectors), device.sectors, root)
  {
    Directory.RemoveRefinesMap(Directory.DirEntries(device, root), name);
    Directory.FindsWhatMapHas(Directory.DirEntries(device, root), name);
    Directory.FindNameVisible(Directory.DirEntries(device, root), name, looked, 0);
    ok := Directory.Remove(device, root, name, looked, written);
  }

  /** Writing another inode's data leaves the names on the device alone. */
  lemma OtherWritesKeepNames(fs: Fs, s: nat, sectors: Sectors, sectors': Sectors)
    requires OwnershipOk(fs) && NamesOnDevice(fs, sectors) && Owner(fs, s) && s != ROOT_DIR_SECTOR
    requires Fits(sectors, OnDisk(fs, s)) && OnlyFile(sectors, sectors', OnDisk(fs, s))
    ensures NamesOnDevice(fs, sectors')
  {
    WriteIsolated(fs, s, ROOT_DIR_SECTOR, sectors, sectors');
  }

  /** ... and so does writing any sector that is not the root directory's, such as an inode's. */
  lemma InodeWritesKeepNames(fs: Fs, i: nat, sectors: Sectors, sector: seq<Byte>)
    requires NamesOnDevice(fs, sectors) && i < |sectors| && |sector| == BLOCK_SECTOR_SIZE
    requires i !in Run(Root(fs).start, SectorCnt(Root(fs).length))
    ensures NamesOnDevice(fs, sectors[i := sector])
  {
    var d, sectors' := Root(fs), sectors[i := sector];
    forall k: nat | k < d.length
      ensures Flat(sectors', d)[k] == Flat(sectors, d)[k]
    {
      SectorInFile(d, k);
      assert d.start + k / BLOCK_SECTOR_SIZE in Run(d.start, SectorCnt(d.length));
    }
    assert Flat(sectors', d) == Flat(sectors, d);
  }
}
