/** inode.c, free-map.c, file.c and filesys.c: the free map, the inodes on disk and in memory, the
    open files and the names, as each call of the file system changes them. */
module FsState {
  import opened Bitmaps

  const FREE_MAP_SECTOR := 0
  const ROOT_DIR_SECTOR := 1
  const BLOCK_SECTOR_SIZE := 512
  const NAME_MAX := 14
  const ROOT_ENTRIES := 16

  /** A C string, by its bytes */
  type Name = seq<int>

  /** struct inode_disk */
  datatype InodeDisk = InodeDisk(start: nat, length: nat)

  /** struct inode: an inode in memory */
  datatype Inode = Inode(openCnt: int, denyWriteCnt: int, removed: bool, data: InodeDisk)

  /** struct file: an open file */
  datatype File = File(sector: nat, denyWrite: bool)

  /** The free map, the inodes on disk, the root directory, the open inodes by sector, and the open
      files by handle. The free map's own file is among them. */
  datatype Fs = Fs(freeMap: seq<bool>,
                   disk: map<nat, InodeDisk>,
                   dir: map<Name, nat>,
                   inodes: map<nat, Inode>,
                   files: map<nat, File>)

  /* ----- Free map and inodes ----- */

  /** bytes_to_sectors() */
  function SectorCnt(length: nat): (n: nat)
  {
    (length + BLOCK_SECTOR_SIZE - 1) / BLOCK_SECTOR_SIZE
  }

  function OnDisk(fs: Fs, sector: nat): (d: InodeDisk)
  {
    if sector in fs.disk then fs.disk[sector] else InodeDisk(0, 0)
  }

  /** The sectors of an inode: its own and its data's */
  function Sectors(sector: nat, d: InodeDisk): (s: set<nat>)
  {
    {sector} + Run(d.start, SectorCnt(d.length))
  }

  /** free_map_allocate(), given whether the map's file can be written */
  function MapAllocate(freeMap: seq<bool>, cnt: nat, written: bool): (r: Found)
  {
    if written then ScanFrom(freeMap, 0, cnt) else NotFound
  }

  function MapAfter(freeMap: seq<bool>, cnt: nat, written: bool): (m: seq<bool>)
    ensures |m| == |freeMap|
  {
    match ScanFrom(freeMap, 0, cnt)
    case NotFound => freeMap
    case At(i) =>
      var taken := Fill(freeMap, i, cnt, true);
      if written then taken else Fill(taken, i, cnt, false)
  }

  /** free_map_release(), whose assertion is Uniform(m, first, cnt, true) */
  function MapRelease(m: seq<bool>, first: nat, cnt: nat): (m': seq<bool>)
    ensures |m'| == |m|
  {
    if Uniform(m, first, cnt, true) then Fill(m, first, cnt, false) else m
  }

  /** inode_open() and inode_reopen() */
  function InodeOpen(fs: Fs, sector: nat): (fs': Fs)
  {
    var i := if sector in fs.inodes then fs.inodes[sector] else Inode(0, 0, false, OnDisk(fs, sector));
    fs.(inodes := fs.inodes[sector := i.(openCnt := i.openCnt + 1)])
  }

  /** inode_close() */
  function InodeClose(fs: Fs, sector: nat): (fs': Fs)
    requires sector in fs.inodes
  {
    var i := fs.inodes[sector];
    if i.openCnt != 1 then fs.(inodes := fs.inodes[sector := i.(openCnt := i.openCnt - 1)])
    else
      var fs' := fs.(inodes := fs.inodes - {sector});
      if i.removed then
        fs'.(freeMap := MapRelease(MapRelease(fs.freeMap, sector, 1), i.data.start, SectorCnt(i.data.length)))
      else fs'
  }

  /** inode_remove() */
  function InodeRemove(fs: Fs, sector: nat): (fs': Fs)
    requires sector in fs.inodes
  {
    fs.(inodes := fs.inodes[sector := fs.inodes[sector].(removed := true)])
  }

  /** inode_create(), given whether its memory and the map's file are available */
  function InodeCreate(fs: Fs, sector: nat, length: nat, memory: bool, written: bool): (fs': Fs)
  {
    if !memory then fs
    else
      var fs1 := fs.(freeMap := MapAfter(fs.freeMap, SectorCnt(length), written));
      match MapAllocate(fs.freeMap, SectorCnt(length), written)
      case NotFound => fs1
      case At(start) => fs1.(disk := fs.disk[sector := InodeDisk(start, length)])
  }

  predicate InodeCreated(fs: Fs, length: nat, memory: bool, written: bool)
  {
    memory && MapAllocate(fs.freeMap, SectorCnt(length), written).At?
  }

  /* ----- Files ----- */

  function FileOpen(fs: Fs, sector: nat, handle: nat): (fs': Fs)
  {
    fs.(files := fs.files[handle := File(sector, false)])
  }

  /** inode_deny_write() and inode_allow_write() through a file's flag */
  function SetDeny(fs: Fs, handle: nat, deny: bool): (fs': Fs)
    requires handle in fs.files && fs.files[handle].sector in fs.inodes
  {
    var f := fs.files[handle];
    if f.denyWrite == deny then fs
    else
      var i := fs.inodes[f.sector];
      var n := if deny then i.denyWriteCnt + 1 else i.denyWriteCnt - 1;
      fs.(files := fs.files[handle := f.(denyWrite := deny)], inodes := fs.inodes[f.sector := i.(denyWriteCnt := n)])
  }

  /** file_close() */
  function FileClose(fs: Fs, handle: nat): (fs': Fs)
    requires handle in fs.files && fs.files[handle].sector in fs.inodes
  {
    var fs1 := SetDeny(fs, handle, false);
    InodeClose(fs1.(files := fs1.files - {handle}), fs.files[handle].sector)
  }

  /* ----- filesys.c ----- */

  predicate ValidName(name: Name)
  {
    1 <= |name| <= NAME_MAX
  }

  /** dir_add() finds a valid name that is not there and a free slot. */
  predicate MayAdd(fs: Fs, name: Name)
  {
    ValidName(name) && name !in fs.dir && |fs.dir| < ROOT_ENTRIES
  }

  /** Which of filesys_create()'s allocations succeed */
  datatype Memory = Memory(root: bool, map1: bool, inode: bool, map2: bool)

  /** The body of filesys_create() after the inode's sector is allocated */
  function CreateAt(fs: Fs, name: Name, size: nat, sector: nat, m: Memory): (fs': Fs)
  {
    var fs1 := InodeCreate(fs, sector, size, m.inode, m.map2);
    if InodeCreated(fs, size, m.inode, m.map2) && MayAdd(fs, name) then fs1.(dir := fs1.dir[name := sector])
    else fs1.(freeMap := MapRelease(fs1.freeMap, sector, 1))
  }

  /** filesys_create(). Here and below the root directory is opened and closed again around the
      call; by OpenCloseCancels that leaves no trace. */
  function Create(fs: Fs, name: Name, size: nat, m: Memory): (fs': Fs)
  {
    if !m.root then fs
    else
      var fs1 := fs.(freeMap := MapAfter(fs.freeMap, 1, m.map1));
      match MapAllocate(fs.freeMap, 1, m.map1)
      case NotFound => fs1
      case At(sector) => CreateAt(fs1, name, size, sector, m)
  }

  /** filesys_open() into a handle not in use */
  function Open(fs: Fs, name: Name, handle: nat, memory: bool): (fs': Fs)
  {
    if memory && name in fs.dir then FileOpen(InodeOpen(fs, fs.dir[name]), fs.dir[name], handle) else fs
  }

  /** file_reopen() */
  function Reopen(fs: Fs, handle: nat, handle': nat, memory: bool): (fs': Fs)
    requires handle in fs.files
  {
    if memory then FileOpen(InodeOpen(fs, fs.files[handle].sector), fs.files[handle].sector, handle') else fs
  }

  /** filesys_remove(): erase the name, mark the inode, drop the reference taken meanwhile */
  function Remove(fs: Fs, name: Name, memory: bool): (fs': Fs)
  {
    if memory && name in fs.dir then
      var sector := fs.dir[name];
      var fs1 := InodeOpen(fs, sector);
      InodeClose(InodeRemove(fs1.(dir := fs.dir - {name}), sector), sector)
    else fs
  }

  lemma OpenCloseCancels(fs: Fs, sector: nat)
    requires sector in fs.inodes ==> fs.inodes[sector].openCnt > 0
    ensures InodeClose(InodeOpen(fs, sector), sector) == fs
  {
    assert sector !in fs.inodes ==> fs.inodes[sector := Inode(1, 0, false, OnDisk(fs, sector))] - {sector} == fs.inodes;
  }

  /* ----- do_format() ----- */

  /** bitmap_file_size() of a map of `n` sectors, and the size of a directory entry */
  function MapFileSize(n: nat): (bytes: nat)
  {
    4 * ElemCnt(n)
  }

  const DIR_ENTRY_SIZE := 20

  function InitialMap(n: nat): (m: seq<bool>)
    ensures |m| == n
  {
    seq(n, i => i <= ROOT_DIR_SECTOR)
  }

  datatype Formatted = Panic | Ready(fs: Fs)

  /** filesys_init() on a device of `n` sectors that is to be formatted */
  function Format(n: nat): (r: Formatted)
  {
    if n <= ROOT_DIR_SECTOR then Panic
    else
      match ScanFrom(InitialMap(n), 0, SectorCnt(MapFileSize(n)))
      case NotFound => Panic
      case At(a) =>
        var m1 := Fill(InitialMap(n), a, SectorCnt(MapFileSize(n)), true);
        match ScanFrom(m1, 0, SectorCnt(ROOT_ENTRIES * DIR_ENTRY_SIZE))
        case NotFound => Panic
        case At(b) =>
          var d0, d1 := InodeDisk(a, MapFileSize(n)), InodeDisk(b, ROOT_ENTRIES * DIR_ENTRY_SIZE);
          Ready(Fs(Fill(m1, b, SectorCnt(d1.length), true),
                   map[FREE_MAP_SECTOR := d0, ROOT_DIR_SECTOR := d1],
                   map[],
                   map[FREE_MAP_SECTOR := Inode(1, 0, false, d0)],
                   map[0 := File(FREE_MAP_SECTOR, false)]))
  }

  /* ----- Calls ----- */

  datatype Call = CreateCall(name: Name, size: nat, m: Memory)
                | OpenCall(name: Name, handle: nat, memory: bool)
                | ReopenCall(file: nat, handle: nat, memory: bool)
                | DenyCall(file: nat)
                | AllowCall(file: nat)
                | RemoveCall(name: Name, memory: bool)
                | CloseCall(file: nat)

  /** Callers use files they opened, and the free map's own file stays open. */
  predicate Proper(fs: Fs, c: Call)
  {
    match c
    case CreateCall(_, _, _) => true
    case OpenCall(_, h, _) => h !in fs.files
    case ReopenCall(f, h, _) => f in fs.files && h !in fs.files
    case DenyCall(f) => f in fs.files
    case AllowCall(f) => f in fs.files
    case RemoveCall(_, _) => true
    case CloseCall(f) => f in fs.files && fs.files[f].sector != FREE_MAP_SECTOR
  }

  function Step(fs: Fs, c: Call): (fs': Fs)
    requires Proper(fs, c)
  {
    match c
    case CreateCall(name, size, m) => Create(fs, name, size, m)
    case OpenCall(name, h, memory) => Open(fs, name, h, memory)
    case ReopenCall(f, h, memory) => Reopen(fs, f, h, memory)
    case DenyCall(f) => if fs.files[f].sector in fs.inodes then SetDeny(fs, f, true) else fs
    case AllowCall(f) => if fs.files[f].sector in fs.inodes then SetDeny(fs, f, false) else fs
    case RemoveCall(name, memory) => Remove(fs, name, memory)
    case CloseCall(f) => if fs.files[f].sector in fs.inodes then FileClose(fs, f) else fs
  }
}
