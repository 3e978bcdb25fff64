/** inode_read_at() and inode_write_at(): transfers in sector-sized chunks, against slicing and
    splicing one flat sequence of bytes. */
module InodeIo {
  import opened Bitmaps
  import opened FsState
  import opened FsOwnership

  type Byte = int

  type Sectors = seq<seq<Byte>>

  /* ----- Flat files ----- */

  ghost predicate DeviceOk(sectors: Sectors)
  {
    forall s | 0 <= s < |sectors| :: |sectors[s]| == BLOCK_SECTOR_SIZE
  }

  ghost predicate Fits(sectors: Sectors, d: InodeDisk)
  {
    DeviceOk(sectors) && d.start + SectorCnt(d.length) <= |sectors|
  }

  /** A file as one sequence of bytes */
  ghost function Flat(sectors: Sectors, d: InodeDisk): (s: seq<Byte>)
    requires Fits(sectors, d)
    ensures |s| == d.length
  {
    seq(d.length, i requires 0 <= i < d.length => sectors[d.start + i / BLOCK_SECTOR_SIZE][i % BLOCK_SECTOR_SIZE])
  }

  /** How many bytes a transfer of `size` bytes at `offset` can move */
  function Transfer(length: nat, size: int, offset: nat): (n: nat)
    ensures n > 0 ==> offset + n <= length && n <= size
    ensures n < size ==> n == 0 || offset + n == length
    ensures n == 0 <==> size <= 0 || length <= offset
  {
    var left := if size < length - offset then size else length - offset;
    if left < 0 then 0 else left
  }

  ghost function Slice(s: seq<Byte>, offset: nat, size: int): (r: seq<Byte>)
    ensures |r| == Transfer(|s|, size, offset)
  {
    if Transfer(|s|, size, offset) == 0 then [] else s[offset..offset + Transfer(|s|, size, offset)]
  }

  ghost function Splice(s: seq<Byte>, offset: nat, b: seq<Byte>): (r: seq<Byte>)
    requires b != [] ==> offset + |b| <= |s|
    ensures |r| == |s|
  {
    if b == [] then s else s[..offset] + b + s[offset + |b|..]
  }

  /** Reading what was written */
  lemma ReadAfterWrite(s: seq<Byte>, offset: nat, b: seq<Byte>)
    requires b != [] ==> offset + |b| <= |s|
    ensures Slice(Splice(s, offset, b), offset, |b|) == b
  {
  }

  lemma SliceNext(s: seq<Byte>, offset: nat, b: seq<Byte>, n: nat)
    requires offset + |b| + n <= |s| && (b == [] || b == s[offset..offset + |b|])
    ensures b + s[offset + |b|..offset + |b| + n] == s[offset..offset + |b| + n]
  {
  }

  lemma SpliceNext(s: seq<Byte>, offset: nat, b: seq<Byte>, c: seq<Byte>)
    requires offset + |b| + |c| <= |s|
    ensures Splice(Splice(s, offset, b), offset + |b|, c) == Splice(s, offset, b + c)
  {
  }

  /* ----- One chunk ----- */

  lemma SameSector(o: nat, i: nat)
    requires o % BLOCK_SECTOR_SIZE + i < BLOCK_SECTOR_SIZE
    ensures (o + i) / BLOCK_SECTOR_SIZE == o / BLOCK_SECTOR_SIZE
    ensures (o + i) % BLOCK_SECTOR_SIZE == o % BLOCK_SECTOR_SIZE + i
  {
  }

  lemma SectorInFile(d: InodeDisk, o: nat)
    requires o < d.length
    ensures o / BLOCK_SECTOR_SIZE < SectorCnt(d.length)
  {
  }

  /** A chunk within one sector is a slice of the file. */
  lemma ChunkRead(sectors: Sectors, d: InodeDisk, o: nat, n: nat)
    requires Fits(sectors, d) && 0 < n && o + n <= d.length && o % BLOCK_SECTOR_SIZE + n <= BLOCK_SECTOR_SIZE
    ensures d.start + o / BLOCK_SECTOR_SIZE < |sectors|
    ensures var ofs := o % BLOCK_SECTOR_SIZE;
            sectors[d.start + o / BLOCK_SECTOR_SIZE][ofs..ofs + n] == Flat(sectors, d)[o..o + n]
  {
    SectorInFile(d, o);
    var ofs := o % BLOCK_SECTOR_SIZE;
    var sector := sectors[d.start + o / BLOCK_SECTOR_SIZE];
    var chunk := sector[ofs..ofs + n];
    forall i | 0 <= i < n
      ensures chunk[i] == Flat(sectors, d)[o..o + n][i]
    {
      SameSector(o, i);
    }
  }

  /** The device after `chunk` is laid into the sector of file offset `o` */
  ghost function WithChunk(sectors: Sectors, d: InodeDisk, o: nat, chunk: seq<Byte>): (r: Sectors)
    requires Fits(sectors, d) && o + |chunk| <= d.length && o % BLOCK_SECTOR_SIZE + |chunk| <= BLOCK_SECTOR_SIZE && chunk != []
    ensures Fits(r, d) && |r| == |sectors|
  {
    SectorInFile(d, o);
    var k, ofs := d.start + o / BLOCK_SECTOR_SIZE, o % BLOCK_SECTOR_SIZE;
    sectors[k := sectors[k][..ofs] + chunk + sectors[k][ofs + |chunk|..]]
  }

  lemma LaidIn(sector: seq<Byte>, ofs: nat, chunk: seq<Byte>, j: nat)
    requires ofs + |chunk| <= |sector| && j < |sector|
    ensures (sector[..ofs] + chunk + sector[ofs + |chunk|..])[j] == if ofs <= j < ofs + |chunk| then chunk[j - ofs] else sector[j]
  {
  }

  /** File offsets o and i against their sectors and offsets in them */
  lemma SameSectorIff(o: nat, i: nat, n: nat)
    requires o % BLOCK_SECTOR_SIZE + n <= BLOCK_SECTOR_SIZE
    ensures o <= i < o + n <==>
            i / BLOCK_SECTOR_SIZE == o / BLOCK_SECTOR_SIZE && o % BLOCK_SECTOR_SIZE <= i % BLOCK_SECTOR_SIZE < o % BLOCK_SECTOR_SIZE + n
    ensures i / BLOCK_SECTOR_SIZE == o / BLOCK_SECTOR_SIZE ==> i - o == i % BLOCK_SECTOR_SIZE - o % BLOCK_SECTOR_SIZE
  {
  }

  lemma ChunkWrittenAt(sectors: Sectors, d: InodeDisk, o: nat, chunk: seq<Byte>, i: nat)
    requires Fits(sectors, d) && o + |chunk| <= d.length && o % BLOCK_SECTOR_SIZE + |chunk| <= BLOCK_SECTOR_SIZE && chunk != []
    requires i < d.length
    ensures Flat(WithChunk(sectors, d, o, chunk), d)[i] == if o <= i < o + |chunk| then chunk[i - o] else Flat(sectors, d)[i]
  {
    SectorInFile(d, o);
    SectorInFile(d, i);
    SameSectorIff(o, i, |chunk|);
    LaidIn(sectors[d.start + o / BLOCK_SECTOR_SIZE], o % BLOCK_SECTOR_SIZE, chunk, i % BLOCK_SECTOR_SIZE);
  }

  /** Laying a chunk in splices the file and leaves every byte outside it alone. */
  lemma ChunkWritten(sectors: Sectors, d: InodeDisk, o: nat, chunk: seq<Byte>)
    requires Fits(sectors, d) && o + |chunk| <= d.length && o % BLOCK_SECTOR_SIZE + |chunk| <= BLOCK_SECTOR_SIZE && chunk != []
    ensures Flat(WithChunk(sectors, d, o, chunk), d) == Splice(Flat(sectors, d), o, chunk)
    ensures OnlyFile(sectors, WithChunk(sectors, d, o, chunk), d)
  {
    var flat, flat' := Flat(sectors, d), Flat(WithChunk(sectors, d, o, chunk), d);
    forall i: nat | i < d.length
      ensures flat'[i] == Splice(flat, o, chunk)[i]
    {
      ChunkWrittenAt(sectors, d, o, chunk, i);
      LaidIn(flat, o, chunk, i);
    }
    SectorInFile(d, o);
    forall s: nat, k: nat | s < |sectors| && k < BLOCK_SECTOR_SIZE && !InFile(d, s, k)
      ensures WithChunk(sectors, d, o, chunk)[s][k] == sectors[s][k]
    {
    }
  }

  /** Byte `k` of sector `s` is part of the file. */
  predicate InFile(d: InodeDisk, s: nat, k: nat)
  {
    d.start <= s && (s - d.start) * BLOCK_SECTOR_SIZE + k < d.length
  }

  ghost predicate OnlyFile(sectors: Sectors, sectors': Sectors, d: InodeDisk)
  {
    && DeviceOk(sectors) && DeviceOk(sectors') && |sectors'| == |sectors|
    && forall s: nat, k: nat | s < |sectors| && k < BLOCK_SECTOR_SIZE && !InFile(d, s, k) :: sectors'[s][k] == sectors[s][k]
  }

  lemma InFileSector(d: InodeDisk, s: nat, k: nat)
    ensures InFile(d, s, k) ==> s in Run(d.start, SectorCnt(d.length))
  {
    if InFile(d, s, k) { SectorInFile(d, (s - d.start) * BLOCK_SECTOR_SIZE + k); }
  }

  lemma OnlyFileChain(a: Sectors, b: Sectors, c: Sectors, d: InodeDisk)
    requires OnlyFile(a, b, d) && OnlyFile(b, c, d)
    ensures OnlyFile(a, c, d)
  {
    forall s: nat, k: nat | s < |a| && k < BLOCK_SECTOR_SIZE && !InFile(d, s, k)
      ensures c[s][k] == a[s][k]
    {
      assert b[s][k] == a[s][k];
    }
  }

  /** Writing a file changes no byte of a file whose data lies elsewhere. */
  lemma OtherFileKept(sectors: Sectors, sectors': Sectors, d: InodeDisk, e: InodeDisk)
    requires OnlyFile(sectors, sectors', d) && Fits(sectors, e)
    requires Run(d.start, SectorCnt(d.length)) !! Run(e.start, SectorCnt(e.length))
    ensures Fits(sectors', e) && Flat(sectors', e) == Flat(sectors, e)
  {
    forall i: nat | i < e.length
      ensures Flat(sectors', e)[i] == Flat(sectors, e)[i]
    {
      var s, k := e.start + i / BLOCK_SECTOR_SIZE, i % BLOCK_SECTOR_SIZE;
      SectorInFile(e, i);
      assert s in Run(e.start, SectorCnt(e.length));
      InFileSector(d, s, k);
    }
  }

  /** In a file system whose ownership is in order, a write to one inode leaves every other file,
      and the sectors of all inodes, as they are. */
  lemma WriteIsolated(fs: Fs, s: nat, t: nat, sectors: Sectors, sectors': Sectors)
    requires OwnershipOk(fs) && Owner(fs, s) && Owner(fs, t) && |sectors| == |fs.freeMap|
    requires Fits(sectors, OnDisk(fs, s)) && OnlyFile(sectors, sectors', OnDisk(fs, s))
    ensures t < |sectors| == |sectors'| && sectors'[t] == sectors[t]
    ensures s != t ==> Fits(sectors, OnDisk(fs, t)) && Fits(sectors', OnDisk(fs, t))
                       && Flat(sectors', OnDisk(fs, t)) == Flat(sectors, OnDisk(fs, t))
  {
    var d := OnDisk(fs, s);
    assert t in SectorsOf(fs, t) && Marked(fs.freeMap, t);
    assert t !in Run(d.start, SectorCnt(d.length)) by { assert WellPlaced(fs, s) && (s != t ==> SectorsOf(fs, s) !! SectorsOf(fs, t)); }
    forall k: nat | k < BLOCK_SECTOR_SIZE
      ensures !InFile(d, t, k)
    {
      InFileSector(d, t, k);
    }
    assert sectors'[t] == sectors[t];
    if s != t {
      assert SectorsOf(fs, s) !! SectorsOf(fs, t) && WellPlaced(fs, t);
      OtherFileKept(sectors, sectors', d, OnDisk(fs, t));
    }
  }

  /* ----- The loops ----- */

  /** The block device */
  class Device {
    var sectors: Sectors

    constructor (sectors: Sectors)
      ensures this.sectors == sectors
    {
      this.sectors := sectors;
    }
  }

  function Min(a: int, b: int): (m: int)
  {
    if a < b then a else b
  }

  /** The bytes one turn moves: what is left to move, in the file, and in the sector */
  function ChunkSize(length: nat, left: int, o: nat): (n: int)
    ensures n <= left && o + n <= length && o % BLOCK_SECTOR_SIZE + n <= BLOCK_SECTOR_SIZE
    ensures n <= 0 ==> left <= 0 || length <= o
  {
    Min(left, Min(length - o, BLOCK_SECTOR_SIZE - o % BLOCK_SECTOR_SIZE))
  }

  /** inode_read_at() into a buffer it returns; `memory` says whether a bounce buffer can be had. */
  method ReadAt(device: Device, d: InodeDisk, size: int, offset: nat, memory: bool) returns (buffer: seq<Byte>)
    requires Fits(device.sectors, d)
    ensures buffer <= Slice(Flat(device.sectors, d), offset, size)
    ensures memory ==> buffer == Slice(Flat(device.sectors, d), offset, size)
  {
    buffer := [];
    var left, o := size, offset;
    ghost var flat := Flat(device.sectors, d);
    while left > 0
      invariant o == offset + |buffer| && left == size - |buffer|
      invariant |buffer| <= Transfer(d.length, size, offset)
      invariant buffer == [] || buffer == flat[offset..o]
    {
      var chunkSize := ChunkSize(d.length, left, o);
      if chunkSize <= 0 {
        break;
      }
      var ok, chunk := ReadChunk(device, d, o, chunkSize, memory);
      if !ok {
        break;
      }
      SliceNext(flat, offset, buffer, chunkSize);
      buffer := buffer + chunk;
      left := left - chunkSize;
      o := o + chunkSize;
    }
  }

  /** One turn of the read loop */
  method ReadChunk(device: Device, d: InodeDisk, o: nat, n: nat, memory: bool) returns (ok: bool, chunk: seq<Byte>)
    requires Fits(device.sectors, d) && 0 < n && o + n <= d.length && o % BLOCK_SECTOR_SIZE + n <= BLOCK_SECTOR_SIZE
    ensures ok ==> chunk == Flat(device.sectors, d)[o..o + n]
    ensures memory ==> ok
  {
    ChunkRead(device.sectors, d, o, n);
    var sector, sectorOfs := device.sectors[d.start + o / BLOCK_SECTOR_SIZE], o % BLOCK_SECTOR_SIZE;
    if sectorOfs == 0 && n == BLOCK_SECTOR_SIZE {
      return true, sector;
    } else if memory {
      var bounce := sector;
      return true, bounce[sectorOfs..sectorOfs + n];
    } else {
      return false, [];
    }
  }

  /** inode_write_at() of the first `size` bytes of `buffer`; `denied` says whether writes are denied. */
  method WriteAt(device: Device, d: InodeDisk, buffer: seq<Byte>, size: int, offset: nat, denied: bool, memory: bool)
    returns (written: nat)
    requires Fits(device.sectors, d) && size <= |buffer|
    modifies device
    ensures written <= Transfer(d.length, size, offset)
    ensures !denied && memory ==> written == Transfer(d.length, size, offset)
    ensures denied ==> device.sectors == old(device.sectors) && written == 0
    ensures Written(old(device.sectors), device.sectors, d, offset, buffer[..written])
  {
    if denied {
      assert buffer[..0] == [];
      return 0;
    }
    written := WriteLoop(device, d, buffer, size, offset, memory);
  }

  method WriteLoop(device: Device, d: InodeDisk, buffer: seq<Byte>, size: int, offset: nat, memory: bool)
    returns (written: nat)
    requires Fits(device.sectors, d) && size <= |buffer|
    modifies device
    ensures written <= Transfer(d.length, size, offset)
    ensures memory ==> written == Transfer(d.length, size, offset)
    ensures Written(old(device.sectors), device.sectors, d, offset, buffer[..written])
  {
    written := 0;
    ghost var before := device.sectors;
    var more := true;
    while more && size - written > 0
      invariant written == 0 || (offset + written <= d.length && written <= size)
      invariant Written(before, device.sectors, d, offset, buffer[..written])
      invariant !more && memory ==> size <= written || d.length <= offset + written
      decreases size - written, more
    {
      written, more := WriteTurn(device, before, d, buffer, size, offset, written, memory);
    }
  }

  method WriteTurn(device: Device, ghost before: Sectors, d: InodeDisk, buffer: seq<Byte>, size: int, offset: nat, written: nat, memory: bool)
    returns (written': nat, more: bool)
    requires Fits(before, d) && written < size <= |buffer| && (written == 0 || offset + written <= d.length)
    requires Written(before, device.sectors, d, offset, buffer[..written])
    modifies device
    ensures written' <= size && (written' == 0 || offset + written' <= d.length)
    ensures if more then written' > written else written' == written
    ensures !more && memory ==> d.length <= offset + written'
    ensures Written(before, device.sectors, d, offset, buffer[..written'])
  {
    var o := offset + written;
    var chunkSize := ChunkSize(d.length, size - written, o);
    if chunkSize <= 0 {
      return written, false;
    }
    ghost var now := device.sectors;
    more := WriteChunk(device, d, o, buffer[written..written + chunkSize], memory);
    if !more {
      return written, false;
    }
    WrittenNext(before, now, device.sectors, d, offset, buffer, written, chunkSize);
    written' := written + chunkSize;
  }

  /** The device differs from what it was in `b` spliced into the file, and in nothing else. */
  ghost predicate Written(sectors: Sectors, sectors': Sectors, d: InodeDisk, offset: nat, b: seq<Byte>)
    requires Fits(sectors, d) && (b != [] ==> offset + |b| <= d.length)
  {
    && Fits(sectors', d) && OnlyFile(sectors, sectors', d)
    && Flat(sectors', d) == Splice(Flat(sectors, d), offset, b)
  }

  lemma WrittenNext(s0: Sectors, s1: Sectors, s2: Sectors, d: InodeDisk, offset: nat, b: seq<Byte>, w: nat, n: nat)
    requires Fits(s0, d) && offset + w + n <= d.length && w + n <= |b| && Written(s0, s1, d, offset, b[..w])
    requires Fits(s1, d) && Written(s1, s2, d, offset + w, b[w..w + n])
    ensures Written(s0, s2, d, offset, b[..w + n])
  {
    OnlyFileChain(s0, s1, s2, d);
    SpliceNext(Flat(s0, d), offset, b[..w], b[w..w + n]);
    assert b[..w] + b[w..w + n] == b[..w + n];
  }

  /** One turn of the write loop: a full sector goes straight to disk, a part of one through a bounce
      buffer. The case in which the bounce buffer would be zeroed instead of read does not arise. */
  method WriteChunk(device: Device, d: InodeDisk, o: nat, chunk: seq<Byte>, memory: bool) returns (ok: bool)
    requires Fits(device.sectors, d) && chunk != [] && o + |chunk| <= d.length
    requires o % BLOCK_SECTOR_SIZE + |chunk| <= BLOCK_SECTOR_SIZE
    modifies device
    ensures ok ==> Written(old(device.sectors), device.sectors, d, o, chunk)
    ensures !ok ==> !memory && device.sectors == old(device.sectors)
  {
    SectorInFile(d, o);
    ChunkWritten(device.sectors, d, o, chunk);
    var sectorIdx, sectorOfs := d.start + o / BLOCK_SECTOR_SIZE, o % BLOCK_SECTOR_SIZE;
    var sectorLeft := BLOCK_SECTOR_SIZE - sectorOfs;
    var sector: seq<Byte>;
    if sectorOfs == 0 && |chunk| == BLOCK_SECTOR_SIZE {
      sector := chunk;
    } else if !memory {
      return false;
    } else {
      var bounce;
      if sectorOfs > 0 || |chunk| < sectorLeft {
        bounce := device.sectors[sectorIdx];
      } else {
        assert false;
        bounce := [];
      }
      sector := bounce[..sectorOfs] + chunk + bounce[sectorOfs + |chunk|..];
    }
    assert sector == device.sectors[sectorIdx][..sectorOfs] + chunk + device.sectors[sectorIdx][sectorOfs + |chunk|..];
    device.sectors := device.sectors[sectorIdx := sector];
    return true;
  }
}
