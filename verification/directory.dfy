/** directory.c: a directory file of 20-byte entries, against a bounded map from names to sectors. */
module Directory {
  import opened Bitmaps
  import opened CStrings
  import opened FsState
  import opened InodeIo

  /** struct dir_entry as stored: 4 bytes of sector number, 15 of name, 1 of flag */
  const NAME_AT := 4
  const FLAG_AT := 19

  /** An entry's meaning */
  datatype Entry = Entry(sector: int, name: seq<Byte>, inUse: bool)

  /* ----- One entry ----- */

  function Number(b: seq<Byte>): (n: int)
    requires |b| == 4
  {
    b[0] + 0x100 * b[1] + 0x1_0000 * b[2] + 0x100_0000 * b[3]
  }

  function Bytes(n: int): (b: seq<Byte>)
    requires 0 <= n < 0x1_0000_0000
    ensures |b| == 4 && Number(b) == n
  {
    var q1, q2 := n / 0x100, n / 0x100 / 0x100;
    [n % 0x100, q1 % 0x100, q2 % 0x100, q2 / 0x100]
  }

  function Decode(b: seq<Byte>): (e: Entry)
    requires |b| == DIR_ENTRY_SIZE
  {
    Entry(Number(b[..NAME_AT]), CString(b[NAME_AT..FLAG_AT]), b[FLAG_AT] != 0)
  }

  /** dir_add() fills in the entry it read last: strlcpy() leaves what follows the name. */
  function Filled(b: seq<Byte>, name: seq<Byte>, sector: int): (r: seq<Byte>)
    requires |b| == DIR_ENTRY_SIZE && |name| <= NAME_MAX && 0 <= sector < 0x1_0000_0000
    ensures |r| == DIR_ENTRY_SIZE
  {
    Bytes(sector) + name + [0] + b[NAME_AT + |name| + 1..FLAG_AT] + [1]
  }

  /** dir_remove() clears the flag of the entry it found. */
  function Cleared(b: seq<Byte>): (r: seq<Byte>)
    requires |b| == DIR_ENTRY_SIZE
    ensures |r| == DIR_ENTRY_SIZE
  {
    b[..FLAG_AT] + [0]
  }

  /** What is filled in is what is read back, whatever the entry held before. */
  lemma DecodeFilled(b: seq<Byte>, name: seq<Byte>, sector: int)
    requires |b| == DIR_ENTRY_SIZE && |name| <= NAME_MAX && 0 <= sector < 0x1_0000_0000 && NonZero(name)
    ensures Decode(Filled(b, name, sector)) == Entry(sector, name, true)
  {
    var r := Filled(b, name, sector);
    var rest := b[NAME_AT + |name| + 1..FLAG_AT];
    assert r[..NAME_AT] == Bytes(sector);
    assert r[NAME_AT..FLAG_AT] == name + [0] + rest;
    CStringOf(name, rest);
  }

  /** An entry on disk: the sector in four bytes, the lowest first, the name, a null, and the flag in
      the last of its twenty bytes. */
  lemma EntryLayout(b: seq<Byte>, name: seq<Byte>, sector: int)
    requires |b| == DIR_ENTRY_SIZE && |name| <= NAME_MAX && 0 <= sector < 0x1_0000_0000
    ensures var r := Filled(b, name, sector);
            && |r| == 20 && (forall i | 0 <= i < 4 :: 0 <= r[i] < 256)
            && r[0] + 0x100 * r[1] + 0x1_0000 * r[2] + 0x100_0000 * r[3] == sector
            && r[4..4 + |name|] == name && r[4 + |name|] == 0 && r[19] == 1
            && forall i | 4 + |name| < i < 19 :: r[i] == b[i]
  {
    assert Number(Bytes(sector)) == sector;
  }

  lemma DecodeCleared(b: seq<Byte>)
    requires |b| == DIR_ENTRY_SIZE
    ensures Decode(Cleared(b)) == Decode(b).(inUse := false)
  {
    var r := Cleared(b);
    assert r[..NAME_AT] == b[..NAME_AT] && r[NAME_AT..FLAG_AT] == b[NAME_AT..FLAG_AT];
  }

  /* ----- A directory file ----- */

  ghost function Slots(flat: seq<Byte>): (n: nat)
  {
    |flat| / DIR_ENTRY_SIZE
  }

  ghost function EntryBytes(flat: seq<Byte>, k: nat): (b: seq<Byte>)
    requires k < Slots(flat)
    ensures |b| == DIR_ENTRY_SIZE
  {
    flat[k * DIR_ENTRY_SIZE..(k + 1) * DIR_ENTRY_SIZE]
  }

  /** The entries of a directory file */
  ghost function Entries(flat: seq<Byte>): (es: seq<Entry>)
    ensures |es| == Slots(flat)
  {
    if |flat| < DIR_ENTRY_SIZE then [] else [Decode(flat[..DIR_ENTRY_SIZE])] + Entries(flat[DIR_ENTRY_SIZE..])
  }

  lemma SliceShift(s: seq<Byte>, d: nat, lo: nat, hi: nat)
    requires d <= lo <= hi <= |s|
    ensures s[d..][lo - d..hi - d] == s[lo..hi]
  {
  }

  lemma {:induction false} EntriesAt(flat: seq<Byte>, k: nat)
    requires k < Slots(flat)
    ensures Entries(flat)[k] == Decode(EntryBytes(flat, k))
  {
    if k == 0 {
      assert EntryBytes(flat, 0) == flat[..DIR_ENTRY_SIZE];
    } else {
      EntriesAt(flat[DIR_ENTRY_SIZE..], k - 1);
      SliceShift(flat, DIR_ENTRY_SIZE, k * DIR_ENTRY_SIZE, (k + 1) * DIR_ENTRY_SIZE);
    }
  }

  /** Writing one entry's bytes changes that entry. */
  lemma EntryWritten(flat: seq<Byte>, k: nat, b: seq<Byte>)
    requires k < Slots(flat) && |b| == DIR_ENTRY_SIZE
    ensures Entries(Splice(flat, k * DIR_ENTRY_SIZE, b)) == Entries(flat)[k := Decode(b)]
  {
    var flat' := Splice(flat, k * DIR_ENTRY_SIZE, b);
    var es, es' := Entries(flat), Entries(flat');
    forall j: nat | j < Slots(flat)
      ensures es'[j] == es[k := Decode(b)][j]
    {
      EntriesAt(flat, j);
      EntriesAt(flat', j);
      BytesWritten(flat, k, b, j);
    }
  }

  lemma BytesWritten(flat: seq<Byte>, k: nat, b: seq<Byte>, j: nat)
    requires k < Slots(flat) && |b| == DIR_ENTRY_SIZE && j < Slots(flat)
    ensures EntryBytes(Splice(flat, k * DIR_ENTRY_SIZE, b), j) == if j == k then b else EntryBytes(flat, j)
  {
  }

  /* ----- Searching, adding, removing ----- */

  /** The first entry at or after `i` in use under `name` */
  function FindName(es: seq<Entry>, name: Name, i: nat): (r: Found)
    ensures match r
            case At(k) =>
              && i <= k < |es| && es[k].inUse && es[k].name == name
              && forall j | i <= j < k :: !(es[j].inUse && es[j].name == name)
            case NotFound => forall j | i <= j < |es| :: !(es[j].inUse && es[j].name == name)
    decreases |es| - i
  {
    if i >= |es| then NotFound
    else if es[i].inUse && es[i].name == name then At(i)
    else FindName(es, name, i + 1)
  }

  /** The first entry at or after `i` not in use */
  function FindFree(es: seq<Entry>, i: nat): (r: Found)
    ensures match r
            case At(k) => i <= k < |es| && !es[k].inUse && forall j | i <= j < k :: es[j].inUse
            case NotFound => forall j | i <= j < |es| :: es[j].inUse
    decreases |es| - i
  {
    if i >= |es| then NotFound else if !es[i].inUse then At(i) else FindFree(es, i + 1)
  }

  predicate MayAddEntry(es: seq<Entry>, name: Name)
  {
    ValidName(name) && FindName(es, name, 0).NotFound? && FindFree(es, 0).At?
  }

  /** The entries after dir_add() */
  function AddEntry(es: seq<Entry>, name: Name, sector: int): (es': seq<Entry>)
    ensures |es'| == |es|
  {
    if MayAddEntry(es, name) then es[FindFree(es, 0).index := Entry(sector, name, true)] else es
  }

  /** The entries after dir_remove() */
  function RemoveEntry(es: seq<Entry>, name: Name): (es': seq<Entry>)
    ensures |es'| == |es|
  {
    match FindName(es, name, 0)
    case NotFound => es
    case At(k) => es[k := es[k].(inUse := false)]
  }

  /* ----- The map a directory stands for ----- */

  /** No two entries in use have the same name, and the names are valid. */
  ghost predicate DirOk(es: seq<Entry>)
  {
    && (forall i, j | 0 <= i < j < |es| && es[i].inUse && es[j].inUse :: es[i].name != es[j].name)
    && (forall i | 0 <= i < |es| && es[i].inUse :: ValidName(es[i].name))
  }

  ghost function Names(es: seq<Entry>): (s: set<Name>)
    ensures forall n :: n in s <==> exists k :: 0 <= k < |es| && es[k].inUse && es[k].name == n
  {
    set k | 0 <= k < |es| && es[k].inUse :: es[k].name
  }

  ghost function MapOf(es: seq<Entry>): (m: map<Name, int>)
    ensures m.Keys == Names(es)
  {
    map n | n in Names(es) :: (match FindName(es, n, 0) case At(k) => es[k].sector case NotFound => 0)
  }

  function InUseCnt(es: seq<Entry>): (n: nat)
    ensures n <= |es|
  {
    if es == [] then 0 else (if es[|es| - 1].inUse then 1 else 0) + InUseCnt(es[..|es| - 1])
  }

  /** lookup() agrees with the map. */
  lemma FindsWhatMapHas(es: seq<Entry>, name: Name)
    ensures FindName(es, name, 0).At? <==> name in MapOf(es)
    ensures match FindName(es, name, 0) case At(k) => es[k].sector == MapOf(es)[name] case NotFound => true
  {
  }

  lemma OnlyEntry(es: seq<Entry>, k: nat)
    requires DirOk(es) && k < |es| && es[k].inUse
    ensures FindName(es, es[k].name, 0) == At(k)
  {
  }

  lemma NamesLast(es: seq<Entry>, rest: seq<Entry>, last: Entry)
    requires es == rest + [last]
    ensures Names(es) == Names(rest) + (if last.inUse then {last.name} else {})
  {
    forall n | n in Names(es)
      ensures n in Names(rest) + (if last.inUse then {last.name} else {})
    {
      var k :| 0 <= k < |es| && es[k].inUse && es[k].name == n;
      assert k < |rest| ==> rest[k] == es[k];
    }
    forall n | n in Names(rest)
      ensures n in Names(es)
    {
      var k :| 0 <= k < |rest| && rest[k].inUse && rest[k].name == n;
      assert es[k] == rest[k];
    }
    assert es[|rest|] == last;
  }

  lemma {:induction false} NamesCount(es: seq<Entry>)
    requires DirOk(es)
    ensures |Names(es)| == InUseCnt(es)
  {
    if es != [] {
      var rest, last := es[..|es| - 1], es[|es| - 1];
      FrontOk(es, rest, last);
      NamesCount(rest);
      NamesLast(es, rest, last);
    }
  }

  lemma FrontOk(es: seq<Entry>, rest: seq<Entry>, last: Entry)
    requires DirOk(es) && es == rest + [last]
    ensures DirOk(rest) && (last.inUse ==> last.name !in Names(rest))
  {
    forall k | 0 <= k < |rest| ensures rest[k] == es[k] {}
    assert es[|rest|] == last;
  }

  lemma {:induction false} FreeIffRoom(es: seq<Entry>)
    ensures InUseCnt(es) < |es| <==> exists k :: 0 <= k < |es| && !es[k].inUse
  {
    if es != [] {
      var rest := es[..|es| - 1];
      FreeIffRoom(rest);
      assert es[|es| - 1].inUse ==> ((exists k :: 0 <= k < |es| && !es[k].inUse) <==> exists k :: 0 <= k < |rest| && !rest[k].inUse);
    }
  }

  /** dir_add() succeeds exactly when the name is valid and new and the map has room, and then maps it. */
  lemma AddRefinesMap(es: seq<Entry>, name: Name, sector: int)
    requires DirOk(es)
    ensures MayAddEntry(es, name) <==> ValidName(name) && name !in MapOf(es) && |MapOf(es)| < |es|
    ensures DirOk(AddEntry(es, name, sector))
    ensures MapOf(AddEntry(es, name, sector)) == if MayAddEntry(es, name) then MapOf(es)[name := sector] else MapOf(es)
  {
    NamesCount(es);
    FreeIffRoom(es);
    assert |MapOf(es)| == |Names(es)|;
    FindsWhatMapHas(es, name);
    if MayAddEntry(es, name) { AddMaps(es, name, sector, FindFree(es, 0).index); }
  }

  lemma AddMaps(es: seq<Entry>, name: Name, sector: int, k: nat)
    requires DirOk(es) && ValidName(name) && name !in Names(es) && k < |es| && !es[k].inUse
    ensures var es' := es[k := Entry(sector, name, true)]; DirOk(es') && MapOf(es') == MapOf(es)[name := sector]
  {
    var es' := es[k := Entry(sector, name, true)];
    forall i | 0 <= i < |es| && es[i].inUse ensures es[i].name != name { assert es[i].name in Names(es); }
    assert DirOk(es');
    MapUpdated(es, es', k);
    OnlyEntry(es', k);
  }

  /** Entries that differ in one place give maps that differ in its names. */
  lemma MapUpdated(es: seq<Entry>, es': seq<Entry>, k: nat)
    requires DirOk(es) && DirOk(es') && |es'| == |es| && k < |es| && forall j | 0 <= j < |es| && j != k :: es'[j] == es[j]
    ensures forall n | n in Names(es') && !(es'[k].inUse && es'[k].name == n) :: n in Names(es) && MapOf(es')[n] == MapOf(es)[n]
    ensures forall n | n in Names(es) && !(es[k].inUse && es[k].name == n) :: n in Names(es')
  {
    forall n | n in Names(es') && !(es'[k].inUse && es'[k].name == n)
      ensures n in Names(es) && MapOf(es')[n] == MapOf(es)[n]
    {
      var j :| 0 <= j < |es'| && es'[j].inUse && es'[j].name == n;
      OnlyEntry(es', j);
      OnlyEntry(es, j);
    }
    forall n | n in Names(es) && !(es[k].inUse && es[k].name == n)
      ensures n in Names(es')
    {
      var j :| 0 <= j < |es| && es[j].inUse && es[j].name == n;
      assert es'[j] == es[j];
    }
  }

  /** dir_remove() takes exactly the name out of the map. */
  lemma RemoveRefinesMap(es: seq<Entry>, name: Name)
    requires DirOk(es)
    ensures DirOk(RemoveEntry(es, name)) && MapOf(RemoveEntry(es, name)) == MapOf(es) - {name}
  {
    FindsWhatMapHas(es, name);
    var es' := RemoveEntry(es, name);
    match FindName(es, name, 0) {
      case NotFound => assert MapOf(es) - {name} == MapOf(es);
      case At(k) => RemoveUnmaps(es, es', k);
    }
  }

  lemma RemoveUnmaps(es: seq<Entry>, es': seq<Entry>, k: nat)
    requires DirOk(es) && k < |es| && es[k].inUse && es' == es[k := es[k].(inUse := false)]
    ensures DirOk(es') && MapOf(es') == MapOf(es) - {es[k].name}
  {
    forall i | 0 <= i < |es'| && es'[i].inUse
      ensures es'[i] == es[i] && i != k && es'[i].name != es[k].name
    {
    }
    assert DirOk(es');
    MapUpdated(es, es', k);
    RemovedNames(es, es', k);
  }

  lemma RemovedNames(es: seq<Entry>, es': seq<Entry>, k: nat)
    requires k < |es| == |es'|
    requires forall i | 0 <= i < |es'| && es'[i].inUse :: es'[i] == es[i] && es'[i].name != es[k].name
    requires forall n | n in Names(es) && n != es[k].name :: n in Names(es')
    ensures Names(es') == Names(es) - {es[k].name}
  {
  }

  /* ----- When memory for reading runs out ----- */

  /** The entries a loop sees if its reads succeed only for the first `seen` of them */
  function Visible(es: seq<Entry>, seen: nat): (r: seq<Entry>)
  {
    if seen < |es| then es[..seen] else es
  }

  /** Where the loop of dir_add() stops: at a free entry, or behind the last it sees */
  function SlotOf(es: seq<Entry>, seen: nat): (k: nat)
    ensures k <= |es|
  {
    match FindFree(Visible(es, seen), 0)
    case At(i) => i
    case NotFound => |Visible(es, seen)|
  }

  /** dir_add() whose lookup() sees `looked` entries and whose loop sees `seen`; `written` says that
      the write finds the memory it needs. */
  function AddShort(es: seq<Entry>, name: Name, sector: int, looked: nat, seen: nat, written: bool): (es': seq<Entry>)
    ensures |es'| == |es|
  {
    if AddsShort(es, name, looked, seen, written) then es[SlotOf(es, seen) := Entry(sector, name, true)] else es
  }

  /** ... and whether it succeeds */
  predicate AddsShort(es: seq<Entry>, name: Name, looked: nat, seen: nat, written: bool)
    ensures AddsShort(es, name, looked, seen, written) ==> SlotOf(es, seen) < |es|
  {
    ValidName(name) && FindName(Visible(es, looked), name, 0).NotFound? && SlotOf(es, seen) < |es| && written
  }

  lemma {:induction false} FindFreeVisible(es: seq<Entry>, seen: nat, i: nat)
    requires i <= |Visible(es, seen)|
    ensures FindFree(Visible(es, seen), i) == match FindFree(es, i) case At(k) => if k < seen then At(k) else NotFound case NotFound => NotFound
    decreases |es| - i
  {
    if i < |Visible(es, seen)| { FindFreeVisible(es, seen, i + 1); }
  }

  lemma {:induction false} FindNameVisible(es: seq<Entry>, name: Name, seen: nat, i: nat)
    requires i <= |Visible(es, seen)|
    ensures FindName(Visible(es, seen), name, i)
         == match FindName(es, name, i) case At(k) => if k < seen then At(k) else NotFound case NotFound => NotFound
    decreases |es| - i
  {
    if i < |Visible(es, seen)| { FindNameVisible(es, name, seen, i + 1); }
  }

  /** dir_add() of a new inode, with memory for its write, does what it is for exactly if its lookup()
      sees the name, where it is there and a slot would be written; and otherwise its loop sees the
      entries in front of the first free one, or all if none is free. */
  lemma ShortReadsHarmlessIff(es: seq<Entry>, name: Name, sector: int, looked: nat, seen: nat)
    requires ValidName(name) && forall i | 0 <= i < |es| && es[i].inUse :: es[i].sector != sector
    ensures AddShort(es, name, sector, looked, seen, true) == AddEntry(es, name, sector) <==>
            match FindName(es, name, 0)
            case At(k) => k < looked || SlotOf(es, seen) == |es|
            case NotFound => (match FindFree(es, 0) case At(f) => f <= seen case NotFound => |es| <= seen)
  {
    FindNameVisible(es, name, looked, 0);
    FindFreeVisible(es, seen, 0);
    var e, k := Entry(sector, name, true), SlotOf(es, seen);
    if AddsShort(es, name, looked, seen, true) {
      assert es[k := e][k] == e && es[k] != e;
      if MayAddEntry(es, name) {
        var f := FindFree(es, 0).index;
        if f != k { assert es[f := e][f] == e && es[k := e][f] == es[f]; }
      }
    }
  }

  /** With memory for every read and the write, it always does. */
  lemma EnoughReadsAdd(es: seq<Entry>, name: Name, sector: int, looked: nat, seen: nat)
    requires |es| <= looked && |es| <= seen
    ensures AddShort(es, name, sector, looked, seen, true) == AddEntry(es, name, sector)
    ensures AddsShort(es, name, looked, seen, true) == MayAddEntry(es, name)
  {
  }

  /** A read that fails for lack of memory makes dir_add() overwrite a name in use: "a" is gone. */
  lemma ShortReadOverwrites()
    ensures var es := [Entry(5, [97], true), Entry(0, [], false)];
            && DirOk(es) && [97] in MapOf(es)
            && AddShort(es, [98], 7, 2, 0, true) == [Entry(7, [98], true), Entry(0, [], false)]
            && [97] !in MapOf(AddShort(es, [98], 7, 2, 0, true))
  {
    var es := [Entry(5, [97], true), Entry(0, [], false)];
    var es' := [Entry(7, [98], true), Entry(0, [], false)];
    assert es[0].inUse && es[0].name == [97];
    FindNameVisible(es, [98], 2, 0);
    FindFreeVisible(es, 0, 0);
    assert es[0 := es'[0]] == es';
  }

  /* ----- Runs ----- */

  datatype Op = AddOp(name: Name, sector: int) | RemoveOp(name: Name)

  function EntriesAfter(es: seq<Entry>, ops: seq<Op>): (es': seq<Entry>)
    ensures |es'| == |es|
  {
    if ops == [] then es
    else
      var es1 := EntriesAfter(es, ops[..|ops| - 1]);
      match ops[|ops| - 1]
      case AddOp(name, sector) => AddEntry(es1, name, sector)
      case RemoveOp(name) => RemoveEntry(es1, name)
  }

  /** The same run on a map that holds at most `room` names */
  function MapAfterOps(m: map<Name, int>, room: nat, ops: seq<Op>): (m': map<Name, int>)
  {
    if ops == [] then m
    else
      var m1 := MapAfterOps(m, room, ops[..|ops| - 1]);
      match ops[|ops| - 1]
      case AddOp(name, sector) => if ValidName(name) && name !in m1 && |m1| < room then m1[name := sector] else m1
      case RemoveOp(name) => m1 - {name}
  }

  /** Over any run a directory is the bounded map, and its names in use stay distinct. */
  lemma {:induction false} RunRefinesMap(es: seq<Entry>, ops: seq<Op>)
    requires DirOk(es)
    ensures DirOk(EntriesAfter(es, ops)) && MapOf(EntriesAfter(es, ops)) == MapAfterOps(MapOf(es), |es|, ops)
  {
    if ops != [] {
      RunRefinesMap(es, ops[..|ops| - 1]);
      var es1 := EntriesAfter(es, ops[..|ops| - 1]);
      match ops[|ops| - 1]
      case AddOp(name, sector) => AddRefinesMap(es1, name, sector);
      case RemoveOp(name) => RemoveRefinesMap(es1, name);
    }
  }

  /* ----- Reading a directory ----- */

  /** The names dir_readdir() returns from position `i` on */
  function Listing(es: seq<Entry>, i: nat): (names: seq<Name>)
    decreases |es| - i
  {
    if i >= |es| then [] else if es[i].inUse then [es[i].name] + Listing(es, i + 1) else Listing(es, i + 1)
  }

  lemma {:induction false} ListingHas(es: seq<Entry>, i: nat)
    ensures forall n :: n in Listing(es, i) <==> exists k :: i <= k < |es| && es[k].inUse && es[k].name == n
    decreases |es| - i
  {
    if i < |es| {
      ListingHas(es, i + 1);
      forall n
        ensures n in Listing(es, i) <==> exists k :: i <= k < |es| && es[k].inUse && es[k].name == n
      {
        if es[i].inUse && n == es[i].name { assert n in Listing(es, i); }
      }
    }
  }

  /** Reading from the start lists every name in use, and none twice. */
  lemma {:induction false} ListsEachOnce(es: seq<Entry>, i: nat)
    requires DirOk(es)
    ensures forall a, b | 0 <= a < b < |Listing(es, i)| :: Listing(es, i)[a] != Listing(es, i)[b]
    ensures i == 0 ==> forall n :: n in Listing(es, 0) <==> n in MapOf(es)
    decreases |es| - i
  {
    ListingHas(es, i);
    if i < |es| {
      ListsEachOnce(es, i + 1);
      ListingHas(es, i + 1);
      assert es[i].inUse ==> es[i].name !in Listing(es, i + 1);
    }
  }

  /** ... in the order of the entries */
  lemma {:induction false} ListsInOrder(es: seq<Entry>, i: nat, a: nat, b: nat)
    requires DirOk(es) && a < b < |Listing(es, i)|
    ensures FindName(es, Listing(es, i)[a], 0).At? && FindName(es, Listing(es, i)[b], 0).At?
    ensures FindName(es, Listing(es, i)[a], 0).index < FindName(es, Listing(es, i)[b], 0).index
    decreases |es| - i
  {
    if !es[i].inUse {
      ListsInOrder(es, i + 1, a, b);
    } else if a > 0 {
      ListsInOrder(es, i + 1, a - 1, b - 1);
    } else {
      ListingHas(es, i + 1);
      assert Listing(es, i)[b] == Listing(es, i + 1)[b - 1] && Listing(es, i + 1)[b - 1] in Listing(es, i + 1);
      OnlyEntry(es, i);
      var k :| i + 1 <= k < |es| && es[k].inUse && es[k].name == Listing(es, i)[b];
      OnlyEntry(es, k);
    }
  }

  /* ----- On the device ----- */

  ghost function DirEntries(device: Device, d: InodeDisk): (es: seq<Entry>)
    requires Fits(device.sectors, d)
    reads device
  {
    Entries(Flat(device.sectors, d))
  }

  lemma SlotEnds(length: nat, k: nat)
    ensures k < length / DIR_ENTRY_SIZE <==> (k + 1) * DIR_ENTRY_SIZE <= length
  {
  }

  /** The read that drives the loops below: 20 bytes unless the directory ends first, or there is no
      memory for the read */
  method ReadEntry(device: Device, d: InodeDisk, k: nat, memory: bool) returns (b: seq<Byte>)
    requires Fits(device.sectors, d)
    ensures |b| == DIR_ENTRY_SIZE <==> memory && k < |DirEntries(device, d)|
    ensures |b| == DIR_ENTRY_SIZE ==> b == EntryBytes(Flat(device.sectors, d), k) && Decode(b) == DirEntries(device, d)[k]
  {
    if !memory {
      return [];
    }
    b := ReadAt(device, d, DIR_ENTRY_SIZE, k * DIR_ENTRY_SIZE, true);
    SlotEnds(d.length, k);
    if |b| == DIR_ENTRY_SIZE { EntriesAt(Flat(device.sectors, d), k); }
  }

  method EntryAt(device: Device, d: InodeDisk, k: nat, memory: bool) returns (ok: bool, e: Entry)
    requires Fits(device.sectors, d)
    ensures ok == (memory && k < |DirEntries(device, d)|)
    ensures ok ==> e == DirEntries(device, d)[k]
  {
    var b := ReadEntry(device, d, k, memory);
    if |b| == DIR_ENTRY_SIZE {
      return true, Decode(b);
    } else {
      return false, Entry(0, [], false);
    }
  }

  /** lookup(): the slot of `name`, among the entries whose reads find memory */
  method Lookup(device: Device, d: InodeDisk, name: Name, looked: nat) returns (r: Found)
    requires Fits(device.sectors, d)
    ensures r == FindName(Visible(DirEntries(device, d), looked), name, 0)
  {
    ghost var es := Visible(DirEntries(device, d), looked);
    var k := 0;
    var ok, e := EntryAt(device, d, k, k < looked);
    while ok
      invariant ok == (k < |es|) && (ok ==> e == es[k])
      invariant FindName(es, name, 0) == FindName(es, name, k)
      decreases |es| - k
    {
      if e.inUse && e.name == name {
        return At(k);
      }
      k := k + 1;
      ok, e := EntryAt(device, d, k, k < looked);
    }
    return NotFound;
  }

  /** The loop of dir_add() that looks for a free slot, with the entry it read last */
  method FindSlot(device: Device, d: InodeDisk, seen: nat) returns (k: nat, last: seq<Byte>)
    requires Fits(device.sectors, d)
    ensures |last| == DIR_ENTRY_SIZE
    ensures k == SlotOf(DirEntries(device, d), seen)
  {
    ghost var es := Visible(DirEntries(device, d), seen);
    k := 0;
    last := seq(DIR_ENTRY_SIZE, _ => 0);
    var b := ReadEntry(device, d, k, k < seen);
    while |b| == DIR_ENTRY_SIZE
      invariant |last| == DIR_ENTRY_SIZE
      invariant k <= |es| && (|b| == DIR_ENTRY_SIZE <==> k < |es|)
      invariant |b| == DIR_ENTRY_SIZE ==> Decode(b) == es[k]
      invariant FindFree(es, 0) == FindFree(es, k)
      decreases |es| - k
    {
      last := b;
      if !Decode(b).inUse {
        return;
      }
      k := k + 1;
      b := ReadEntry(device, d, k, k < seen);
    }
  }

  method WriteEntry(device: Device, d: InodeDisk, k: nat, b: seq<Byte>, memory: bool) returns (ok: bool)
    requires Fits(device.sectors, d) && d.length % DIR_ENTRY_SIZE == 0 && |b| == DIR_ENTRY_SIZE
    modifies device
    ensures Fits(device.sectors, d) && OnlyFile(old(device.sectors), device.sectors, d)
    ensures ok == (memory && k < |old(DirEntries(device, d))|)
    ensures DirEntries(device, d) == if ok then old(DirEntries(device, d))[k := Decode(b)] else old(DirEntries(device, d))
  {
    if !memory {
      return false;
    }
    SlotEnds(d.length, k);
    ghost var flat := Flat(device.sectors, d);
    var n := WriteAt(device, d, b, DIR_ENTRY_SIZE, k * DIR_ENTRY_SIZE, false, true);
    ok := n == DIR_ENTRY_SIZE;
    if ok {
      assert b[..n] == b;
      EntryWritten(flat, k, b);
    } else {
      assert n == 0 && b[..n] == [];
    }
  }

  /** dir_add(), with memory for reading `looked` and then `seen` entries, and for writing if `written` */
  method Add(device: Device, d: InodeDisk, name: Name, sector: int, looked: nat, seen: nat, written: bool) returns (ok: bool)
    requires Fits(device.sectors, d) && d.length % DIR_ENTRY_SIZE == 0
    requires NonZero(name) && 0 <= sector < 0x1_0000_0000
    modifies device
    ensures Fits(device.sectors, d) && OnlyFile(old(device.sectors), device.sectors, d)
    ensures ok == AddsShort(old(DirEntries(device, d)), name, looked, seen, written)
    ensures DirEntries(device, d) == AddShort(old(DirEntries(device, d)), name, sector, looked, seen, written)
  {
    if name == [] || |name| > NAME_MAX {
      return false;
    }
    var r := Lookup(device, d, name, looked);
    if r.At? {
      return false;
    }
    var k, last := FindSlot(device, d, seen);
    DecodeFilled(last, name, sector);
    ok := WriteEntry(device, d, k, Filled(last, name, sector), written);
  }

  /** The directory's part of dir_remove(): it removes the name, or reports that it did not. */
  method Remove(device: Device, d: InodeDisk, name: Name, looked: nat, written: bool) returns (ok: bool)
    requires Fits(device.sectors, d) && d.length % DIR_ENTRY_SIZE == 0
    modifies device
    ensures Fits(device.sectors, d) && OnlyFile(old(device.sectors), device.sectors, d)
    ensures ok == (written && FindName(Visible(old(DirEntries(device, d)), looked), name, 0).At?)
    ensures DirEntries(device, d) == if ok then RemoveEntry(old(DirEntries(device, d)), name) else old(DirEntries(device, d))
  {
    ghost var es := DirEntries(device, d);
    FindNameVisible(es, name, looked, 0);
    var r := Lookup(device, d, name, looked);
    if r.NotFound? {
      return false;
    }
    var b := ReadEntry(device, d, r.index, true);
    DecodeCleared(b);
    ok := WriteEntry(device, d, r.index, Cleared(b), written);
  }

  /** dir_readdir(): the next name in use and the position after it */
  method Readdir(device: Device, d: InodeDisk, pos: nat) returns (ok: bool, name: Name, pos': nat)
    requires Fits(device.sectors, d)
    ensures var rest := Listing(DirEntries(device, d), pos);
            if ok then rest == [name] + Listing(DirEntries(device, d), pos') else rest == []
    ensures pos' >= pos
  {
    ghost var es := DirEntries(device, d);
    pos' := pos;
    var more, e := EntryAt(device, d, pos', true);
    while more
      invariant pos' >= pos && more == (pos' < |es|) && (more ==> e == es[pos'])
      invariant Listing(es, pos) == Listing(es, pos')
      decreases |es| - pos'
    {
      pos' := pos' + 1;
      if e.inUse {
        return true, e.name, pos';
      }
      more, e := EntryAt(device, d, pos', true);
    }
    return false, [], pos';
  }
}
