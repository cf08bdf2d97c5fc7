/** The volume refines a map from names to file contents, with some room left for more: every run of create, open,
    read and write on the disk answers as the map does, and keeps the volume well formed. */
module Refinement {
  import opened Bits
  import opened Options
  import opened FatTable
  import opened Chains
  import opened DosNames
  import opened Volume
  import opened VolumeInvariant

  // ----- the abstract file system

  /** A file: the bytes its clusters hold (512 each), and the size its directory entry gives. */
  datatype File = File(raw: seq<byte>, size: u32)

  /** A handle: the file it was opened on, the cluster it stands at and the position it has read to. */
  datatype Cursor = Cursor(name: DosName, index: nat, position: nat, eof: bool)

  /** The files, the handles given out, the number of files the directory still has room for, and the spare clusters
      with what their sectors happen to hold. */
  datatype Files = Files(files: map<DosName, File>, cursors: seq<Cursor>, room: nat, spare: map<nat, Sector>)

  datatype Op =
    | CreateOp(filename: CString, size: u32, pageFree: bool)
    | OpenOp(filename: CString, pageFree: bool)
    | ReadOp(handle: nat, size: u32)
    | WriteOp(handle: nat, data: seq<byte>)

  datatype Reply =
    | Status(code: int)
    | Handed(ok: bool)
    | Got(bytes: seq<byte>)
    | Put(count: int)

  /** The lowest spare cluster from c on, or 0. */
  function LowestFrom(spare: map<nat, Sector>, c: nat): (r: nat)
    ensures r != 0 ==> r in spare
    decreases 4084 - c
  {
    if c >= 4084 then 0 else if c in spare then c else LowestFrom(spare, c + 1)
  }

  function Lowest(spare: map<nat, Sector>): nat { LowestFrom(spare, 2) }

  function ReadCursor(f: File, c: Cursor, size: u32): (r: (seq<byte>, Cursor))
    requires c.position <= f.size && 512 * c.index <= |f.raw|
    ensures r.1.name == c.name && r.1.position == c.position + |r.0| <= f.size
    ensures |f.raw| % 512 == 0 ==> 512 * r.1.index <= |f.raw|
  {
    if c.eof then ([], c)
    else
      var start := 512 * c.index;
      var n := Min(Min(size, f.size - c.position), |f.raw| - start);
      var index := c.index + SectorCount(n);
      (f.raw[start..start + n],
       c.(index := index, position := c.position + n, eof := 0 < |f.raw| == 512 * index))
  }

  predicate CursorsFit(a: Files) {
    forall i | 0 <= i < |a.cursors| ::
      var c := a.cursors[i];
      c.name in a.files && c.position <= a.files[c.name].size && 512 * c.index <= |a.files[c.name].raw|
  }

  /** Create on the map: it takes room and, for a size that needs one, the lowest spare cluster; a name that reads as
      deleted takes the cluster only. */
  function SpecCreate(m: MountInfo, a: Files, name: DosName, size: u32, pageFree: bool): (Files, Reply) {
    var c := if ClustersNeeded(size) == 0 then 0 else Lowest(a.spare);
    if (name in a.files && pageFree) || a.room == 0 || (c == 0 && ClustersNeeded(size) != 0) then (a, Status(-1))
    else
      var raw: seq<byte> := if c == 0 then [] else a.spare[c];
      var spare := if c == 0 then a.spare else a.spare - {c};
      if MarksDeleted(m, name[0]) then (a.(spare := spare), Status(0))
      else (a.(files := a.files[name := File(raw, size)], room := a.room - 1, spare := spare), Status(0))
  }

  function Spec(m: MountInfo, a: Files, op: Op): (r: (Files, Reply))
    requires CursorsFit(a)
  {
    match op
    case CreateOp(filename, size, pageFree) => SpecCreate(m, a, ToDos(filename), size, pageFree)
    case OpenOp(filename, pageFree) =>
      var name := ToDos(filename);
      if name in a.files && pageFree
      then (a.(cursors := a.cursors + [Cursor(name, 0, 0, false)]), Handed(true))
      else (a, Handed(false))
    case ReadOp(h, size) =>
      if h >= |a.cursors| then (a, Got([]))
      else
        var (bytes, c) := ReadCursor(a.files[a.cursors[h].name], a.cursors[h], size);
        (a.(cursors := a.cursors[h := c]), Got(bytes))
    case WriteOp(h, data) =>
      if h >= |a.cursors| then (a, Put(-1))
      else
        var c := a.cursors[h];
        var f := a.files[c.name];
        var n := Min(|data|, |f.raw|);
        (a.(files := a.files[c.name := f.(raw := Overlay(f.raw, data))],
            cursors := a.cursors[h := c.(index := SectorCount(n))]),
         Put(n))
  }

  /** The calls for which the driver is a map of files: no create that succeeds over a live name, which it can only for
      want of a page, or with a size the 32-bit count loses, and no write to a file without clusters. */
  predicate Proper(m: MountInfo, a: Files, op: Op) {
    match op
    case CreateOp(filename, size, pageFree) =>
      var name := ToDos(filename);
      SpecCreate(m, a, name, size, pageFree).1 == Status(0) ==>
        MarksDeleted(m, name[0]) || (name !in a.files && size <= 0x1_0000_0000 - 512)
    case WriteOp(h, data) =>
      h < |a.cursors| && a.cursors[h].name in a.files && a.files[a.cursors[h].name].raw == [] ==> data == []
    case _ => true
  }

  // ----- the driver on values

  datatype System = System(v: View, handles: seq<Handle>)

  /** One call; a handle number that was never given out stands for the null handle. */
  function Step(m: MountInfo, s: System, op: Op): (r: (System, Reply))
    requires Mounted(m, s.v)
    ensures Mounted(m, r.0.v)
  {
    match op
    case CreateOp(filename, size, pageFree) =>
      var (code, v) := Create(m, s.v, ToDos(filename), size, pageFree);
      (s.(v := v), Status(code))
    case OpenOp(filename, pageFree) =>
      (match Open(m, RootDir(m, s.v.disk), ToDos(filename), pageFree)
       case None => (s, Handed(false))
       case Some(h) => (s.(handles := s.handles + [h]), Handed(true)))
    case ReadOp(h, size) =>
      if h >= |s.handles| then (s, Got([]))
      else (s.(handles := s.handles[h := AfterRead(m, s.v, s.handles[h], size)]),
            Got(ReadData(m, s.v, s.handles[h], size)))
    case WriteOp(h, data) =>
      if h >= |s.handles| then (s, Put(-1))
      else
        var (v, handle, n) := AfterWrite(m, s.v, s.handles[h], data);
        (System(v, s.handles[h := handle]), Put(n))
  }

  // ----- the relation between the two

  function FileIn(m: MountInfo, v: View, slot: DirSlot): File
    requires Mounted(m, v)
  {
    File(Gather(m, v.disk, ChainOf(v.fat, FirstOf(slot))), SizeOf(slot))
  }

  ghost predicate SameFiles(m: MountInfo, v: View, files: map<DosName, File>)
    requires Mounted(m, v)
  {
    var slots := RootDir(m, v.disk);
    && (forall k | 0 <= k < |slots| && Live(m, slots[k]) ::
          NameOf(slots[k]) in files && files[NameOf(slots[k])] == FileIn(m, v, slots[k]))
    && (forall n | n in files :: Lookup(m, slots, n).Some?)
  }

  /** The directory slots holding no file. */
  function FreeSlots(m: MountInfo, slots: seq<DirSlot>): set<nat> {
    set k: nat | k < |slots| && !Live(m, slots[k])
  }

  ghost predicate SameRoom(m: MountInfo, v: View, a: Files)
    requires Mounted(m, v)
  {
    a.room == |FreeSlots(m, RootDir(m, v.disk))| && SameSpare(m, v, a.spare)
  }

  ghost predicate SameSpare(m: MountInfo, v: View, spare: map<nat, Sector>)
    requires Mounted(m, v)
  {
    && (forall c: nat :: c in spare <==> FreeCluster(v.fat, c))
    && forall c: nat | c in spare :: spare[c] == SectorOf(m, v.disk, c)
  }

  /** The handle stands at the index-th cluster of the chain, or at its end marker. */
  predicate AtIndex(fat: Fat, first: u16, current: u16, index: nat) {
    var cs := ChainOf(fat, first);
    && index <= |cs|
    && (cs == [] ==> current == 0)
    && (index < |cs| ==> current == cs[index])
    && (0 < |cs| == index ==> current >= EOF_MIN)
  }

  predicate SameCursor(m: MountInfo, v: View, h: Handle, c: Cursor)
    requires Mounted(m, v)
  {
    var k := Lookup(m, RootDir(m, v.disk), c.name);
    && k.Some?
    && h.firstCluster == FirstOf(RootDir(m, v.disk)[k.value])
    && h.fileSize == SizeOf(RootDir(m, v.disk)[k.value])
    && h.position == c.position <= h.fileSize
    && h.eof == c.eof
    && AtIndex(v.fat, h.firstCluster, h.currentCluster, c.index)
  }

  ghost predicate Refines(m: MountInfo, s: System, a: Files) {
    && WellFormed(m, s.v)
    && SameFiles(m, s.v, a.files)
    && SameRoom(m, s.v, a)
    && |s.handles| == |a.cursors|
    && forall i | 0 <= i < |s.handles| :: SameCursor(m, s.v, s.handles[i], a.cursors[i])
  }

  // ----- reading

  /** Walking on from the index-th cluster of a chain visits the next ones in order. */
  lemma WalkFrom(fat: Fat, first: u16, current: u16, index: nat, n: nat)
    requires GoodChain(fat, first) && AtIndex(fat, first, current, index)
    ensures var cs := FullChain(fat, first);
            var stop := Min(index + n, |cs|);
            && Chain(fat, current, n) == cs[index..stop]
            && AtIndex(fat, first, After(fat, current, n), stop)
  {
    hide Entry, Chain, After;
    var cs := FullChain(fat, first);
    var stop := Min(index + n, |cs|);
    ChainAt(fat, first, LIMIT);
    ChainStarts(fat, first);
    if index < |cs| {
      ChainAdd(fat, first, index, n);
      AfterAdd(fat, first, index, n);
      ChainSaturates(fat, first, index + n);
      ChainSaturates(fat, first, index);
      assert cs[..stop] == cs[..index] + Chain(fat, current, n);
      assert After(fat, current, n) == After(fat, first, stop);
    } else {
      WalkAtEnd(fat, current, n);
    }
  }

  lemma ChainStarts(fat: Fat, first: u16)
    requires first < EOF_MIN
    ensures |FullChain(fat, first)| > 0
  {
  }

  lemma WalkAtEnd(fat: Fat, c: u16, n: nat)
    requires n == 0 || c >= EOF_MIN
    ensures Chain(fat, c, n) == [] && After(fat, c, n) == c
  {
  }

  /** A read through a handle at the index-th cluster gives the bytes from there on. */
  lemma ReadAlong(m: MountInfo, v: View, h: Handle, c: Cursor, size: u32)
    requires Mounted(m, v)
    requires (h.firstCluster == 0 && h.fileSize == 0) || GoodChain(v.fat, h.firstCluster)
    requires h.position == c.position <= h.fileSize && h.eof == c.eof
    requires AtIndex(v.fat, h.firstCluster, h.currentCluster, c.index)
    ensures var f := File(Gather(m, v.disk, ChainOf(v.fat, h.firstCluster)), h.fileSize);
            var (bytes, d) := ReadCursor(f, c, size);
            var h' := AfterRead(m, v, h, size);
            && ReadData(m, v, h, size) == bytes
            && h'.position == d.position <= h.fileSize && h'.eof == d.eof
            && AtIndex(v.fat, h.firstCluster, h'.currentCluster, d.index)
  {
    hide Chain, After, Gather, Entry, FullChain, GoodChain, AtIndex, SectorCount;
    if !h.eof {
      var cs := ChainOf(v.fat, h.firstCluster);
      var raw := Gather(m, v.disk, cs);
      var n := Wanted(h, size);
      var k := SectorCount(n);
      assert n == Min(size, h.fileSize - h.position);
      var read := Chain(v.fat, h.currentCluster, k);
      var stop := WalkStops(v.fat, h, c.index, k, n);
      GatherSlice(m, v.disk, cs, c.index, stop);
      CountSectors(n, |cs| - c.index);
      var count := Min(n, 512 * (stop - c.index));
      assert ReadData(m, v, h, size) == raw[512 * c.index..512 * stop][..count];
      SliceOfSlice(raw, 512 * c.index, 512 * stop, count);
      var d := ReadCursor(File(raw, h.fileSize), c, size).1;
      assert d.index == stop && |raw| == 512 * |cs|;
    }
  }

  lemma SliceOfSlice(raw: seq<byte>, i: nat, j: nat, n: nat)
    requires i <= j <= |raw| && n <= j - i
    ensures raw[i..j][..n] == raw[i..i + n]
  {
  }

  /** Where a walk of n bytes along a handle's chain stops, for a file with or without clusters. */
  lemma WalkStops(fat: Fat, h: Handle, index: nat, k: nat, n: nat) returns (stop: nat)
    requires (h.firstCluster == 0 && h.fileSize == 0) || GoodChain(fat, h.firstCluster)
    requires AtIndex(fat, h.firstCluster, h.currentCluster, index)
    requires k == SectorCount(n) && n <= h.fileSize
    ensures var cs := ChainOf(fat, h.firstCluster);
            var c := After(fat, h.currentCluster, k);
            && index <= stop <= |cs| && stop == Min(index + k, |cs|)
            && Chain(fat, h.currentCluster, k) == cs[index..stop]
            && AtIndex(fat, h.firstCluster, c, stop)
            && (c >= EOF_MIN <==> 0 < |cs| == stop)
  {
    hide Chain, After, Entry, FullChain;
    var cs := ChainOf(fat, h.firstCluster);
    stop := Min(index + k, |cs|);
    if h.firstCluster == 0 {
      assert SectorCount(0) == 0;
      WalkAtEnd(fat, h.currentCluster, k);
    } else {
      WalkFrom(fat, h.firstCluster, h.currentCluster, index, k);
      ChainStarts(fat, h.firstCluster);
    }
  }

  /** Whole sectors needed for n bytes, when only k sectors are there. */
  lemma CountSectors(n: nat, k: nat)
    ensures SectorCount(Min(n, 512 * k)) == Min(SectorCount(n), k)
    ensures Min(n, 512 * Min(SectorCount(n), k)) == Min(n, 512 * k)
  {
  }

  // ----- writing

  /** A write overlays the bytes along the file's own chain and leaves its handle after them. */
  lemma WriteAlong(m: MountInfo, v: View, h: Handle, data: seq<byte>)
    requires Mounted(m, v)
    requires (h.firstCluster == 0 && data == []) || GoodChain(v.fat, h.firstCluster)
    ensures var cs := ChainOf(v.fat, h.firstCluster);
            var raw := Gather(m, v.disk, cs);
            var (v', h', n) := AfterWrite(m, v, h, data);
            && v' == View(Store(m, v.disk, cs, data), v.fat)
            && Gather(m, v'.disk, cs) == Overlay(raw, data)
            && n == Min(|data|, |raw|)
            && h' == h.(currentCluster := h'.currentCluster)
            && AtIndex(v.fat, h.firstCluster, h'.currentCluster, SectorCount(n))
  {
    hide Chain, After, Gather, Store, Entry, Overlay, SectorCount;
    var cs := ChainOf(v.fat, h.firstCluster);
    CountSectors(|data|, |cs|);
    StorePrefix(m, v.disk, cs, data);
    if h.firstCluster == 0 {
      NoSectors();
      WalkAtEnd(v.fat, 0, 0);
      GatherStore(m, v.disk, cs, data);
    } else {
      ChainStarts(v.fat, h.firstCluster);
      ChainAt(v.fat, h.firstCluster, LIMIT);
      WalkAtEnd(v.fat, h.firstCluster, 0);
      WalkFrom(v.fat, h.firstCluster, h.firstCluster, 0, SectorCount(|data|));
      TerminatesIsDistinct(v.fat, h.firstCluster, LIMIT);
      GatherStore(m, v.disk, cs, data);
    }
  }

  lemma NoSectors()
    ensures SectorCount(0) == 0
  {
  }

  /** Writing along data clusters leaves the tables and the root directory alone. */
  lemma StoreKeepsFront(m: MountInfo, v: View, cs: seq<u16>, data: seq<byte>)
    requires Mounted(m, v) && Links(cs) && DataClusters(cs)
    ensures var v' := View(Store(m, v.disk, cs, data), v.fat);
            && (forall s | 0 <= s < m.dataStart :: v'.disk[s] == v.disk[s])
            && RootDir(m, v'.disk) == RootDir(m, v.disk)
            && (FirstMirror(m, v) ==> FirstMirror(m, v'))
            && (SecondMirror(m, v) ==> SecondMirror(m, v'))
  {
    hide Store;
    var disk := Store(m, v.disk, cs, data);
    forall s | 0 <= s < m.dataStart ensures disk[s] == v.disk[s] {
      forall i | 0 <= i < |cs| ensures Lba(m, cs[i]) != s {
        assert cs[i] in cs;
        LbaInRange(m, |disk|, cs[i]);
      }
      StoreKeepsSector(m, v.disk, cs, data, s);
    }
    RootDirSame(m, v.disk, disk);
  }

  lemma RootDirSame(m: MountInfo, disk: seq<Sector>, disk': seq<Sector>)
    requires ValidMount(m, |disk|) && |disk'| == |disk|
    requires forall s | m.rootStart <= s < m.dataStart :: disk'[s] == disk[s]
    ensures RootDir(m, disk') == RootDir(m, disk)
  {
    assert forall k | 0 <= k < Slots(m) :: m.rootStart <= m.rootStart + k / 16 < m.dataStart;
  }

  /** A write to the file of slot k changes that file's bytes and no other's. */
  lemma WriteOneFile(m: MountInfo, v: View, k: nat, data: seq<byte>, v': View)
    requires WellFormed(m, v) && k < Slots(m) && Live(m, RootDir(m, v.disk)[k])
    requires var cs := ChainOf(v.fat, FirstOf(RootDir(m, v.disk)[k]));
             v' == View(Store(m, v.disk, cs, data), v.fat)
    ensures WellFormed(m, v') && RootDir(m, v'.disk) == RootDir(m, v.disk)
    ensures var slots := RootDir(m, v.disk);
            && FileIn(m, v', slots[k]).raw == Overlay(FileIn(m, v, slots[k]).raw, data)
            && forall j | 0 <= j < |slots| && j != k && Live(m, slots[j]) ::
                 FileIn(m, v', slots[j]) == FileIn(m, v, slots[j])
  {
    hide Store, Gather, Overlay, GoodFile, ChainOf, GoodDirectory, FirstOf;
    var slots := RootDir(m, v.disk);
    var cs := ChainOf(v.fat, FirstOf(slots[k]));
    ChainOfGoodFile(v.fat, slots[k]);
    StoreKeepsFront(m, v, cs, data);
    GatherStore(m, v.disk, cs, data);
    forall j | 0 <= j < |slots| && j != k && Live(m, slots[j])
      ensures FileIn(m, v', slots[j]) == FileIn(m, v, slots[j])
    {
      var ds := ChainOf(v.fat, FirstOf(slots[j]));
      assert Disjoint(cs, ds) by {
        assert if j < k then Disjoint(ds, cs) else Disjoint(cs, ds);
      }
      GatherStoreApart(m, v.disk, cs, data, ds);
    }
  }

  // ----- creating

  /** A successful create replaces one directory slot ... */
  lemma CreatedSlots(m: MountInfo, v: View, name: DosName, size: u32, k: nat, first: u16)
    requires Mounted(m, v) && k < Slots(m) && first < EOF_MIN
    ensures var slots := RootDir(m, v.disk);
            RootDir(m, Created(m, v, name, size, k, first).disk)
            == slots[k := NewSlot(slots[k], name, first, size)]
  {
    hide NewSlot, SlotIn, WithEntry;
    var slots, v' := RootDir(m, v.disk), Created(m, v, name, size, k, first);
    forall j | 0 <= j < Slots(m)
      ensures RootDir(m, v'.disk)[j] == if j == k then NewSlot(slots[k], name, first, size) else slots[j]
    {
      var s := m.rootStart + j / 16;
      assert MirrorIndex(m, s).None? && s < m.dataStart;
      assert j / 16 == k / 16 && j % 16 == k % 16 ==> j == k;
    }
  }

  lemma MirrorsApart(m: MountInfo)
    requires m.fatStart + 2 * m.sectorsPerFat <= m.rootStart
    ensures forall s | m.rootStart <= s :: MirrorIndex(m, s) == None
  {
  }

  lemma CreatedTableSector(m: MountInfo, v: View, name: DosName, size: u32, k: nat, first: u16, s: nat, i: nat)
    requires Mounted(m, v) && k < Slots(m) && first < EOF_MIN && i < m.sectorsPerFat
    requires s == m.fatStart + i || s == m.fatStart + m.sectorsPerFat + i
    ensures var v' := Created(m, v, name, size, k, first);
            Mounted(m, v') && s < |v'.disk| && v'.disk[s] == FatSector(v'.fat, i)
  {
    hide NewSlot, SlotIn, WithEntry, PutSlot, FatSector, RootDir;
    assert m.rootStart <= m.rootStart + k / 16;
    assert s != m.rootStart + k / 16;
  }

  lemma CreatedMirrors(m: MountInfo, v: View, name: DosName, size: u32, k: nat, first: u16)
    requires Mounted(m, v) && k < Slots(m) && first < EOF_MIN
    ensures var v' := Created(m, v, name, size, k, first); Mounted(m, v') && FirstMirror(m, v') && SecondMirror(m, v')
  {
    CreatedMounted(m, v, name, size, k, first);
    var v' := Created(m, v, name, size, k, first);
    hide Created, TableSectors, Mounted, FirstMirror, SecondMirror;
    forall i | 0 <= i < m.sectorsPerFat
      ensures TableSectors(m, v', i)
    {
      CreatedTableSectors(m, v, name, size, k, first, i);
    }
    TableSectorsMirror(m, v');
  }

  predicate TableSectors(m: MountInfo, v: View, i: nat)
    requires Mounted(m, v) && i < m.sectorsPerFat
  {
    v.disk[m.fatStart + i] == FatSector(v.fat, i) == v.disk[m.fatStart + m.sectorsPerFat + i]
  }

  lemma CreatedTableSectors(m: MountInfo, v: View, name: DosName, size: u32, k: nat, first: u16, i: nat)
    requires Mounted(m, v) && k < Slots(m) && first < EOF_MIN && i < m.sectorsPerFat
    ensures Mounted(m, Created(m, v, name, size, k, first))
    ensures TableSectors(m, Created(m, v, name, size, k, first), i)
  {
    hide Created, FatSector;
    CreatedTableSector(m, v, name, size, k, first, m.fatStart + i, i);
    CreatedTableSector(m, v, name, size, k, first, m.fatStart + m.sectorsPerFat + i, i);
  }

  lemma TableSectorsMirror(m: MountInfo, v: View)
    requires Mounted(m, v)
    requires forall i | 0 <= i < m.sectorsPerFat :: TableSectors(m, v, i)
    ensures FirstMirror(m, v) && SecondMirror(m, v)
  {
    forall i | 0 <= i < m.sectorsPerFat
      ensures v.disk[m.fatStart + i] == FatSector(v.fat, i)
    {
      hide FatSector;
      assert TableSectors(m, v, i);
    }
    forall i | 0 <= i < m.sectorsPerFat
      ensures v.disk[m.fatStart + m.sectorsPerFat + i] == FatSector(v.fat, i)
    {
      hide FatSector;
      assert TableSectors(m, v, i);
    }
    hide TableSectors;
  }

  lemma CreatedMounted(m: MountInfo, v: View, name: DosName, size: u32, k: nat, first: u16)
    requires Mounted(m, v) && k < Slots(m) && first < EOF_MIN
    ensures Mounted(m, Created(m, v, name, size, k, first))
    ensures m.fatStart + 2 * m.sectorsPerFat <= m.rootStart <= |Created(m, v, name, size, k, first).disk|
    ensures |Created(m, v, name, size, k, first).fat| == m.sectorsPerFat * 512
  {
    hide NewSlot, SlotIn, WithEntry, PutSlot, FatSector, RootDir, CreatedSector;
  }

  /** ... leaves every data sector alone, and makes both mirrors equal to the cached table. */
  lemma CreatedSectors(m: MountInfo, v: View, name: DosName, size: u32, k: nat, first: u16)
    requires Mounted(m, v) && k < Slots(m) && first < EOF_MIN
    ensures var v' := Created(m, v, name, size, k, first);
            && Mounted(m, v')
            && SameData(m, v.disk, v'.disk)
            && FirstMirror(m, v') && SecondMirror(m, v')
  {
    CreatedMirrors(m, v, name, size, k, first);
    hide NewSlot, SlotIn, WithEntry, PutSlot, FatSector, RootDir, FirstMirror, SecondMirror;
    assert m.rootStart <= m.rootStart + k / 16 < m.dataStart;
    MirrorsApart(m);
  }

  /** The bytes of an old file are where they were, under the new table. */
  lemma CreatedKeepsFile(m: MountInfo, v: View, name: DosName, size: u32, k: nat, first: u16, slot: DirSlot)
    requires Mounted(m, v) && k < Slots(m) && (first == 0 || FreeCluster(v.fat, first))
    requires GoodFile(v.fat, slot)
    ensures var v' := Created(m, v, name, size, k, first);
            && GoodFile(v'.fat, slot)
            && ChainOf(v'.fat, FirstOf(slot)) == ChainOf(v.fat, FirstOf(slot))
            && FileIn(m, v', slot) == FileIn(m, v, slot)
            && (first != 0 ==> first !in ChainOf(v.fat, FirstOf(slot)))
  {
    hide Gather, WithEntry, Entry, FullChain, Chain, After;
    CreatedSectors(m, v, name, size, k, first);
    ChainOfGoodFile(v.fat, slot);
    if first != 0 {
      AllocationKeepsFile(v.fat, first, slot);
    }
    var cs := ChainOf(v.fat, FirstOf(slot));
    GatherSameData(m, v.disk, Created(m, v, name, size, k, first).disk, cs);
  }

  /** The new file holds what its one sector held before, or nothing. */
  lemma CreatedFile(m: MountInfo, v: View, name: DosName, size: u32, k: nat, first: u16)
    requires Mounted(m, v) && k < Slots(m) && (first == 0 || FreeCluster(v.fat, first))
    ensures var v' := Created(m, v, name, size, k, first);
            var slot := NewSlot(RootDir(m, v.disk)[k], name, first, size);
            && FileIn(m, v', slot) == File(if first == 0 then [] else SectorOf(m, v.disk, first), size)
            && ChainOf(v'.fat, first) == (if first == 0 then [] else [first])
            && (GoodFile(v'.fat, slot) <==> first != 0 || size == 0)
  {
    hide WithEntry, Entry, FullChain, Chain, After, NewSlot;
    var v' := Created(m, v, name, size, k, first);
    if first != 0 {
      AllocationMakesChain(v.fat, first);
      CreatedSectors(m, v, name, size, k, first);
      GatherSameData(m, v.disk, v'.disk, [first]);
      GatherCons(m, v.disk, [first]);
      assert Gather(m, v.disk, [first][1..]) == [];
    }
  }

  /** The sizes for which the 32-bit cluster count is zero. */
  lemma NoClusterNeeded(size: u32)
    ensures ClustersNeeded(size) == 0 <==> size == 0 || size > 0x1_0000_0000 - 512
  {
  }

  /** What a successful create chose: the first free slot and, if needed, the least free cluster. */
  lemma CreateChoice(m: MountInfo, v: View, name: DosName, size: u32, pageFree: bool) returns (k: nat, first: u16)
    requires Mounted(m, v) && Create(m, v, name, size, pageFree).0 == 0
    ensures FreeSlot(m, RootDir(m, v.disk)) == Some(k) && k < Slots(m)
    ensures first == if ClustersNeeded(size) == 0 then 0 else LeastFree(v.fat)
    ensures first == 0 || FreeCluster(v.fat, first)
    ensures first != 0 <==> ClustersNeeded(size) != 0
    ensures Create(m, v, name, size, pageFree).1 == Created(m, v, name, size, k, first)
  {
    k := FreeSlot(m, RootDir(m, v.disk)).value;
    first := if ClustersNeeded(size) == 0 then 0 else LeastFree(v.fat);
  }

  /** Create succeeds exactly when the name is not found open, a slot is free, and a cluster is free if one is
      needed. */
  lemma CreateSucceedsIff(m: MountInfo, v: View, name: DosName, size: u32, pageFree: bool)
    requires Mounted(m, v)
    ensures var slots := RootDir(m, v.disk);
            Create(m, v, name, size, pageFree).0 == 0 <==>
              && !(pageFree && Lookup(m, slots, name).Some?)
              && (exists k | 0 <= k < |slots| :: !Live(m, slots[k]))
              && (ClustersNeeded(size) == 0 || exists c | 0 <= c < 4084 :: FreeCluster(v.fat, c))
  {
    hide LookupFrom, FreeSlotFrom, LeastFreeFrom, Created, RootDir, Entry;
    var slots := RootDir(m, v.disk);
    FreeSlotIsFirst(m, slots, 0);
    var c := LeastFree(v.fat);
    assert c != 0 ==> FreeCluster(v.fat, c) && c < 4084;
  }

  /** Chains stay good after a create exactly when the new slot, if live, has clusters for its size. */
  lemma CreatedChains(m: MountInfo, v: View, name: DosName, size: u32, k: nat, first: u16)
    requires WellFormed(m, v) && k < Slots(m) && (first == 0 || FreeCluster(v.fat, first))
    requires !Live(m, RootDir(m, v.disk)[k])
    ensures var v' := Created(m, v, name, size, k, first);
            var slot := NewSlot(RootDir(m, v.disk)[k], name, first, size);
            GoodChains(m, v'.fat, RootDir(m, v'.disk)) <==> (Live(m, slot) ==> first != 0 || size == 0)
  {
    hide Created, GoodFile, ChainOf, NewSlot, RootDir, FirstOf;
    var slots, v' := RootDir(m, v.disk), Created(m, v, name, size, k, first);
    var slots' := RootDir(m, v'.disk);
    CreatedSectors(m, v, name, size, k, first);
    CreatedSlots(m, v, name, size, k, first);
    CreatedFile(m, v, name, size, k, first);
    forall i | 0 <= i < |slots| && Live(m, slots[i])
      ensures i != k && slots'[i] == slots[i] && GoodFile(v'.fat, slots[i])
      ensures ChainOf(v'.fat, FirstOf(slots[i])) == ChainOf(v.fat, FirstOf(slots[i]))
      ensures first != 0 ==> first !in ChainOf(v.fat, FirstOf(slots[i]))
    {
      CreatedKeepsFile(m, v, name, size, k, first, slots[i]);
    }
    assert FirstOf(slots'[k]) == first;
    assert GoodFile(v'.fat, slots'[k]) || !Live(m, slots'[k]) ==>
      forall i | 0 <= i < |slots'| && Live(m, slots'[i]) :: GoodFile(v'.fat, slots'[i]);
  }

  /** A successful create keeps the volume well formed exactly when the new name reads as deleted, or
      the name was not there before and the size is one the 32-bit count does not lose. */
  lemma CreateKeepsWellFormedIff(m: MountInfo, v: View, name: DosName, size: u32, pageFree: bool)
    requires WellFormed(m, v) && name[0] != 0
    requires Create(m, v, name, size, pageFree).0 == 0
    ensures WellFormed(m, Create(m, v, name, size, pageFree).1) <==>
            MarksDeleted(m, name[0]) || (Lookup(m, RootDir(m, v.disk), name).None? && size <= 0x1_0000_0000 - 512)
  {
    hide Create, Created, RootDir, GoodDirectory, GoodChains, LookupFrom, FreeSlotFrom, NewSlot;
    var k, first := CreateChoice(m, v, name, size, pageFree);
    var slots := RootDir(m, v.disk);
    var slot := NewSlot(slots[k], name, first, size);
    assert slot[0] == name[0] by { assert NameOf(slot)[0] == slot[0]; }
    FreeSlotIsFirst(m, slots, 0);
    FillSlot(m, slots, k, slot);
    CreatedSectors(m, v, name, size, k, first);
    CreatedSlots(m, v, name, size, k, first);
    CreatedChains(m, v, name, size, k, first);
    NoClusterNeeded(size);
  }

  // ----- one call

  /** Looking a name up and asking the map agree; the slot found is the file's. */
  lemma LookupIsMap(m: MountInfo, v: View, files: map<DosName, File>, name: DosName)
    requires WellFormed(m, v) && SameFiles(m, v, files)
    ensures var slots := RootDir(m, v.disk);
            var k := Lookup(m, slots, name);
            && (name in files <==> k.Some?)
            && (k.Some? ==>
                  && k.value < |slots| && Live(m, slots[k.value]) && NameOf(slots[k.value]) == name
                  && files[name] == FileIn(m, v, slots[k.value])
                  && GoodFile(v.fat, slots[k.value])
                  && (files[name].raw == [] <==> FirstOf(slots[k.value]) == 0))
  {
    hide FullChain, RootDir, LookupFrom;
    var slots := RootDir(m, v.disk);
    var k := Lookup(m, slots, name);
    if k.Some? {
      var first := FirstOf(slots[k.value]);
      assert NameOf(slots[k.value]) == name;
      if first != 0 { ChainStarts(v.fat, first); }
    }
  }

  /** What a cursor's file and handle have in common. */
  lemma CursorFile(m: MountInfo, s: System, a: Files, i: nat)
    requires Refines(m, s, a) && i < |s.handles|
    ensures var h, c := s.handles[i], a.cursors[i];
            && c.name in a.files
            && a.files[c.name] == File(Gather(m, s.v.disk, ChainOf(s.v.fat, h.firstCluster)), h.fileSize)
            && ((h.firstCluster == 0 && h.fileSize == 0) || GoodChain(s.v.fat, h.firstCluster))
            && (a.files[c.name].raw == [] <==> h.firstCluster == 0)
            && c.position <= h.fileSize && 512 * c.index <= |a.files[c.name].raw|
  {
    hide RootDir, LookupFrom, GoodChain, Gather, ChainOf, GoodDirectory, GoodChains, FirstMirror, SameFiles, FirstOf,
         SizeOf;
    LookupIsMap(m, s.v, a.files, a.cursors[i].name);
    assert SameCursor(m, s.v, s.handles[i], a.cursors[i]);
  }

  lemma RefinesFits(m: MountInfo, s: System, a: Files)
    requires Refines(m, s, a)
    ensures CursorsFit(a)
  {
    hide SameFiles, SameCursor, WellFormed;
    forall i | 0 <= i < |a.cursors|
      ensures var c := a.cursors[i];
              c.name in a.files && c.position <= a.files[c.name].size && 512 * c.index <= |a.files[c.name].raw|
    {
      CursorFile(m, s, a, i);
    }
  }

  /** The least free cluster of the table is the lowest spare one. */
  lemma {:induction false} LeastIsLowest(m: MountInfo, v: View, spare: map<nat, Sector>, c: nat)
    requires Mounted(m, v) && SameSpare(m, v, spare) && 2 <= c <= 4084
    ensures LeastFreeFrom(v.fat, c) == LowestFrom(spare, c)
    decreases 4084 - c
  {
    hide Entry, SectorOf;
    if c < 4084 {
      assert c in spare <==> FreeCluster(v.fat, c);
      if c !in spare { LeastIsLowest(m, v, spare, c + 1); }
    }
  }

  /** There is room exactly when a free slot is found. */
  lemma RoomIsFreeSlot(m: MountInfo, slots: seq<DirSlot>)
    ensures |FreeSlots(m, slots)| > 0 <==> FreeSlot(m, slots).Some?
  {
    hide Live;
    FreeSlotIsFirst(m, slots, 0);
    if FreeSlot(m, slots).Some? {
      assert FreeSlot(m, slots).value in FreeSlots(m, slots);
    } else {
      assert FreeSlots(m, slots) == {};
    }
  }

  /** Filling a free slot takes room, unless what it is filled with reads as deleted. */
  lemma RoomAfter(m: MountInfo, slots: seq<DirSlot>, k: nat, slot: DirSlot)
    requires k < |slots| && !Live(m, slots[k])
    ensures |FreeSlots(m, slots[k := slot])| == |FreeSlots(m, slots)| - (if Live(m, slot) then 1 else 0)
  {
    hide Live;
    var free := FreeSlots(m, slots);
    assert k in free;
    if Live(m, slot) {
      assert FreeSlots(m, slots[k := slot]) == free - {k};
    } else {
      assert FreeSlots(m, slots[k := slot]) == free;
    }
  }

  /** A write along a file's chain leaves the spare clusters spare, and their sectors alone. */
  lemma SpareAfterWrite(m: MountInfo, v: View, slot: DirSlot, data: seq<byte>, spare: map<nat, Sector>)
    requires Mounted(m, v) && SameSpare(m, v, spare) && GoodFile(v.fat, slot)
    ensures var v' := View(Store(m, v.disk, ChainOf(v.fat, FirstOf(slot)), data), v.fat); SameSpare(m, v', spare)
  {
    hide Store, Entry, Chain, FullChain, FirstOf;
    var cs := ChainOf(v.fat, FirstOf(slot));
    ChainOfGoodFile(v.fat, slot);
    var disk' := Store(m, v.disk, cs, data);
    forall c: nat | c in spare ensures spare[c] == SectorOf(m, disk', c) {
      assert FreeCluster(v.fat, c);
      AllocationKeepsFile(v.fat, c, slot);
      StoreKeepsCluster(m, v.disk, cs, data, c);
    }
  }

  /** A create makes exactly the cluster it takes no longer spare, and leaves the sectors of the others alone. */
  lemma SpareAfterCreate(m: MountInfo, v: View, name: DosName, size: u32, k: nat, first: u16, spare: map<nat, Sector>)
    requires Mounted(m, v) && SameSpare(m, v, spare) && k < Slots(m) && (first == 0 || FreeCluster(v.fat, first))
    ensures var v' := Created(m, v, name, size, k, first);
            Mounted(m, v') && SameSpare(m, v', if first == 0 then spare else spare - {first})
  {
    CreatedSectors(m, v, name, size, k, first);
    hide Created, Entry, SectorOf, FirstMirror, SecondMirror, SameSpare, SameData;
    var v' := Created(m, v, name, size, k, first);
    forall c: nat
      ensures FreeCluster(v'.fat, c) <==> c != first && FreeCluster(v.fat, c)
      ensures FreeCluster(v'.fat, c) ==> SectorOf(m, v'.disk, c) == SectorOf(m, v.disk, c)
    {
      if 2 <= c < 4084 { ClusterAfterCreate(m, v, name, size, k, first, c); }
    }
    hide FreeCluster;
    SpareShrinks(m, v, v', first, spare);
  }

  lemma SpareShrinks(m: MountInfo, v: View, v': View, first: nat, spare: map<nat, Sector>)
    requires Mounted(m, v) && Mounted(m, v') && SameSpare(m, v, spare)
    requires forall c: nat :: FreeCluster(v'.fat, c) <==> c != first && FreeCluster(v.fat, c)
    requires forall c: nat :: FreeCluster(v'.fat, c) ==> SectorOf(m, v'.disk, c) == SectorOf(m, v.disk, c)
    requires first == 0 ==> !FreeCluster(v.fat, 0)
    ensures SameSpare(m, v', if first == 0 then spare else spare - {first})
  {
    hide Entry, SectorOf;
    assert forall c: nat | c in spare :: FreeCluster(v.fat, c);
    assert first == 0 ==> forall c: nat :: FreeCluster(v.fat, c) ==> c != 0;
  }

  lemma ClusterAfterCreate(m: MountInfo, v: View, name: DosName, size: u32, k: nat, first: u16, c: u16)
    requires Mounted(m, v) && k < Slots(m) && (first == 0 || FreeCluster(v.fat, first)) && 2 <= c < 4084
    ensures var v' := Created(m, v, name, size, k, first);
            && Mounted(m, v')
            && (FreeCluster(v'.fat, c) <==> c != first && FreeCluster(v.fat, c))
            && SectorOf(m, v'.disk, c) == SectorOf(m, v.disk, c)
  {
    CreatedTable(m, v, name, size, k, first);
    CreatedSectors(m, v, name, size, k, first);
    hide Created, Entry, WithEntry, FirstMirror, SecondMirror, SectorOf, SameData;
    if first != 0 { FreeAfterAllocation(v.fat, first, c); }
    SectorOfSameData(m, v.disk, Created(m, v, name, size, k, first).disk, c);
  }

  lemma FreeAfterAllocation(fat: Fat, first: u16, c: u16)
    requires FreeCluster(fat, first) && 2 <= c < 4084
    ensures FreeCluster(WithEntry(fat, first, EOF), c) <==> c != first && FreeCluster(fat, c)
  {
    hide Entry, WithEntry;
    SetThenGet(fat, first, EOF);
    if c != first { SetKeepsOthers(fat, first, EOF, c); }
  }

  lemma SectorOfSameData(m: MountInfo, disk: seq<Sector>, disk': seq<Sector>, c: u16)
    requires ValidMount(m, |disk|) && SameData(m, disk, disk') && 2 <= c < EOF_MIN
    ensures SectorOf(m, disk', c) == SectorOf(m, disk, c)
  {
    LbaInRange(m, |disk|, c);
    hide Lba;
  }

  lemma CreatedTable(m: MountInfo, v: View, name: DosName, size: u32, k: nat, first: u16)
    requires Mounted(m, v) && k < Slots(m) && (first == 0 || FreeCluster(v.fat, first))
    ensures Created(m, v, name, size, k, first).fat == if first == 0 then v.fat else WithEntry(v.fat, first, EOF)
  {
  }

  lemma OpenRefines(m: MountInfo, s: System, a: Files, filename: CString, pageFree: bool)
    requires Refines(m, s, a) && CursorsFit(a)
    ensures var op := OpenOp(filename, pageFree);
            var (s', r), (a', r') := Step(m, s, op), Spec(m, a, op);
            Refines(m, s', a') && r == r'
  {
    hide GoodDirectory, GoodChains, FirstMirror, SameFiles, RootDir, LookupFrom, ToDos, FirstOf, SizeOf,
         LeastFreeFrom, FreeSlotFrom, SectorOf;
    var name := ToDos(filename);
    LookupIsMap(m, s.v, a.files, name);
    if name in a.files && pageFree {
      var k := Lookup(m, RootDir(m, s.v.disk), name).value;
      OpensAtStart(s.v.fat, FirstOf(RootDir(m, s.v.disk)[k]), RootDir(m, s.v.disk)[k]);
      assert SameCursor(m, s.v, Opened(RootDir(m, s.v.disk)[k]), Cursor(name, 0, 0, false));
    }
  }

  lemma OpensAtStart(fat: Fat, first: u16, slot: DirSlot)
    requires GoodFile(fat, slot) && first == FirstOf(slot)
    ensures AtIndex(fat, first, first, 0)
  {
    hide Entry;
    if first != 0 {
      ChainStarts(fat, first);
      ChainAt(fat, first, LIMIT);
      WalkAtEnd(fat, first, 0);
    }
  }

  lemma ReadRefines(m: MountInfo, s: System, a: Files, h: nat, size: u32)
    requires Refines(m, s, a) && CursorsFit(a)
    ensures var op := ReadOp(h, size);
            var (s', r), (a', r') := Step(m, s, op), Spec(m, a, op);
            Refines(m, s', a') && r == r'
  {
    hide GoodDirectory, GoodChains, FirstMirror, SameFiles, RootDir, LookupFrom, LeastFreeFrom, FreeSlotFrom,
         SectorOf, ReadData, AfterRead,
         ReadCursor, AtIndex, Gather, ChainOf, GoodChain;
    if h < |s.handles| {
      CursorFile(m, s, a, h);
      assert SameCursor(m, s.v, s.handles[h], a.cursors[h]);
      ReadAlong(m, s.v, s.handles[h], a.cursors[h], size);
      ReadKeeps(m, s.v, s.handles[h], size);
    }
  }

  lemma ReadKeeps(m: MountInfo, v: View, h: Handle, size: u32)
    requires Mounted(m, v)
    ensures AfterRead(m, v, h, size).firstCluster == h.firstCluster && AfterRead(m, v, h, size).fileSize == h.fileSize
  {
    hide ReadData;
  }

  lemma WriteRefines(m: MountInfo, s: System, a: Files, h: nat, data: seq<byte>)
    requires Refines(m, s, a) && CursorsFit(a) && Proper(m, a, WriteOp(h, data))
    ensures var op := WriteOp(h, data);
            var (s', r), (a', r') := Step(m, s, op), Spec(m, a, op);
            Refines(m, s', a') && r == r'
  {
    hide RootDir, LookupFrom, LeastFreeFrom, FreeSlotFrom, SectorOf, GoodDirectory, GoodChains, FirstMirror, SameFiles,
         AfterWrite, AtIndex, Gather, ChainOf, GoodChain, Overlay, Store;
    if h < |s.handles| {
      var handle, c := s.handles[h], a.cursors[h];
      var slots := RootDir(m, s.v.disk);
      CursorFile(m, s, a, h);
      WriteAlong(m, s.v, handle, data);
      LookupIsMap(m, s.v, a.files, c.name);
      assert SameCursor(m, s.v, handle, c);
      var k := Lookup(m, slots, c.name).value;
      var v' := AfterWrite(m, s.v, handle, data).0;
      WriteOneFile(m, s.v, k, data, v');
      WrittenFiles(m, s.v, v', a.files, k, data);
      SpareAfterWrite(m, s.v, slots[k], data, a.spare);
    }
  }

  lemma WrittenFiles(m: MountInfo, v: View, v': View, files: map<DosName, File>, k: nat, data: seq<byte>)
    requires WellFormed(m, v) && SameFiles(m, v, files) && WellFormed(m, v')
    requires k < Slots(m) && Live(m, RootDir(m, v.disk)[k])
    requires RootDir(m, v'.disk) == RootDir(m, v.disk)
    requires var slots := RootDir(m, v.disk);
             && FileIn(m, v', slots[k]).raw == Overlay(FileIn(m, v, slots[k]).raw, data)
             && forall j | 0 <= j < |slots| && j != k && Live(m, slots[j]) ::
                  FileIn(m, v', slots[j]) == FileIn(m, v, slots[j])
    ensures var name := NameOf(RootDir(m, v.disk)[k]);
            && name in files
            && SameFiles(m, v', files[name := files[name].(raw := Overlay(files[name].raw, data))])
  {
    hide RootDir, LookupFrom, Gather, ChainOf, Overlay, GoodChains;
    var slots := RootDir(m, v.disk);
    var name := NameOf(slots[k]);
    LookupFinds(m, slots, name, k);
    forall j | 0 <= j < |slots| && j != k && Live(m, slots[j]) ensures NameOf(slots[j]) != name {
      LookupFinds(m, slots, name, j);
    }
  }

  /** Create answers as the map does, proper or not, and takes the cluster the map takes. */
  lemma CreateAnswers(m: MountInfo, v: View, a: Files, name: DosName, size: u32, pageFree: bool)
    requires WellFormed(m, v) && SameFiles(m, v, a.files) && SameRoom(m, v, a)
    ensures Status(Create(m, v, name, size, pageFree).0) == SpecCreate(m, a, name, size, pageFree).1
    ensures LeastFree(v.fat) == Lowest(a.spare)
    ensures Create(m, v, name, size, pageFree).0 != 0 ==>
              Create(m, v, name, size, pageFree).1 == v && SpecCreate(m, a, name, size, pageFree).0 == a
  {
    hide RootDir, LookupFrom, LeastFreeFrom, FreeSlotFrom, LowestFrom, SectorOf, GoodDirectory, GoodChains,
         FirstMirror, Created, Gather, ChainOf, GoodChain, FirstOf, SizeOf, FreeSlots;
    LookupIsMap(m, v, a.files, name);
    LeastIsLowest(m, v, a.spare, 2);
    RoomIsFreeSlot(m, RootDir(m, v.disk));
  }

  lemma CreateRefines(m: MountInfo, s: System, a: Files, filename: CString, size: u32, pageFree: bool)
    requires Refines(m, s, a) && CursorsFit(a) && Proper(m, a, CreateOp(filename, size, pageFree))
    ensures var op := CreateOp(filename, size, pageFree);
            var (s', r), (a', r') := Step(m, s, op), Spec(m, a, op);
            Refines(m, s', a') && r == r'
  {
    var name := ToDos(filename);
    CreateAnswers(m, s.v, a, name, size, pageFree);
    if Create(m, s.v, name, size, pageFree).0 == 0 {
      var k, first := CreateChoice(m, s.v, name, size, pageFree);
      ToDosIsClean(filename);
      CreateKeepsWellFormedIff(m, s.v, name, size, pageFree);
      LookupIsMap(m, s.v, a.files, name);
      hide RootDir, LookupFrom, LeastFreeFrom, FreeSlotFrom, LowestFrom, SectorOf, Refines, ToDos, Created,
           ClustersNeeded;
      CreatedRefines(m, s, a, Created(m, s.v, name, size, k, first), name, size, k, first);
      hide Create, SpecCreate, FilesAfter;
      SpecCreateIs(m, s.v, a, name, size, pageFree, first);
    }
  }

  lemma SpecCreateIs(m: MountInfo, v: View, a: Files, name: DosName, size: u32, pageFree: bool, first: u16)
    requires Mounted(m, v) && SpecCreate(m, a, name, size, pageFree).1 == Status(0) && first < EOF_MIN && a.room > 0
    requires first == if ClustersNeeded(size) == 0 then 0 else Lowest(a.spare)
    requires first != 0 ==> first in a.spare && a.spare[first] == SectorOf(m, v.disk, first)
    ensures SpecCreate(m, a, name, size, pageFree).0
         == a.(files := FilesAfter(m, v, a.files, name, size, first),
               room := if MarksDeleted(m, name[0]) then a.room else a.room - 1,
               spare := if first == 0 then a.spare else a.spare - {first})
  {
    hide SectorOf, LowestFrom, ClustersNeeded;
  }

  lemma CreatedRefines(m: MountInfo, s: System, a: Files, v': View, name: DosName, size: u32, k: nat, first: u16)
    requires Refines(m, s, a) && name[0] != 0 && (name in a.files ==> MarksDeleted(m, name[0]))
    requires FreeSlot(m, RootDir(m, s.v.disk)) == Some(k) && k < Slots(m)
    requires first == 0 || FreeCluster(s.v.fat, first)
    requires v' == Created(m, s.v, name, size, k, first) && WellFormed(m, v')
    ensures a.room > 0 && (first != 0 ==> first in a.spare && a.spare[first] == SectorOf(m, s.v.disk, first))
    ensures Refines(m, s.(v := v'),
                    a.(files := FilesAfter(m, s.v, a.files, name, size, first),
                       room := if MarksDeleted(m, name[0]) then a.room else a.room - 1,
                       spare := if first == 0 then a.spare else a.spare - {first}))
  {
    hide RootDir, FreeSlotFrom, WellFormed, SameFiles, SameSpare, SectorOf, Created, SameCursor, FreeSlots,
         FilesAfter;
    CreatedFiles(m, s.v, v', a, name, size, k, first);
    CreatedRoom(m, s.v, v', a, name, size, k, first);
    forall i | 0 <= i < |s.handles| ensures SameCursor(m, v', s.handles[i], a.cursors[i]) {
      CreateKeepsCursor(m, s.v, v', name, size, k, first, s.handles[i], a.cursors[i]);
    }
  }

  /** The files after a successful create: those of before, and the new one unless it reads as deleted. */
  function FilesAfter(m: MountInfo, v: View, files: map<DosName, File>, name: DosName, size: u32,
      first: u16): map<DosName, File>
    requires Mounted(m, v) && first < EOF_MIN
  {
    if MarksDeleted(m, name[0]) then files
    else files[name := File(if first == 0 then [] else SectorOf(m, v.disk, first), size)]
  }

  lemma CreatedFiles(m: MountInfo, v: View, v': View, a: Files, name: DosName, size: u32, k: nat, first: u16)
    requires WellFormed(m, v) && SameFiles(m, v, a.files) && (name in a.files ==> MarksDeleted(m, name[0]))
    requires FreeSlot(m, RootDir(m, v.disk)) == Some(k) && k < Slots(m) && (first == 0 || FreeCluster(v.fat, first))
    requires v' == Created(m, v, name, size, k, first) && WellFormed(m, v') && name[0] != 0
    ensures SameFiles(m, v', FilesAfter(m, v, a.files, name, size, first))
  {
    hide RootDir, LookupFrom, FreeSlotFrom, Created, Gather, ChainOf, GoodChain, FirstOf, SizeOf, NewSlot, SectorOf,
         GoodFile, FileIn, GoodDirectory, GoodChains, FirstMirror;
    var slots, slots' := RootDir(m, v.disk), RootDir(m, v'.disk);
    OldFilesKept(m, v, v', a.files, name, size, k, first);
    NewFile(m, v, v', name, size, k, first);
    forall n | n in FilesAfter(m, v, a.files, name, size, first) ensures Lookup(m, slots', n).Some? {
      LookupAfter(m, v, v', a.files, name, size, k, first, n);
    }
  }

  lemma OldFilesKept(m: MountInfo, v: View, v': View, files: map<DosName, File>, name: DosName, size: u32, k: nat,
      first: u16)
    requires WellFormed(m, v) && SameFiles(m, v, files) && (name in files ==> MarksDeleted(m, name[0]))
    requires FreeSlot(m, RootDir(m, v.disk)) == Some(k) && k < Slots(m) && (first == 0 || FreeCluster(v.fat, first))
    requires v' == Created(m, v, name, size, k, first)
    ensures Mounted(m, v')
    ensures var slots, slots' := RootDir(m, v.disk), RootDir(m, v'.disk);
            && slots' == slots[k := NewSlot(slots[k], name, first, size)] && !Live(m, slots[k])
            && forall j | 0 <= j < |slots| && Live(m, slots[j]) ::
                 && j != k && slots'[j] == slots[j] && FileIn(m, v', slots[j]) == FileIn(m, v, slots[j])
                 && NameOf(slots[j]) != name
  {
    hide RootDir, LookupFrom, FreeSlotFrom, Created, Gather, ChainOf, GoodChain, FirstOf, SizeOf, NewSlot, SectorOf,
         GoodFile, FileIn, GoodDirectory, FirstMirror;
    CreatedSlots(m, v, name, size, k, first);
    FreeSlotIsFirst(m, RootDir(m, v.disk), 0);
    var slots := RootDir(m, v.disk);
    forall j | 0 <= j < |slots| && Live(m, slots[j])
      ensures j != k && FileIn(m, Created(m, v, name, size, k, first), slots[j]) == FileIn(m, v, slots[j])
      ensures NameOf(slots[j]) != name
    {
      assert NameOf(slots[j])[0] == slots[j][0];
      CreatedKeepsFile(m, v, name, size, k, first, slots[j]);
    }
  }

  lemma NewFile(m: MountInfo, v: View, v': View, name: DosName, size: u32, k: nat, first: u16)
    requires Mounted(m, v) && k < Slots(m) && (first == 0 || FreeCluster(v.fat, first))
    requires v' == Created(m, v, name, size, k, first) && name[0] != 0
    ensures var slot := NewSlot(RootDir(m, v.disk)[k], name, first, size);
            && Mounted(m, v') && NameOf(slot) == name
            && (Live(m, slot) <==> !MarksDeleted(m, name[0]))
            && FileIn(m, v', slot) == File(if first == 0 then [] else SectorOf(m, v.disk, first), size)
  {
    hide RootDir, Created, Gather, ChainOf, FirstOf, SizeOf, SectorOf, GoodFile, FileIn;
    var slot := NewSlot(RootDir(m, v.disk)[k], name, first, size);
    CreatedFile(m, v, name, size, k, first);
    assert slot[0] == name[0] by { assert NameOf(slot)[0] == slot[0]; }
  }

  lemma LookupAfter(m: MountInfo, v: View, v': View, files: map<DosName, File>, name: DosName, size: u32, k: nat,
      first: u16, n: DosName)
    requires WellFormed(m, v) && SameFiles(m, v, files) && (name in files ==> MarksDeleted(m, name[0]))
    requires FreeSlot(m, RootDir(m, v.disk)) == Some(k) && k < Slots(m) && (first == 0 || FreeCluster(v.fat, first))
    requires v' == Created(m, v, name, size, k, first) && WellFormed(m, v') && name[0] != 0
    requires n in files || (n == name && !MarksDeleted(m, name[0]))
    ensures Lookup(m, RootDir(m, v'.disk), n).Some?
  {
    hide RootDir, LookupFrom, FreeSlotFrom, Created, Gather, ChainOf, GoodChains, NewSlot, SectorOf, FileIn,
         FirstMirror, GoodDirectory;
    OldFilesKept(m, v, v', files, name, size, k, first);
    NewFile(m, v, v', name, size, k, first);
    var j := if n in files then Lookup(m, RootDir(m, v.disk), n).value else k;
    LookupFinds(m, RootDir(m, v'.disk), n, j);
  }

  lemma CreatedRoom(m: MountInfo, v: View, v': View, a: Files, name: DosName, size: u32, k: nat, first: u16)
    requires WellFormed(m, v) && SameRoom(m, v, a) && name[0] != 0
    requires FreeSlot(m, RootDir(m, v.disk)) == Some(k) && k < Slots(m) && (first == 0 || FreeCluster(v.fat, first))
    requires v' == Created(m, v, name, size, k, first)
    ensures Mounted(m, v') && a.room > 0
    ensures |FreeSlots(m, RootDir(m, v'.disk))| == a.room - (if MarksDeleted(m, name[0]) then 0 else 1)
    ensures SameSpare(m, v', if first == 0 then a.spare else a.spare - {first})
    ensures first != 0 ==> first in a.spare && a.spare[first] == SectorOf(m, v.disk, first)
  {
    hide RootDir, FreeSlotFrom, Created, NewSlot, SectorOf, FileIn, GoodDirectory, GoodChains, FirstMirror, FreeSlots;
    var slots := RootDir(m, v.disk);
    FreeSlotIsFirst(m, slots, 0);
    RoomIsFreeSlot(m, slots);
    CreatedSlots(m, v, name, size, k, first);
    NewFile(m, v, v', name, size, k, first);
    RoomAfter(m, slots, k, NewSlot(slots[k], name, first, size));
    SpareAfterCreate(m, v, name, size, k, first, a.spare);
  }

  lemma CreateKeepsCursor(m: MountInfo, v: View, v': View, name: DosName, size: u32, k: nat, first: u16, h: Handle,
      c: Cursor)
    requires WellFormed(m, v) && SameCursor(m, v, h, c)
    requires FreeSlot(m, RootDir(m, v.disk)) == Some(k) && k < Slots(m) && (first == 0 || FreeCluster(v.fat, first))
    requires v' == Created(m, v, name, size, k, first) && WellFormed(m, v')
    ensures SameCursor(m, v', h, c)
  {
    hide RootDir, LookupFrom, FreeSlotFrom, Created, Gather, ChainOf, GoodChain, FirstOf, SizeOf, NewSlot, GoodFile;
    var slots, slots' := RootDir(m, v.disk), RootDir(m, v'.disk);
    var j := Lookup(m, slots, c.name).value;
    CreatedSlots(m, v, name, size, k, first);
    FreeSlotIsFirst(m, slots, 0);
    CreatedKeepsFile(m, v, name, size, k, first, slots[j]);
    LookupFinds(m, slots', c.name, j);
  }

  /** One proper call: the driver answers as the map does, and still refines it afterwards. */
  lemma StepRefines(m: MountInfo, s: System, a: Files, op: Op)
    requires Refines(m, s, a) && Proper(m, a, op)
    ensures CursorsFit(a)
    ensures var (s', r), (a', r') := Step(m, s, op), Spec(m, a, op);
            Refines(m, s', a') && r == r'
  {
    hide Refines, Proper, Spec, Step;
    RefinesFits(m, s, a);
    match op
    case CreateOp(filename, size, pageFree) => CreateRefines(m, s, a, filename, size, pageFree);
    case OpenOp(filename, pageFree) => OpenRefines(m, s, a, filename, pageFree);
    case ReadOp(h, size) => ReadRefines(m, s, a, h, size);
    case WriteOp(h, data) => WriteRefines(m, s, a, h, data);
  }

  // ----- whole runs

  /** The replies of the driver to a list of calls, and the system it leaves. */
  function Run(m: MountInfo, s: System, ops: seq<Op>): (r: (System, seq<Reply>))
    requires Mounted(m, s.v)
    ensures Mounted(m, r.0.v)
    decreases |ops|
  {
    hide Step;
    if ops == [] then (s, [])
    else
      var (s', reply) := Step(m, s, ops[0]);
      var (t, replies) := Run(m, s', ops[1..]);
      (t, [reply] + replies)
  }

  /** The map's own run. */
  function SpecRun(m: MountInfo, a: Files, ops: seq<Op>): (Files, seq<Reply>)
    decreases |ops|
  {
    if ops == [] || !CursorsFit(a) then (a, [])
    else
      var (a', reply) := Spec(m, a, ops[0]);
      var (b, replies) := SpecRun(m, a', ops[1..]);
      (b, [reply] + replies)
  }

  /** Every call of the run is proper when it is made. */
  predicate ProperRun(m: MountInfo, a: Files, ops: seq<Op>)
    decreases |ops|
  {
    ops == [] || (Proper(m, a, ops[0]) && CursorsFit(a) && ProperRun(m, Spec(m, a, ops[0]).0, ops[1..]))
  }

  /** Over every run of proper calls from a well-formed volume, the disk answers as the map of files
      does, call by call, and refines it at the end. */
  lemma {:induction false} RunRefines(m: MountInfo, s: System, a: Files, ops: seq<Op>)
    requires Refines(m, s, a) && ProperRun(m, a, ops)
    ensures var ((t, replies), (b, expected)) := (Run(m, s, ops), SpecRun(m, a, ops));
            Refines(m, t, b) && |replies| == |ops| && replies == expected
    decreases |ops|
  {
    hide GoodDirectory, GoodChains, FirstMirror, SameFiles, SameRoom, SameCursor, Proper, Spec, Step;
    if ops != [] {
      StepRefines(m, s, a, ops[0]);
      RunRefines(m, Step(m, s, ops[0]).0, Spec(m, a, ops[0]).0, ops[1..]);
    }
  }
}
