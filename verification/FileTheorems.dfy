/** What users of the file system are promised, read off the refinement, and where the driver's
    promises stop, stated as exact conditions. */
module FileTheorems {
  import opened Bits
  import opened Options
  import opened FatTable
  import opened Chains
  import opened DosNames
  import opened Volume
  import opened VolumeInvariant
  import opened DiskLayout
  import opened Refinement

  // ----- mounting

  /** The map a well-formed volume stands for. */
  function FilesOf(m: MountInfo, v: View): map<DosName, File>
    requires Mounted(m, v)
  {
    var slots := RootDir(m, v.disk);
    map n | n in (set k | 0 <= k < |slots| && Live(m, slots[k]) :: NameOf(slots[k])) && Lookup(m, slots, n).Some?
      :: FileIn(m, v, slots[Lookup(m, slots, n).value])
  }

  function SpareOf(m: MountInfo, v: View): map<nat, Sector>
    requires Mounted(m, v)
  {
    map c: nat | 2 <= c < 4084 && FreeCluster(v.fat, c) :: SectorOf(m, v.disk, c)
  }

  /** What a well-formed volume stands for, with no handles given out. */
  function AbstractOf(m: MountInfo, v: View): Files
    requires Mounted(m, v)
  {
    Files(FilesOf(m, v), [], |FreeSlots(m, RootDir(m, v.disk))|, SpareOf(m, v))
  }

  /** Every well-formed volume refines its map, so the theorem about runs applies to all of them. */
  lemma WellFormedRefines(m: MountInfo, v: View)
    requires WellFormed(m, v)
    ensures Refines(m, System(v, []), AbstractOf(m, v))
  {
    hide RootDir, LookupFrom, Gather, ChainOf, FirstOf, SizeOf, GoodChains, FirstMirror, SectorOf, Entry, FreeSlots;
    var slots := RootDir(m, v.disk);
    forall k | 0 <= k < |slots| && Live(m, slots[k])
      ensures NameOf(slots[k]) in FilesOf(m, v) && FilesOf(m, v)[NameOf(slots[k])] == FileIn(m, v, slots[k])
    {
      LookupFinds(m, slots, NameOf(slots[k]), k);
    }
  }

  /** A freshly formatted volume, once mounted, is well formed and stands for no files and room for as many as the
      directory has slots. */
  lemma FormattedIsEmpty(m: MountInfo, v: View)
    requires Mounted(m, v) && FirstMirror(m, v)
    requires forall slot <- RootDir(m, v.disk) :: IsEnd(slot)
    ensures WellFormed(m, v) && FilesOf(m, v) == map[] && AbstractOf(m, v).room == Slots(m)
    ensures Refines(m, System(v, []), Files(map[], [], Slots(m), SpareOf(m, v)))
  {
    var slots := RootDir(m, v.disk);
    hide RootDir, FirstMirror, LookupFrom, SpareOf;
    assert forall k | 0 <= k < |slots| :: slots[k] in slots;
    AllFree(m, slots);
    WellFormedRefines(m, v);
  }

  lemma {:induction false} AllFree(m: MountInfo, slots: seq<DirSlot>)
    requires forall slot <- slots :: IsEnd(slot)
    ensures |FreeSlots(m, slots)| == |slots|
    decreases |slots|
  {
    if slots == [] {
      assert FreeSlots(m, slots) == {};
    } else {
      var n := |slots| - 1;
      AllFree(m, slots[..n]);
      assert IsEnd(slots[n]) by { assert slots[n] in slots; }
      assert FreeSlots(m, slots) == FreeSlots(m, slots[..n]) + {n};
    }
  }

  // ----- saving and loading

  /** Open, write, open again and read, h being the number the first open hands out. */
  function SaveAndLoad(filename: CString, h: nat, data: seq<byte>, size: u32): seq<Op> {
    [OpenOp(filename, true)] + ([WriteOp(h, data)] + ([OpenOp(filename, true)] + ([ReadOp(h + 1, size)] + [])))
  }

  /** Writing to a file through one handle and reading it through a fresh one gives the written bytes,
      zeros up to the end of the last sector written, then the old bytes, cut to the file's size;
      every other file is as it was. */
  lemma SaveThenLoad(m: MountInfo, s: System, a: Files, filename: CString, data: seq<byte>,
      size: u32) returns (b: Files)
    requires Mounted(m, s.v) && Refines(m, s, a) && ToDos(filename) in a.files
    requires a.files[ToDos(filename)].raw == [] ==> data == []
    ensures var f := a.files[ToDos(filename)];
            var g := f.(raw := Overlay(f.raw, data));
            var (t, replies) := Run(m, s, SaveAndLoad(filename, |a.cursors|, data, size));
            && replies == [Handed(true), Put(Min(|data|, |f.raw|)), Handed(true),
                           Got(g.raw[..Min(size, Min(g.size, |g.raw|))])]
            && Refines(m, t, b) && b.files == a.files[ToDos(filename) := g]
  {
    hide Refines, Overlay, Step, Run;
    var name, h := ToDos(filename), |a.cursors|;
    var f := a.files[name];
    var g := f.(raw := Overlay(f.raw, data));
    var open, write, read := OpenOp(filename, true), WriteOp(h, data), ReadOp(h + 1, size);
    var start := Cursor(name, 0, 0, false);
    StepRefines(m, s, a, open);
    var s1, a1 := Step(m, s, open).0, a.(cursors := a.cursors + [start]);
    StepRefines(m, s1, a1, write);
    var s2, a2 := Step(m, s1, write).0, Spec(m, a1, write).0;
    assert a2.files == a.files[name := g] && |a2.cursors| == h + 1;
    StepRefines(m, s2, a2, open);
    var s3, a3 := Step(m, s2, open).0, a2.(cursors := a2.cursors + [start]);
    assert a3.cursors[h + 1] == start && a3.files[name] == g;
    StepRefines(m, s3, a3, read);
    var s4 := Step(m, s3, read).0;
    b := Spec(m, a3, read).0;
    RunNone(m, s4);
    RunCons(m, s3, read, []);
    RunCons(m, s2, open, [read] + []);
    RunCons(m, s1, write, [open] + ([read] + []));
    RunCons(m, s, open, [write] + ([open] + ([read] + [])));
  }

  lemma RunNone(m: MountInfo, s: System)
    requires Mounted(m, s.v)
    ensures Run(m, s, []) == (s, [])
  {
  }

  lemma RunCons(m: MountInfo, s: System, op: Op, ops: seq<Op>)
    requires Mounted(m, s.v)
    ensures var (s', x) := Step(m, s, op);
            var (t, xs) := Run(m, s', ops);
            Run(m, s, [op] + ops) == (t, [x] + xs)
  {
    hide Step;
    assert ([op] + ops)[1..] == ops;
  }

  // ----- what is read

  /** A read delivers as many bytes as are asked for, are left of the size and are left on the chain, whichever is
      least; they are the file's bytes from the cluster the handle stands at; the handle moves on by whole clusters,
      and its flag says whether that took it to the end. */
  lemma ReadMeans(f: File, c: Cursor, size: u32)
    requires c.position <= f.size && 512 * c.index <= |f.raw| && |f.raw| % 512 == 0
    ensures c.eof ==> ReadCursor(f, c, size) == ([], c)
    ensures !c.eof ==>
              var (bytes, d) := ReadCursor(f, c, size);
              && |bytes| <= size && |bytes| <= f.size - c.position && |bytes| <= |f.raw| - 512 * c.index
              && (|bytes| == size || |bytes| == f.size - c.position || |bytes| == |f.raw| - 512 * c.index)
              && (forall i | 0 <= i < |bytes| :: bytes[i] == f.raw[512 * c.index + i])
              && d.name == c.name && d.position == c.position + |bytes|
              && d.index >= c.index && 512 * (d.index - c.index) - 512 < |bytes| <= 512 * (d.index - c.index)
              && (d.eof <==> |f.raw| > 0 && 512 * d.index == |f.raw|)
  {
  }

  // ----- reading in pieces

  function ReadTwice(f: File, c: Cursor, x: u32, y: u32): (seq<byte>, Cursor)
    requires c.position <= f.size && 512 * c.index <= |f.raw| && |f.raw| % 512 == 0
  {
    var (first, d) := ReadCursor(f, c, x);
    var (second, e) := ReadCursor(f, d, y);
    (first + second, e)
  }

  /** When reading x bytes and then y bytes is reading x + y bytes: checked before the call. */
  predicate SplitsCleanly(size: u32, length: nat, c: Cursor, x: u32, y: u32)
    requires c.position <= size && 512 * c.index <= length
  {
    c.eof || x % 512 == 0 || y == 0 || x >= size - c.position || x >= length - 512 * c.index
  }

  lemma CleanSplit(f: File, c: Cursor, x: u32, y: u32)
    requires c.position <= f.size && 512 * c.index <= |f.raw| && |f.raw| % 512 == 0 && x + y < 0x1_0000_0000
    requires SplitsCleanly(f.size, |f.raw|, c, x, y)
    ensures ReadTwice(f, c, x, y) == ReadCursor(f, c, x + y)
  {
    hide SectorCount;
    var rem, ahead := f.size - c.position, |f.raw| - 512 * c.index;
    var n := Min(Min(x, rem), ahead);
    if c.eof {
      assert ReadTwice(f, c, x, y).0 == [];
    } else if y > 0 && n < rem && n < ahead {
      assert n == x && x % 512 == 0;
      WholeSectors(x, Min(Min(x + y, rem), ahead) - x);
      var d := ReadCursor(f, c, x).1;
      assert 512 * d.index == 512 * c.index + x && !d.eof;
      Adjoining(f.raw, 512 * c.index, x, Min(Min(x + y, rem), ahead) - x);
    } else {
      NothingLeft(f, c, x, y);
    }
  }

  lemma WholeSectors(x: nat, y: nat)
    requires x % 512 == 0
    ensures 512 * SectorCount(x) == x && SectorCount(x) + SectorCount(y) == SectorCount(x + y)
  {
  }

  lemma Adjoining(raw: seq<byte>, start: nat, x: nat, y: nat)
    requires start + x + y <= |raw|
    ensures raw[start..start + x] + raw[start + x..start + x + y] == raw[start..start + x + y]
  {
  }

  /** When the first read already took all there is, or the second asks for nothing, the second adds nothing. */
  lemma NothingLeft(f: File, c: Cursor, x: u32, y: u32)
    requires c.position <= f.size && 512 * c.index <= |f.raw| && |f.raw| % 512 == 0 && x + y < 0x1_0000_0000
    requires !c.eof
    requires var n := Min(Min(x, f.size - c.position), |f.raw| - 512 * c.index);
             y == 0 || n == f.size - c.position || n == |f.raw| - 512 * c.index
    ensures ReadTwice(f, c, x, y) == ReadCursor(f, c, x + y)
  {
    hide SectorCount;
    NoSectors();
    var d := ReadCursor(f, c, x).1;
    if 0 < |f.raw| && |ReadCursor(f, c, x).0| == |f.raw| - 512 * c.index {
      ToTheEnd(|f.raw| - 512 * c.index);
      assert d.eof;
    } else {
      assert y == 0 || d.position == f.size || |f.raw| == 0;
    }
    assert ReadCursor(f, d, y) == ([], d);
    var first := ReadCursor(f, c, x).0;
    assert ReadCursor(f, c, x + y) == (first, d);
    assert first + [] == first;
  }

  lemma ToTheEnd(n: nat)
    requires n % 512 == 0
    ensures 512 * SectorCount(n) == n
  {
  }

  /** Contents on which an unclean split shows. */
  function Marked(length: nat, at: nat): (r: seq<byte>)
    ensures |r| == length && forall i | 0 <= i < length :: r[i] == if i == at then 1 else 0
  {
    seq(length, i => if i == at then 1 else 0)
  }

  lemma UncleanSplit(size: u32, length: nat, c: Cursor, x: u32, y: u32)
    requires c.position <= size && 512 * c.index <= length && length % 512 == 0 && x + y < 0x1_0000_0000
    requires !SplitsCleanly(size, length, c, x, y)
    ensures var f := File(Marked(length, 512 * c.index + x), size);
            ReadTwice(f, c, x, y).0 != ReadCursor(f, c, x + y).0
  {
    var f := File(Marked(length, 512 * c.index + x), size);
    var start := 512 * c.index;
    var (first, d) := ReadCursor(f, c, x);
    var (second, e) := ReadCursor(f, d, y);
    assert |first| == x && 512 * d.index > start + x;
    var both := ReadCursor(f, c, x + y).0;
    assert |both| > x && both[x] == f.raw[start + x] == 1;
    if |second| > 0 {
      assert (first + second)[x] == second[0] == f.raw[512 * d.index] == 0;
    }
  }

  /** Two reads through one handle give what one read would, whatever the file holds, exactly when
      the first count is a multiple of 512 or nothing is left for the second. */
  lemma SplitReadIff(size: u32, length: nat, c: Cursor, x: u32, y: u32)
    requires c.position <= size && 512 * c.index <= length && length % 512 == 0 && x + y < 0x1_0000_0000
    ensures SplitsCleanly(size, length, c, x, y) <==>
            forall raw: seq<byte> | |raw| == length ::
              ReadTwice(File(raw, size), c, x, y).0 == ReadCursor(File(raw, size), c, x + y).0
  {
    hide ReadTwice, ReadCursor;
    if SplitsCleanly(size, length, c, x, y) {
      forall raw: seq<byte> | |raw| == length
        ensures ReadTwice(File(raw, size), c, x, y).0 == ReadCursor(File(raw, size), c, x + y).0
      {
        CleanSplit(File(raw, size), c, x, y);
      }
    } else {
      UncleanSplit(size, length, c, x, y);
    }
  }

  /** On the disk: two clean reads through one handle return together what one read would return. */
  lemma DriverSplitRead(m: MountInfo, s: System, a: Files, h: nat, x: u32, y: u32)
    requires Mounted(m, s.v) && Refines(m, s, a) && h < |a.cursors| && x + y < 0x1_0000_0000
    requires var c := a.cursors[h];
             && c.name in a.files && c.position <= a.files[c.name].size && 512 * c.index <= |a.files[c.name].raw|
             && SplitsCleanly(a.files[c.name].size, |a.files[c.name].raw|, c, x, y)
    ensures var (s1, r1) := Step(m, s, ReadOp(h, x));
            var (s2, r2) := Step(m, s1, ReadOp(h, y));
            var r := Step(m, s, ReadOp(h, x + y)).1;
            r1.Got? && r2.Got? && r == Got(r1.bytes + r2.bytes)
  {
    hide Refines, Step, ReadCursor;
    var c := a.cursors[h];
    var f := a.files[c.name];
    CursorWhole(m, s, a, h);
    CleanSplit(f, c, x, y);
    var whole := ReadReply(m, s, a, h, x + y);
    var once := ReadReply(m, s, a, h, x);
    var twice := ReadReply(m, Step(m, s, ReadOp(h, x)).0, once, h, y);
  }

  /** A read on the disk is a read of the file's cursor in the map. */
  lemma ReadReply(m: MountInfo, s: System, a: Files, h: nat, x: u32) returns (b: Files)
    requires Mounted(m, s.v) && Refines(m, s, a) && h < |a.cursors|
    ensures CursorsFit(a)
    ensures var (bytes, c) := ReadCursor(a.files[a.cursors[h].name], a.cursors[h], x);
            && Step(m, s, ReadOp(h, x)).1 == Got(bytes)
            && b == a.(cursors := a.cursors[h := c])
    ensures Refines(m, Step(m, s, ReadOp(h, x)).0, b)
  {
    hide Refines, Step, ReadCursor;
    StepRefines(m, s, a, ReadOp(h, x));
    b := Spec(m, a, ReadOp(h, x)).0;
  }

  lemma CursorWhole(m: MountInfo, s: System, a: Files, h: nat)
    requires Refines(m, s, a) && h < |a.cursors|
    ensures a.cursors[h].name in a.files && |a.files[a.cursors[h].name].raw| % 512 == 0
  {
    hide WellFormed, SameFiles, SameCursor, Gather, ChainOf, GoodChain, FirstOf, SizeOf;
    CursorFile(m, s, a, h);
  }

  // ----- creating

  /** A successful create of a size needing clusters changes exactly one table entry, the least free
      cluster from 2 to 4083, from 0 to 0xFFF; one needing none changes no entry. */
  lemma CreateChangesOneEntry(m: MountInfo, v: View, name: DosName, size: u32, pageFree: bool, c: u16)
    requires Mounted(m, v) && InTable(v.fat, c) && Create(m, v, name, size, pageFree).0 == 0
    ensures var fat' := Create(m, v, name, size, pageFree).1.fat;
            if 0 < size <= 0x1_0000_0000 - 512
               && 2 <= c < 4084 && Entry(v.fat, c) == 0 && (forall d: u16 | 2 <= d < c :: Entry(v.fat, d) != 0)
            then Entry(fat', c) == 0xFFF
            else Entry(fat', c) == Entry(v.fat, c)
  {
    hide Create, Created, Entry, WithEntry, RootDir, FreeSlotFrom, LeastFreeFrom;
    var k, first := CreateChoice(m, v, name, size, pageFree);
    NoClusterNeeded(size);
    CreatedTable(m, v, name, size, k, first);
    if first != 0 {
      SetThenGet(v.fat, first, EOF);
      LeastFreeMeans(v.fat);
      if c != first {
        SetKeepsOthers(v.fat, first, EOF, c);
      }
    }
  }

  /** However many rounds the allocation loop makes, the new chain has one cluster, so it has room for
      the size asked for exactly when that is at most 512 bytes. */
  lemma CreatedRoomIff(m: MountInfo, v: View, name: DosName, size: u32, pageFree: bool)
    requires WellFormed(m, v) && Create(m, v, name, size, pageFree).0 == 0
    ensures var (k, v') := (FreeSlot(m, RootDir(m, v.disk)), Create(m, v, name, size, pageFree).1);
            && k.Some?
            && SizeOf(RootDir(m, v'.disk)[k.value]) == size
            && (size <= |FileIn(m, v', RootDir(m, v'.disk)[k.value]).raw| <==> size <= 512)
  {
    hide Create, Created, RootDir, FreeSlotFrom, Gather, NewSlot, ChainOf;
    var k, first := CreateChoice(m, v, name, size, pageFree);
    CreatedSlots(m, v, name, size, k, first);
    CreatedFile(m, v, name, size, k, first);
    NoClusterNeeded(size);
  }

  /** Calls by names that differ only in the case of letters are the same call. */
  lemma AnyCase(m: MountInfo, s: System, f: CString, g: CString, size: u32, pageFree: bool)
    requires Mounted(m, s.v) && SameButCase(f, g)
    ensures Step(m, s, OpenOp(f, pageFree)) == Step(m, s, OpenOp(g, pageFree))
    ensures Step(m, s, CreateOp(f, size, pageFree)) == Step(m, s, CreateOp(g, size, pageFree))
  {
    CaseDoesNotMatter(f, g);
    hide ToDos, Create, Open, SameButCase;
  }

  /** After a successful create of a new name, open finds the entry with its first cluster and size, by the same name
      with its letters in any case, unless the name starts with the byte that reads as deleted. */
  lemma CreateThenOpenIff(m: MountInfo, v: View, filename: CString, again: CString, size: u32, pageFree: bool)
    requires WellFormed(m, v) && Lookup(m, RootDir(m, v.disk), ToDos(filename)).None?
    requires SameButCase(filename, again)
    requires Create(m, v, ToDos(filename), size, pageFree).0 == 0
    ensures var name := ToDos(filename);
            var first := if ClustersNeeded(size) == 0 then 0 else LeastFree(v.fat);
            var v' := Create(m, v, name, size, pageFree).1;
            Open(m, RootDir(m, v'.disk), ToDos(again), true)
            == (if MarksDeleted(m, name[0]) then None else Some(Handle(first, first, size, 0, 0x20, false)))
  {
    CaseDoesNotMatter(filename, again);
    hide SameButCase, Create, Created, RootDir, FreeSlotFrom, LookupFrom, NewSlot, FirstOf, SizeOf, LeastFreeFrom,
         ToDos, GoodChains, FirstMirror;
    var name, slots := ToDos(filename), RootDir(m, v.disk);
    var k, first := CreateChoice(m, v, name, size, pageFree);
    var slot := NewSlot(slots[k], name, first, size);
    var slots' := slots[k := slot];
    ToDosIsClean(filename);
    CreatedSlots(m, v, name, size, k, first);
    FreeSlotIsFirst(m, slots, 0);
    FillSlot(m, slots, k, slot);
    assert slot[0] == name[0] by { assert NameOf(slot)[0] == slot[0]; }
    LookupFinds(m, slots', name, k);
    if MarksDeleted(m, name[0]) && Lookup(m, slots', name).Some? {
      var j := Lookup(m, slots', name).value;
      assert j != k;
      LookupFinds(m, slots, name, j);
    }
  }

  /** For creates, proper means what it is for: exactly the proper ones leave the volume well formed. */
  lemma ProperCreateIff(m: MountInfo, s: System, a: Files, filename: CString, size: u32, pageFree: bool)
    requires Refines(m, s, a)
    ensures var op := CreateOp(filename, size, pageFree);
            WellFormed(m, Step(m, s, op).0.v) <==> Proper(m, a, op)
  {
    var name := ToDos(filename);
    CreateAnswers(m, s.v, a, name, size, pageFree);
    LookupIsMap(m, s.v, a.files, name);
    ToDosIsClean(filename);
    hide RootDir, LookupFrom, Create, WellFormed, ToDos, SpecCreate;
    if Create(m, s.v, name, size, pageFree).0 == 0 {
      CreateKeepsWellFormedIff(m, s.v, name, size, pageFree);
    }
  }

  // ----- where writes go

  /** For writes as well: exactly the proper ones stay in the data area. */
  lemma ProperWriteIff(m: MountInfo, s: System, a: Files, h: nat, data: seq<byte>)
    requires Refines(m, s, a) && h < |s.handles|
    ensures var cs := WriteClusters(m, s.v, s.handles[h], data);
            Proper(m, a, WriteOp(h, data)) <==> forall i | 0 <= i < |cs| :: m.dataStart <= Lba(m, cs[i])
  {
    hide GoodDirectory, GoodChains, FirstMirror, SameFiles, SameRoom, SameCursor, Gather, ChainOf, FirstOf, SizeOf,
         WriteClusters, GoodChain;
    CursorFile(m, s, a, h);
    WriteGoes(m, s.v, s.handles[h], data);
  }

  lemma WriteGoes(m: MountInfo, v: View, h: Handle, data: seq<byte>)
    requires Mounted(m, v) && (h.firstCluster == 0 || GoodChain(v.fat, h.firstCluster))
    ensures var cs := WriteClusters(m, v, h, data);
            && (data == [] || h.firstCluster != 0 <==> forall i | 0 <= i < |cs| :: m.dataStart <= Lba(m, cs[i]))
            && (h.firstCluster != 0 ==> forall e | e in cs :: e in FullChain(v.fat, h.firstCluster))
            && (h.firstCluster == 0 && data != [] ==>
                  |cs| > 0 && Lba(m, cs[0]) == m.dataStart - 2 * m.sectorsPerCluster)
  {
    hide Entry, After, FullChain;
    var cs := WriteClusters(m, v, h, data);
    var n := SectorCount(|data|);
    if h.firstCluster != 0 {
      FullChainPrefix(v.fat, h.firstCluster, n);
      forall i | 0 <= i < |cs| ensures m.dataStart <= Lba(m, cs[i]) {
        assert cs[i] in cs;
        LbaInRange(m, |v.disk|, cs[i]);
      }
    } else if data != [] {
      assert n > 0 && cs[0] == 0;
    }
  }

  /** A write along a file's clusters stays in the data area exactly when the file has clusters: the
      write through a handle of an empty file starts in the sectors just before the data area. */
  lemma WriteStaysInDataIff(m: MountInfo, v: View, slot: DirSlot, data: seq<byte>)
    requires Mounted(m, v) && GoodFile(v.fat, slot)
    ensures var cs := WriteClusters(m, v, Opened(slot), data);
            && (data == [] || FirstOf(slot) != 0 <==> forall i | 0 <= i < |cs| :: m.dataStart <= Lba(m, cs[i]))
            && (FirstOf(slot) != 0 ==> forall e | e in cs :: e in ChainOf(v.fat, FirstOf(slot)))
            && (FirstOf(slot) == 0 && data != [] ==> |cs| > 0 && Lba(m, cs[0]) == m.dataStart - 2 * m.sectorsPerCluster)
  {
    hide Entry, After, FullChain, Chain;
    ChainOfGoodFile(v.fat, slot);
    WriteGoes(m, v, Opened(slot), data);
  }

  lemma FullChainPrefix(fat: Fat, first: u16, n: nat)
    requires GoodChain(fat, first)
    ensures forall e | e in Chain(fat, first, n) :: e in FullChain(fat, first)
  {
    hide Entry, After, Chain;
    ChainSaturates(fat, first, n);
  }

  /** The cached table equals the first copy on disk after every call but a write to a file without clusters, and the
      second copy as well from the first successful create on. */
  lemma StepKeepsMirrors(m: MountInfo, s: System, a: Files, op: Op)
    requires Refines(m, s, a) && (op.WriteOp? ==> Proper(m, a, op))
    ensures var (s', reply) := Step(m, s, op);
            && Mounted(m, s'.v) && FirstMirror(m, s'.v)
            && (SecondMirror(m, s.v) || reply == Status(0) ==> SecondMirror(m, s'.v))
  {
    hide RootDir, LookupFrom, FreeSlotFrom, LeastFreeFrom, Created, Store, GoodDirectory, GoodChains, SameFiles,
         SameRoom, SameCursor, ReadData, AfterRead, Gather, ChainOf, GoodFile, Overlay, GoodChain, FirstMirror,
         SecondMirror, AfterWrite, Proper;
    match op
    case CreateOp(filename, size, pageFree) =>
      if Create(m, s.v, ToDos(filename), size, pageFree).0 == 0 {
        var k, first := CreateChoice(m, s.v, ToDos(filename), size, pageFree);
        CreatedSectors(m, s.v, ToDos(filename), size, k, first);
      }
    case WriteOp(h, data) =>
      if h < |s.handles| {
        StepRefines(m, s, a, op);
        WriteKeepsMirrors(m, s, a, h, data);
      }
    case _ =>
  }

  lemma WriteKeepsMirrors(m: MountInfo, s: System, a: Files, h: nat, data: seq<byte>)
    requires Refines(m, s, a) && Proper(m, a, WriteOp(h, data)) && h < |s.handles|
    ensures SecondMirror(m, s.v) ==> SecondMirror(m, AfterWrite(m, s.v, s.handles[h], data).0)
  {
    hide RootDir, LookupFrom, Store, GoodDirectory, GoodChains, SameFiles, SameCursor, Gather, Overlay, FullChain,
         AfterWrite;
    var handle := s.handles[h];
    CursorFile(m, s, a, h);
    WriteAlong(m, s.v, handle, data);
    var cs := ChainOf(s.v.fat, handle.firstCluster);
    StoreKeepsFront(m, s.v, cs, data);
  }
}
