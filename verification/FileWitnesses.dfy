/** Inputs on which the file system falls short, each on a small volume as it comes from formatting. */
module FileWitnesses {
  import opened Bits
  import opened Options
  import opened FatTable
  import opened Chains
  import opened DosNames
  import opened Volume
  import opened VolumeInvariant
  import opened Refinement
  import opened FileTheorems

  // ----- the volume

  /** A boot sector for 512-byte sectors, one per cluster, with one reserved sector, two tables of twelve sectors and 32
      root entries. */
  const BOOT: Sector := Zeros(512)
    [0x0C := 2][0x0D := 1][0x0E := 1][0x10 := 2][0x11 := 32][0x16 := 12]
    [0x36 := 0x46][0x37 := 0x41][0x38 := 0x54][0x39 := 0x31][0x3A := 0x32]
    [0x3B := 0x20][0x3C := 0x20][0x3D := 0x20]

  const SMALL: MountInfo := MountInfo(1, 25, 2, 27, 12, 1, true)

  function BlankDisk(): seq<Sector> { [BOOT] + seq(4199, _ => Zeros(512)) }

  /** The volume and its table as `fat12_init` finds and caches them. */
  function Formatted4200(): View { View(BlankDisk(), Zeros(6144)) }

  lemma MountsSmall()
    ensures Formatted(BlankDisk()[0]) && MountOf(BlankDisk()[0], true) == SMALL
    ensures Mounted(SMALL, Formatted4200()) && FirstMirror(SMALL, Formatted4200())
  {
    assert BOOT[0x36..0x3E] == [0x46, 0x41, 0x54, 0x31, 0x32, 0x20, 0x20, 0x20];
    forall i | 0 <= i < 12 ensures BlankDisk()[1 + i] == FatSector(Zeros(6144), i) {
    }
  }

  lemma BlankEntry(c: u16)
    requires 2 <= c < 4084
    ensures FreeCluster(Zeros(6144), c)
  {
    EntryValue(Zeros(6144), c);
    hide Entry;
  }

  /** It holds no file, and there is room for 32. */
  lemma SmallIsEmpty()
    ensures Mounted(SMALL, Formatted4200()) && WellFormed(SMALL, Formatted4200())
    ensures Refines(SMALL, System(Formatted4200(), []), Files(map[], [], 32, SpareOf(SMALL, Formatted4200())))
    ensures LowestFrom(SpareOf(SMALL, Formatted4200()), 2) == 2
    ensures forall c: nat | 2 <= c < 4084 :: c in SpareOf(SMALL, Formatted4200())
  {
    MountsSmall();
    var v := Formatted4200();
    forall slot <- RootDir(SMALL, v.disk) ensures IsEnd(slot) {
      var k :| 0 <= k < 32 && RootDir(SMALL, v.disk)[k] == slot;
      assert slot == Zeros(512)[32 * (k % 16)..32 * (k % 16) + 32];
    }
    FormattedIsEmpty(SMALL, v);
    forall c: nat | 2 <= c < 4084 ensures FreeCluster(v.fat, c) {
      BlankEntry(c);
    }
  }

  // ----- what goes wrong

  const NAME: CString := [0x41]

  function Start(): System { System(Formatted4200(), []) }

  function StartFiles(): Files { Files(map[], [], 32, SpareOf(SMALL, Formatted4200())) }

  /** The first create of any size succeeds. */
  lemma FirstCreate(size: u32)
    ensures Mounted(SMALL, Formatted4200()) && WellFormed(SMALL, Formatted4200())
    ensures Refines(SMALL, Start(), StartFiles()) && CursorsFit(StartFiles())
    ensures Create(SMALL, Formatted4200(), ToDos(NAME), size, true).0 == 0
    ensures SpecCreate(SMALL, StartFiles(), ToDos(NAME), size, true).1 == Status(0)
    ensures Lookup(SMALL, RootDir(SMALL, Formatted4200().disk), ToDos(NAME)) == None
  {
    SmallIsEmpty();
    hide Formatted4200, Create, ToDos, RootDir, LookupFrom, GoodDirectory, GoodChains, FirstMirror, SpareOf,
         ClustersNeeded, LowestFrom, SameFiles, SameRoom;
    CreateAnswers(SMALL, Formatted4200(), StartFiles(), ToDos(NAME), size, true);
    LookupIsMap(SMALL, Formatted4200(), map[], ToDos(NAME));
  }

  /** A file of size 1000 is created with 512 bytes of room. */
  lemma NoRoomFor1000()
    ensures Mounted(SMALL, Formatted4200())
    ensures var (code, v) := Create(SMALL, Formatted4200(), ToDos(NAME), 1000, true);
            var k := FreeSlot(SMALL, RootDir(SMALL, Formatted4200().disk));
            && code == 0 && k.Some?
            && |FileIn(SMALL, v, RootDir(SMALL, v.disk)[k.value]).raw| < 1000
            && SizeOf(RootDir(SMALL, v.disk)[k.value]) == 1000
  {
    FirstCreate(1000);
    hide Formatted4200, Create, ToDos, RootDir, FreeSlotFrom, Gather, ChainOf, SizeOf, SpecCreate, WellFormed, Refines;
    CreatedRoomIff(SMALL, Formatted4200(), ToDos(NAME), 1000, true);
  }

  /** A create of size 2^32 - 1 succeeds with no cluster at all and leaves a volume that is not well formed. */
  lemma WrappedSizeBreaks()
    ensures Mounted(SMALL, Formatted4200())
    ensures var (code, v) := Create(SMALL, Formatted4200(), ToDos(NAME), 0xFFFF_FFFF, true);
            code == 0 && !WellFormed(SMALL, v)
  {
    FirstCreate(0xFFFF_FFFF);
    hide Formatted4200, Create, RootDir, LookupFrom, SpecCreate, WellFormed, Refines;
    ToDosIsClean(NAME);
    CreateKeepsWellFormedIff(SMALL, Formatted4200(), ToDos(NAME), 0xFFFF_FFFF, true);
  }

  /** A second create of the same name, when there is no page for opening it, succeeds and leaves two entries. */
  lemma SecondCreateBreaks()
    ensures Mounted(SMALL, Formatted4200())
    ensures var v1 := Create(SMALL, Formatted4200(), ToDos(NAME), 1, true).1;
            var (code, v2) := Create(SMALL, v1, ToDos(NAME), 1, false);
            WellFormed(SMALL, v1) && code == 0 && !WellFormed(SMALL, v2)
  {
    var a1 := AfterFirst();
    FirstCreate(1);
    var name, v1 := ToDos(NAME), Create(SMALL, Formatted4200(), ToDos(NAME), 1, true).1;
    hide Formatted4200, Create, ToDos, RootDir, LookupFrom, GoodDirectory, GoodChains, FirstMirror, SpareOf,
         LowestFrom, SameFiles, SameRoom;
    CreateAnswers(SMALL, v1, a1, name, 1, false);
    LookupIsMap(SMALL, v1, a1.files, name);
    ToDosIsClean(NAME);
    CreateKeepsWellFormedIff(SMALL, v1, name, 1, false);
  }

  /** What the volume stands for once the file is there. */
  lemma AfterFirst() returns (a1: Files)
    ensures Mounted(SMALL, Formatted4200())
    ensures var v1 := Create(SMALL, Formatted4200(), ToDos(NAME), 1, true).1;
            Refines(SMALL, System(v1, []), a1)
    ensures a1.room == 31 && ToDos(NAME) in a1.files && Lowest(a1.spare) == 3
  {
    FirstCreate(1);
    SpecFirst();
    hide Create, ToDos, Refines, WellFormed, Start, StartFiles, Spec, Step;
    var op := CreateOp(NAME, 1, true);
    StepRefines(SMALL, Start(), StartFiles(), op);
    a1 := Spec(SMALL, StartFiles(), op).0;
    CreateStep(SMALL, Start(), NAME, 1, true);
    assert Start() == System(Formatted4200(), []) by { StartIs(); }
  }

  lemma StartIs()
    ensures Start() == System(Formatted4200(), [])
  {
  }

  lemma CreateStep(m: MountInfo, s: System, filename: CString, size: u32, pageFree: bool)
    requires Mounted(m, s.v)
    ensures Step(m, s, CreateOp(filename, size, pageFree)).0
         == System(Create(m, s.v, ToDos(filename), size, pageFree).1, s.handles)
  {
    hide Create, ToDos;
  }

  lemma SpecFirst()
    ensures CursorsFit(StartFiles()) && Proper(SMALL, StartFiles(), CreateOp(NAME, 1, true))
    ensures var a1 := Spec(SMALL, StartFiles(), CreateOp(NAME, 1, true)).0;
            a1.room == 31 && ToDos(NAME) in a1.files && Lowest(a1.spare) == 3
  {
    SmallIsEmpty();
    FirstCreate(1);
    hide Formatted4200, ToDos, SpareOf, Create, Refines, WellFormed;
    ThirdIsNext(SpareOf(SMALL, Formatted4200()));
    hide Lowest;
  }

  lemma ThirdIsNext(spare: map<nat, Sector>)
    requires 2 in spare && 3 in spare
    ensures Lowest(spare) == 2 && Lowest(spare - {2}) == 3
  {
    assert 3 in spare - {2} && 2 !in spare - {2};
    assert LowestFrom(spare - {2}, 3) == 3;
  }

  /** A file created with size 0 opens, and one byte written to it overwrites the first directory sector: no entry is
      found any more. */
  lemma EmptyFileOverwritesDirectory()
    ensures Mounted(SMALL, Formatted4200())
    ensures var v1 := Create(SMALL, Formatted4200(), ToDos(NAME), 0, true).1;
            var h := Handle(0, 0, 0, 0, 0x20, false);
            var v2 := AfterWrite(SMALL, v1, h, [1]).0;
            && Open(SMALL, RootDir(SMALL, v1.disk), ToDos(NAME), true) == Some(h)
            && v2.disk[25] == FilledSector([1])
            && Lookup(SMALL, RootDir(SMALL, v2.disk), ToDos(NAME)) == None
  {
    FirstCreate(0);
    ToDosIsClean(NAME);
    var v0 := Formatted4200();
    var v1 := Create(SMALL, v0, ToDos(NAME), 0, true).1;
    CreateThenOpenIff(SMALL, v0, NAME, NAME, 0, true);
    hide Formatted4200, Create, ToDos, SpecCreate, WellFormed, Refines, Open;
    WriteToCluster0(v1, Handle(0, 0, 0, 0, 0x20, false), ToDos(NAME));
  }

  lemma WriteToCluster0(v: View, h: Handle, name: DosName)
    requires Mounted(SMALL, v) && h.firstCluster == 0 && forall k | 0 <= k < 11 :: name[k] != 0
    ensures var v' := AfterWrite(SMALL, v, h, [1]).0;
            v'.disk[25] == FilledSector([1]) && Lookup(SMALL, RootDir(SMALL, v'.disk), name) == None
  {
    hide Entry;
    assert WriteClusters(SMALL, v, h, [1]) == [0] by {
      assert SectorCount(1) == 1;
      assert Chain(v.fat, Entry(v.fat, 0), 0) == [];
    }
    assert Lba(SMALL, 0) == 25;
    StoreUnfold(SMALL, v.disk, [0], [1]);
    assert [0][1..] == [] && [1][..1] == [1];
    var v' := AfterWrite(SMALL, v, h, [1]).0;
    assert v'.disk[25] == FilledSector([1]);
    var slots := RootDir(SMALL, v'.disk);
    assert slots[0] == FilledSector([1])[0..32] && slots[1] == FilledSector([1])[32..64];
    assert NameOf(slots[0])[1] == 0 && name[1] != 0;
    LookupEnds(slots, name);
  }

  lemma LookupEnds(slots: seq<DirSlot>, name: DosName)
    requires |slots| > 1 && NameOf(slots[0]) != name && IsEnd(slots[1])
    ensures Lookup(SMALL, slots, name) == None
  {
    assert LookupFrom(SMALL, slots, name, 1) == None;
  }
}
