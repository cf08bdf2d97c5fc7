/** What the FAT12 driver sees of a volume, as values: mount geometry, sectors, root directory
    slots, and the effect each operation of fs/fs.c has on them. */
module Volume {
  import opened Bits
  import opened Options
  import opened FatTable
  import opened Chains
  import opened DosNames

  type Sector = s: seq<byte> | |s| == 512 witness seq(512, _ => 0)

  /** The mount information; `charSigned` records how the compiler treats plain `char`. */
  datatype MountInfo = MountInfo(
    fatStart: nat, rootStart: nat, rootSize: nat, dataStart: nat,
    sectorsPerFat: nat, sectorsPerCluster: nat, charSigned: bool)

  /** The disk, and the table as cached in memory. */
  datatype View = View(disk: seq<Sector>, fat: seq<byte>)

  datatype Handle = Handle(
    firstCluster: u16, currentCluster: u16, fileSize: u32, position: u32, attributes: byte, eof: bool)

  /** Boot sector, two tables, root directory and data follow each other on a disk of n sectors. */
  predicate ValidMount(m: MountInfo, n: nat) {
    && 12 <= m.sectorsPerFat
    && 1 <= m.fatStart
    && m.fatStart + 2 * m.sectorsPerFat <= m.rootStart
    && m.dataStart == m.rootStart + m.rootSize
    && 1 <= m.sectorsPerCluster
    && 2 * m.sectorsPerCluster <= m.dataStart
    && m.dataStart + 4085 * m.sectorsPerCluster < n <= 0x1_0000_0000
  }

  predicate Mounted(m: MountInfo, v: View) {
    && ValidMount(m, |v.disk|)
    && |v.fat| == m.sectorsPerFat * 512
  }

  // ----- mounting

  /** The filesystem type string of the boot sector reads "FAT12   ". */
  predicate Formatted(boot: Sector) {
    boot[0x36..0x3E] == [0x46, 0x41, 0x54, 0x31, 0x32, 0x20, 0x20, 0x20]
  }

  function NumFats(boot: Sector): byte { boot[0x10] }
  function BytesPerSector(boot: Sector): u16 { Le16(boot, 0x0B) }

  function RootSectors(entries: u16, bytesPerSector: u16): nat
    requires bytesPerSector > 0
  {
    entries * 32 / bytesPerSector
  }

  /** The geometry `fat12_init` works out from the BIOS parameter block. */
  function MountOf(boot: Sector, charSigned: bool): (m: MountInfo)
    requires BytesPerSector(boot) > 0
    ensures m.dataStart == m.rootStart + m.rootSize && m.charSigned == charSigned
  {
    var fatStart, sectorsPerFat := Le16(boot, 0x0E), Le16(boot, 0x16);
    var rootStart: nat := fatStart + NumFats(boot) as nat * sectorsPerFat;
    var rootSize := RootSectors(Le16(boot, 0x11), BytesPerSector(boot));
    MountInfo(fatStart, rootStart, rootSize, rootStart + rootSize, sectorsPerFat, boot[0x0D], charSigned)
  }

  /** `sync_fat` writes two mirrors whatever the boot sector says: they miss the root directory exactly
      when there are at least two tables (or no root directory to hit). */
  lemma MirrorsMissRootIff(boot: Sector, charSigned: bool)
    requires BytesPerSector(boot) > 0 && Le16(boot, 0x16) > 0
    ensures var m := MountOf(boot, charSigned);
            (forall s | m.rootStart <= s < m.dataStart :: MirrorIndex(m, s) == None)
            <==> NumFats(boot) >= 2 || m.rootSize == 0
  {
    hide RootSectors, Le16;
    TablesEndAtRoot(MountOf(boot, charSigned), NumFats(boot));
  }

  lemma TablesEndAtRoot(m: MountInfo, n: nat)
    requires m.rootStart == m.fatStart + n * m.sectorsPerFat && m.dataStart == m.rootStart + m.rootSize
    requires m.sectorsPerFat > 0
    ensures (forall s | m.rootStart <= s < m.dataStart :: MirrorIndex(m, s) == None) <==> n >= 2 || m.rootSize == 0
  {
    var k := m.sectorsPerFat;
    if n >= 2 {
      assert n * k >= 2 * k;
    } else if m.rootSize > 0 {
      assert n * k == if n == 0 then 0 else k;
      assert MirrorIndex(m, m.rootStart).Some?;
    }
  }

  // ----- data sectors

  function Lba(m: MountInfo, c: u16): int { m.dataStart + (c - 2) * m.sectorsPerCluster }

  lemma LbaInRange(m: MountInfo, n: nat, c: u16)
    requires ValidMount(m, n) && c < EOF_MIN
    ensures 0 <= Lba(m, c) < n
    ensures 2 <= c ==> m.dataStart <= Lba(m, c)
  {
    ScaleBounds(c - 2, m.sectorsPerCluster);
  }

  lemma ScaleBounds(d: int, k: nat)
    requires -2 <= d <= 4085
    ensures -2 * k <= d * k <= 4085 * k
    ensures d >= 0 ==> d * k >= 0
  {
  }

  lemma LbaInjective(m: MountInfo, c: u16, d: u16)
    requires 1 <= m.sectorsPerCluster && c != d
    ensures Lba(m, c) != Lba(m, d)
  {
    if Lba(m, c) == Lba(m, d) {
      assert (c - d) * m.sectorsPerCluster == 0;
      SmallMultiple(c - d, m.sectorsPerCluster);
    }
  }

  function SectorOf(m: MountInfo, disk: seq<Sector>, c: u16): Sector
    requires ValidMount(m, |disk|) && c < EOF_MIN
  {
    LbaInRange(m, |disk|, c);
    disk[Lba(m, c)]
  }

  predicate Links(cs: seq<u16>) { forall i | 0 <= i < |cs| :: cs[i] < EOF_MIN }

  /** The bytes stored along a list of clusters (the driver uses one sector of each). */
  function Gather(m: MountInfo, disk: seq<Sector>, cs: seq<u16>): (r: seq<byte>)
    requires ValidMount(m, |disk|) && Links(cs)
    ensures |r| == 512 * |cs|
  {
    if cs == [] then [] else SectorOf(m, disk, cs[0]) + Gather(m, disk, cs[1..])
  }

  function Zeros(n: nat): seq<byte> { seq(n, _ => 0) }

  function FilledSector(data: seq<byte>): Sector
    requires |data| <= 512
  {
    data + Zeros(512 - |data|)
  }

  /** The disk after writing data along a list of clusters, one zero-filled sector at a time. */
  function Store(m: MountInfo, disk: seq<Sector>, cs: seq<u16>, data: seq<byte>): (r: seq<Sector>)
    requires ValidMount(m, |disk|) && Links(cs)
    ensures |r| == |disk|
    decreases |cs|
  {
    if cs == [] || data == [] then disk
    else
      var k := Min(512, |data|);
      LbaInRange(m, |disk|, cs[0]);
      Store(m, disk[Lba(m, cs[0]) := FilledSector(data[..k])], cs[1..], data[k..])
  }

  lemma StoreUnfold(m: MountInfo, disk: seq<Sector>, cs: seq<u16>, data: seq<byte>)
    requires ValidMount(m, |disk|) && Links(cs) && cs != [] && data != []
    ensures var k := Min(512, |data|);
            && 0 <= Lba(m, cs[0]) < |disk|
            && Store(m, disk, cs, data)
               == Store(m, disk[Lba(m, cs[0]) := FilledSector(data[..k])], cs[1..], data[k..])
  {
    LbaInRange(m, |disk|, cs[0]);
  }

  function SectorCount(n: nat): nat { (n + 511) / 512 }

  // ----- root directory

  type DirSlot = s: seq<byte> | |s| == 32 witness seq(32, _ => 0)

  function Slots(m: MountInfo): nat { 16 * m.rootSize }

  /** The root directory as one list of slots, sixteen to a sector. */
  function RootDir(m: MountInfo, disk: seq<Sector>): (r: seq<DirSlot>)
    requires ValidMount(m, |disk|)
    ensures |r| == Slots(m)
  {
    seq(Slots(m), k requires 0 <= k < Slots(m) => SlotIn(disk[m.rootStart + k / 16], k % 16))
  }

  lemma RootDirAt(m: MountInfo, disk: seq<Sector>, sector: nat, i: nat)
    requires ValidMount(m, |disk|) && sector < m.rootSize && i < 16
    ensures RootDir(m, disk)[16 * sector + i] == SlotIn(disk[m.rootStart + sector], i)
  {
    assert (16 * sector + i) / 16 == sector && (16 * sector + i) % 16 == i;
  }

  function SlotIn(s: Sector, i: nat): DirSlot
    requires i < 16
  {
    s[32 * i..32 * i + 32]
  }

  function PutSlot(s: Sector, i: nat, slot: DirSlot): (r: Sector)
    requires i < 16
    ensures SlotIn(r, i) == slot
    ensures forall j | 0 <= j < 16 && j != i :: SlotIn(r, j) == SlotIn(s, j)
  {
    var r := s[..32 * i] + slot + s[32 * i + 32..];
    assert forall j | 0 <= j < 16 && j != i :: SlotIn(r, j) == SlotIn(s, j);
    r
  }

  function Le16(s: seq<byte>, o: nat): u16
    requires o + 2 <= |s|
  {
    s[o] as int + 256 * s[o + 1] as int
  }

  function Le32(s: seq<byte>, o: nat): u32
    requires o + 4 <= |s|
  {
    Le16(s, o) as int + 0x1_0000 * Le16(s, o + 2) as int
  }

  function Bytes16(w: u16): (r: seq<byte>)
    ensures |r| == 2 && Le16(r, 0) == w
  {
    [w % 256, w / 256]
  }

  function Bytes32(w: u32): (r: seq<byte>)
    ensures |r| == 4 && Le32(r, 0) == w
  {
    var r := Bytes16(w % 0x1_0000) + Bytes16(w / 0x1_0000);
    assert Le16(r, 0) == w % 0x1_0000 && Le16(r, 2) == w / 0x1_0000;
    r
  }

  function NameOf(slot: DirSlot): DosName { slot[..11] }
  function FirstOf(slot: DirSlot): u16 { Le16(slot, 26) }
  function SizeOf(slot: DirSlot): u32 { Le32(slot, 28) }

  /** The comparison with 0xE5, which a signed `char` never satisfies. */
  predicate MarksDeleted(m: MountInfo, b: byte) { !m.charSigned && b == 0xE5 }

  predicate IsEnd(slot: DirSlot) { slot[0] == 0 }
  predicate IsDeleted(m: MountInfo, slot: DirSlot) { MarksDeleted(m, slot[0]) }

  predicate Live(m: MountInfo, slot: DirSlot) { !IsEnd(slot) && !IsDeleted(m, slot) }

  /** Search for a name from slot k on, stopping at the end marker. */
  function LookupFrom(m: MountInfo, slots: seq<DirSlot>, name: DosName, k: nat): (r: Option<nat>)
    requires k <= |slots|
    ensures r.Some? ==> k <= r.value < |slots| && Live(m, slots[r.value]) && NameOf(slots[r.value]) == name
    decreases |slots| - k
  {
    if k == |slots| || IsEnd(slots[k]) then None
    else if !IsDeleted(m, slots[k]) && NameOf(slots[k]) == name then Some(k)
    else LookupFrom(m, slots, name, k + 1)
  }

  function Lookup(m: MountInfo, slots: seq<DirSlot>, name: DosName): Option<nat> {
    LookupFrom(m, slots, name, 0)
  }

  /** The first slot from k on that holds no file. */
  function FreeSlotFrom(m: MountInfo, slots: seq<DirSlot>, k: nat): (r: Option<nat>)
    requires k <= |slots|
    ensures r.Some? ==> k <= r.value < |slots|
    decreases |slots| - k
  {
    if k == |slots| then None
    else if IsEnd(slots[k]) || IsDeleted(m, slots[k]) then Some(k)
    else FreeSlotFrom(m, slots, k + 1)
  }

  function FreeSlot(m: MountInfo, slots: seq<DirSlot>): Option<nat> {
    FreeSlotFrom(m, slots, 0)
  }

  /** The free slot found is the first one holding no file; none is found only in a full directory. */
  lemma {:induction false} FreeSlotIsFirst(m: MountInfo, slots: seq<DirSlot>, k: nat)
    requires k <= |slots|
    ensures match FreeSlotFrom(m, slots, k)
            case None => forall j | k <= j < |slots| :: Live(m, slots[j])
            case Some(f) => !Live(m, slots[f]) && forall j | k <= j < f :: Live(m, slots[j])
    decreases |slots| - k
  {
    if k < |slots| && Live(m, slots[k]) {
      FreeSlotIsFirst(m, slots, k + 1);
    }
  }

  // ----- the operations

  /** The handle `fat12_open` fills in for a slot. */
  function Opened(slot: DirSlot): Handle {
    Handle(FirstOf(slot), FirstOf(slot), SizeOf(slot), 0, slot[11], false)
  }

  function Open(m: MountInfo, slots: seq<DirSlot>, name: DosName, pageFree: bool): Option<Handle> {
    match Lookup(m, slots, name)
    case None => None
    case Some(k) => if pageFree then Some(Opened(slots[k])) else None
  }

  /** How many of the requested bytes `fat12_read` goes for. */
  function Wanted(h: Handle, size: u32): u32 {
    Min(size, (h.fileSize - h.position) % 0x1_0000_0000)
  }

  function ReadClusters(m: MountInfo, v: View, h: Handle, size: u32): (cs: seq<u16>)
    requires Mounted(m, v)
    ensures Links(cs)
  {
    if h.eof then [] else Chain(v.fat, h.currentCluster, SectorCount(Wanted(h, size)))
  }

  /** The bytes delivered: those stored along the clusters ahead, up to the wanted count. */
  function ReadData(m: MountInfo, v: View, h: Handle, size: u32): seq<byte>
    requires Mounted(m, v)
  {
    var all := Gather(m, v.disk, ReadClusters(m, v, h, size));
    all[..Min(Wanted(h, size), |all|)]
  }

  function AfterRead(m: MountInfo, v: View, h: Handle, size: u32): Handle
    requires Mounted(m, v)
  {
    if h.eof then h
    else
      var c := After(v.fat, h.currentCluster, SectorCount(Wanted(h, size)));
      h.(currentCluster := c,
         position := (h.position + |ReadData(m, v, h, size)|) % 0x1_0000_0000,
         eof := c >= EOF_MIN)
  }

  function WriteClusters(m: MountInfo, v: View, h: Handle, data: seq<byte>): (cs: seq<u16>)
    requires Mounted(m, v)
    ensures Links(cs)
  {
    Chain(v.fat, h.firstCluster, SectorCount(|data|))
  }

  function AfterWrite(m: MountInfo, v: View, h: Handle, data: seq<byte>): (r: (View, Handle, nat))
    requires Mounted(m, v)
    ensures Mounted(m, r.0)
  {
    var cs := WriteClusters(m, v, h, data);
    (v.(disk := Store(m, v.disk, cs, data)),
     h.(currentCluster := After(v.fat, h.firstCluster, SectorCount(|data|))),
     Min(|data|, 512 * |cs|))
  }

  predicate FreeCluster(fat: Fat, c: nat) { 2 <= c < 4084 && Entry(fat, c) == FREE }

  /** The least free cluster from c on, or 0. */
  function LeastFreeFrom(fat: Fat, c: nat): (r: u16)
    requires 2 <= c <= 4084
    ensures r == 0 ==> forall d | c <= d < 4084 :: !FreeCluster(fat, d)
    ensures r != 0 ==> c <= r && FreeCluster(fat, r) && forall d | c <= d < r :: !FreeCluster(fat, d)
    decreases 4084 - c
  {
    if c == 4084 then 0 else if Entry(fat, c) == FREE then c else LeastFreeFrom(fat, c + 1)
  }

  function LeastFree(fat: Fat): u16 { LeastFreeFrom(fat, 2) }

  /** The allocation count of `fat12_create`, in 32-bit arithmetic. */
  function ClustersNeeded(size: u32): nat { (size + 511) % 0x1_0000_0000 / 512 }

  /** The slot `fat12_create` leaves: timestamps and the rest of the old slot stay. */
  function NewSlot(prior: DirSlot, name: DosName, first: u16, size: u32): (s: DirSlot)
    ensures NameOf(s) == name && FirstOf(s) == first && SizeOf(s) == size && s[11] == 0x20
  {
    var s := name + [0x20] + prior[12..26] + Bytes16(first) + Bytes32(size);
    assert s[26..28] == Bytes16(first) && s[28..32] == Bytes32(size);
    s
  }

  function FatSector(fat: seq<byte>, i: nat): Sector
    requires 512 * i + 512 <= |fat|
  {
    fat[512 * i..512 * i + 512]
  }

  /** Which table sector, if any, the s-th disk sector mirrors. */
  function MirrorIndex(m: MountInfo, s: nat): (r: Option<nat>)
    ensures r.Some? ==> r.value < m.sectorsPerFat
  {
    if m.fatStart <= s < m.fatStart + m.sectorsPerFat then Some(s - m.fatStart)
    else if m.fatStart + m.sectorsPerFat <= s < m.fatStart + 2 * m.sectorsPerFat
    then Some(s - m.fatStart - m.sectorsPerFat)
    else None
  }

  /** Sector s once the first n table sectors have been written to both mirrors. */
  function Synced(m: MountInfo, fat: seq<byte>, n: nat, s: nat, prior: Sector): Sector
    requires |fat| == m.sectorsPerFat * 512
  {
    match MirrorIndex(m, s)
    case Some(i) => if i < n then FatSector(fat, i) else prior
    case None => prior
  }

  function CreatedSector(m: MountInfo, fat: seq<byte>, k: nat, slot: DirSlot, s: nat, prior: Sector): Sector
    requires |fat| == m.sectorsPerFat * 512
  {
    if s == m.rootStart + k / 16 then PutSlot(prior, k % 16, slot)
    else Synced(m, fat, m.sectorsPerFat, s, prior)
  }

  /** The volume after a successful create: both mirrors hold the new table and one slot changed. */
  function Created(m: MountInfo, v: View, name: DosName, size: u32, k: nat, first: u16): (r: View)
    requires Mounted(m, v) && k < Slots(m) && first < EOF_MIN
    ensures |r.disk| == |v.disk| && |r.fat| == |v.fat|
  {
    var fat := if first == 0 then v.fat else WithEntry(v.fat, first, EOF);
    var slot := NewSlot(RootDir(m, v.disk)[k], name, first, size);
    var disk := seq(|v.disk|, s requires 0 <= s < |v.disk| =>
      CreatedSector(m, fat, k, slot, s, v.disk[s]));
    View(disk, fat)
  }

  /** Everything `fat12_create` may do: the result code and the volume it leaves. */
  function Create(m: MountInfo, v: View, name: DosName, size: u32, pageFree: bool): (r: (int, View))
    requires Mounted(m, v)
    ensures Mounted(m, r.1)
    ensures r.0 == -1 ==> r.1 == v
    ensures r.0 == 0 || r.0 == -1
  {
    var slots := RootDir(m, v.disk);
    if Open(m, slots, name, pageFree).Some? then (-1, v)
    else
      match FreeSlot(m, slots)
      case None => (-1, v)
      case Some(k) =>
        if ClustersNeeded(size) == 0 then (0, Created(m, v, name, size, k, 0))
        else
          var first := LeastFree(v.fat);
          if first == 0 then (-1, v) else (0, Created(m, v, name, size, k, first))
  }

  // ----- mirrors

  /** The cached table is the first copy on disk. */
  ghost predicate FirstMirror(m: MountInfo, v: View)
    requires Mounted(m, v)
  {
    forall i | 0 <= i < m.sectorsPerFat :: v.disk[m.fatStart + i] == FatSector(v.fat, i)
  }

  ghost predicate SecondMirror(m: MountInfo, v: View)
    requires Mounted(m, v)
  {
    forall i | 0 <= i < m.sectorsPerFat :: v.disk[m.fatStart + m.sectorsPerFat + i] == FatSector(v.fat, i)
  }
}
