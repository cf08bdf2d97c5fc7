/** What stands where on a FAT12 volume, in bytes and numbers: the boot sector, directory slots, the packed table, the
    bytes of a file. The driver's functions are held to these independently of how they are put together. */
module DiskLayout {
  import opened Bits
  import opened Options
  import opened FatTable
  import opened Chains
  import opened DosNames
  import opened Volume
  import opened VolumeInvariant

  // ----- the boot sector

  /** A boot sector with the given numbers in the places the format has for them, low byte first. */
  predicate BootSays(boot: Sector, sectorSize: u16, perCluster: byte, reserved: u16, fats: byte, entries: u16,
      perFat: u16)
  {
    && boot[0x0B] == sectorSize % 256 && boot[0x0C] == sectorSize / 256
    && boot[0x0D] == perCluster
    && boot[0x0E] == reserved % 256 && boot[0x0F] == reserved / 256
    && boot[0x10] == fats
    && boot[0x11] == entries % 256 && boot[0x12] == entries / 256
    && boot[0x16] == perFat % 256 && boot[0x17] == perFat / 256
  }

  /** Mounting reads those numbers back: tables after the reserved sectors, then 32 bytes of root directory an entry,
      then the data. */
  lemma MountReads(boot: Sector, charSigned: bool, sectorSize: u16, perCluster: byte, reserved: u16, fats: byte,
      entries: u16, perFat: u16)
    requires BootSays(boot, sectorSize, perCluster, reserved, fats, entries, perFat) && BytesPerSector(boot) > 0
    ensures BytesPerSector(boot) == sectorSize
    ensures var root: nat := reserved + fats * perFat;
            var size := entries * 32 / sectorSize;
            MountOf(boot, charSigned) == MountInfo(reserved, root, size, root + size, perFat, perCluster, charSigned)
  {
    Word(sectorSize);
    Word(reserved);
    Word(entries);
    Word(perFat);
  }

  lemma MountsWhatIsSaid(boot: Sector, charSigned: bool)
    requires BytesPerSector(boot) > 0
    ensures forall sectorSize: u16, perCluster: byte, reserved: u16, fats: byte, entries: u16, perFat: u16 |
              BootSays(boot, sectorSize, perCluster, reserved, fats, entries, perFat) ::
              && sectorSize > 0
              && MountOf(boot, charSigned)
                 == MountInfo(reserved, reserved + fats * perFat, entries * 32 / sectorSize,
                              reserved + fats * perFat + entries * 32 / sectorSize, perFat, perCluster, charSigned)
  {
    hide MountOf;
    forall sectorSize: u16, perCluster: byte, reserved: u16, fats: byte, entries: u16, perFat: u16 |
      BootSays(boot, sectorSize, perCluster, reserved, fats, entries, perFat)
      ensures sectorSize > 0
      ensures MountOf(boot, charSigned)
           == MountInfo(reserved, reserved + fats * perFat, entries * 32 / sectorSize,
                        reserved + fats * perFat + entries * 32 / sectorSize, perFat, perCluster, charSigned)
    {
      MountReads(boot, charSigned, sectorSize, perCluster, reserved, fats, entries, perFat);
    }
  }

  lemma Word(w: u16)
    ensures w % 256 + 256 * (w / 256) == w
  {
  }

  /** A volume is taken for FAT12 exactly by the eight characters from byte 0x36 on. */
  lemma FormattedIff(boot: Sector)
    ensures Formatted(boot) <==> forall i | 0 <= i < 8 :: boot[0x36 + i] == "FAT12   "[i] as int
  {
    var name := [0x46, 0x41, 0x54, 0x31, 0x32, 0x20, 0x20, 0x20];
    assert forall i | 0 <= i < 8 :: name[i] == "FAT12   "[i] as int && boot[0x36..0x3E][i] == boot[0x36 + i];
  }

  // ----- directory slots

  /** A name reads as deleted when its first byte, as a `char` of the compiler's kind, equals 0xE5. */
  lemma DeletedMeans(m: MountInfo, b: byte)
    ensures MarksDeleted(m, b) <==> (if m.charSigned && b >= 0x80 then b - 0x100 else b) == 0xE5
  {
  }

  /** The k-th slot is 32 bytes of the root directory, sixteen slots to a sector. */
  lemma SlotBytes(m: MountInfo, disk: seq<Sector>, k: nat, i: nat)
    requires ValidMount(m, |disk|) && k < 16 * m.rootSize && i < 32
    ensures m.rootStart + k / 16 < |disk|
    ensures RootDir(m, disk)[k][i] == disk[m.rootStart + k / 16][32 * (k % 16) + i]
  {
  }

  /** Four bytes as a number, the low one first. */
  function Number(a: byte, b: byte, c: byte, d: byte): nat {
    a as int + 0x100 * b as int + 0x1_0000 * c as int + 0x100_0000 * d as int
  }

  /** Name, first cluster and size of a slot; the handle opened on it. */
  lemma SlotFields(slot: DirSlot)
    ensures NameOf(slot) == slot[..11]
    ensures FirstOf(slot) == slot[26] as int + 0x100 * slot[27] as int
    ensures SizeOf(slot) == Number(slot[28], slot[29], slot[30], slot[31])
    ensures Opened(slot) == Handle(slot[26] as int + 0x100 * slot[27] as int, slot[26] as int + 0x100 * slot[27] as int,
                                   Number(slot[28], slot[29], slot[30], slot[31]),
                                   0, slot[11], false)
  {
  }

  /** A created slot byte by byte. */
  lemma NewSlotBytes(prior: DirSlot, name: DosName, first: u16, size: u32, i: nat)
    requires i < 32
    ensures NewSlot(prior, name, first, size)[i]
         == if i < 11 then name[i]
            else if i == 11 then 0x20
            else if i < 26 then prior[i]
            else if i == 26 then first % 0x100 else if i == 27 then first / 0x100
            else if i == 28 then size % 0x100 else if i == 29 then size / 0x100 % 0x100
            else if i == 30 then size / 0x1_0000 % 0x100 else size / 0x100_0000
  {
    FourBytes(size);
    hide NameOf, FirstOf, SizeOf, Le16, Le32;
  }

  lemma FourBytes(size: u32)
    ensures Bytes32(size) == [size % 0x100, size / 0x100 % 0x100, size / 0x1_0000 % 0x100, size / 0x100_0000]
  {
    assert size % 0x1_0000 % 256 == size % 0x100 && size % 0x1_0000 / 256 == size / 0x100 % 0x100;
    assert size / 0x1_0000 / 256 == size / 0x100_0000;
  }

  /** A slot holds a file unless its first byte ends the directory or reads as deleted. */
  lemma LiveMeans(m: MountInfo, slot: DirSlot)
    ensures Live(m, slot) <==> slot[0] != 0 && (slot[0] == 0xE5 ==> m.charSigned)
  {
  }

  /** A search finds the first live slot with the name's eleven bytes, if no slot before it ends the directory. */
  lemma {:induction false} LookupMeans(m: MountInfo, slots: seq<DirSlot>, name: DosName, k: nat)
    requires k <= |slots|
    ensures match LookupFrom(m, slots, name, k)
            case Some(j) =>
              && k <= j < |slots| && Live(m, slots[j]) && slots[j][..11] == name
              && forall i | k <= i < j :: slots[i][0] != 0 && (Live(m, slots[i]) ==> slots[i][..11] != name)
            case None =>
              forall j | k <= j < |slots| && Live(m, slots[j]) && slots[j][..11] == name ::
                exists i :: k <= i < j && slots[i][0] == 0
    decreases |slots| - k
  {
    if k < |slots| && slots[k][0] != 0 {
      LookupMeans(m, slots, name, k + 1);
    }
  }

  // ----- the table

  /** Two entries in three bytes: an even one has the low byte and the lower half of the middle one, an odd one the
      upper half of the middle byte and the high one (Microsoft FAT specification, "FAT Type Determination"). */
  lemma EntryBytes(fat: Fat, pair: nat)
    requires 3 * pair + 2 < |fat|
    ensures Entry(fat, 2 * pair) == fat[3 * pair] as int + 0x100 * (fat[3 * pair + 1] as int % 0x10)
    ensures Entry(fat, 2 * pair + 1) == fat[3 * pair + 1] as int / 0x10 + 0x10 * fat[3 * pair + 2] as int
  {
    EvenEntry(fat, pair);
    OddEntry(fat, pair);
    hide Entry;
  }

  lemma EvenEntry(fat: Fat, pair: nat)
    requires 3 * pair + 1 < |fat|
    ensures Entry(fat, 2 * pair) == fat[3 * pair] as int + 0x100 * (fat[3 * pair + 1] as int % 0x10)
  {
    assert Offset(2 * pair) == 3 * pair;
    EntryValue(fat, 2 * pair);
    hide Entry;
    LowTwelve(fat[3 * pair], fat[3 * pair + 1]);
  }

  lemma LowTwelve(a: byte, b: byte)
    ensures (a as int + 0x100 * b as int) % 0x1000 == a as int + 0x100 * (b as int % 0x10)
  {
  }

  lemma OddEntry(fat: Fat, pair: nat)
    requires 3 * pair + 2 < |fat|
    ensures Entry(fat, 2 * pair + 1) == fat[3 * pair + 1] as int / 0x10 + 0x10 * fat[3 * pair + 2] as int
  {
    assert Offset(2 * pair + 1) == 3 * pair + 1;
    EntryValue(fat, 2 * pair + 1);
    hide Entry;
    HighTwelve(fat[3 * pair + 1], fat[3 * pair + 2]);
  }

  lemma HighTwelve(a: byte, b: byte)
    ensures (a as int + 0x100 * b as int) / 0x10 == a as int / 0x10 + 0x10 * b as int
  {
  }

  /** The cluster a create takes: the least one from 2 to 4083 whose entry is 0, or none. */
  lemma LeastFreeMeans(fat: Fat)
    ensures var c := LeastFree(fat);
            if exists d: u16 :: 2 <= d < 4084 && Entry(fat, d) == 0
            then 2 <= c < 4084 && Entry(fat, c) == 0 && forall d: u16 | 2 <= d < c :: Entry(fat, d) != 0
            else c == 0
  {
    hide Entry, LeastFreeFrom;
    var c := LeastFree(fat);
    forall d: u16 | 2 <= d < 4084 && (c == 0 || d < c) ensures Entry(fat, d) != 0 {
      assert !FreeCluster(fat, d);
    }
  }

  /** A walk stops at a value of 0xFF8 or more and otherwise goes on with the entry. */
  lemma WalkMeans(fat: Fat, c: u16, n: nat)
    ensures Chain(fat, c, 0) == [] && After(fat, c, 0) == c
    ensures c >= 0xFF8 ==> Chain(fat, c, n) == [] && After(fat, c, n) == c
    ensures c < 0xFF8 ==>
              && Chain(fat, c, n + 1) == [c] + Chain(fat, Entry(fat, c), n)
              && After(fat, c, n + 1) == After(fat, Entry(fat, c), n)
  {
    hide Entry;
  }

  /** Two copies of the table, one right behind the other. */
  lemma MirrorBytes(m: MountInfo, v: View, i: nat)
    requires Mounted(m, v) && i < |v.fat|
    ensures m.fatStart + m.sectorsPerFat + i / 512 < |v.disk|
    ensures FirstMirror(m, v) ==> v.disk[m.fatStart + i / 512][i % 512] == v.fat[i]
    ensures SecondMirror(m, v) ==> v.disk[m.fatStart + m.sectorsPerFat + i / 512][i % 512] == v.fat[i]
  {
    var s := i / 512;
    assert i == 512 * s + i % 512 && s < m.sectorsPerFat;
    assert FatSector(v.fat, s)[i % 512] == v.fat[i];
  }

  // ----- files

  /** The n-th byte along a list of clusters: in the sector of its cluster, the one at the start of the data area being
      cluster 2's. */
  lemma {:induction false} FileBytes(m: MountInfo, disk: seq<Sector>, cs: seq<u16>, n: nat)
    requires ValidMount(m, |disk|) && Links(cs) && n < 512 * |cs|
    ensures var s := m.dataStart + (cs[n / 512] - 2) * m.sectorsPerCluster;
            0 <= s < |disk| && Gather(m, disk, cs)[n] == disk[s][n % 512]
    decreases |cs|
  {
    LbaInRange(m, |disk|, cs[n / 512]);
    GatherCons(m, disk, cs);
    if n >= 512 {
      FileBytes(m, disk, cs[1..], n - 512);
      assert cs[1..][(n - 512) / 512] == cs[n / 512] && (n - 512) % 512 == n % 512;
    }
  }

  /** After a write, byte by byte: the data, zeros to the end of its last sector, and then what was there. */
  lemma OverlayBytes(raw: seq<byte>, data: seq<byte>, i: nat)
    requires |raw| % 512 == 0 && i < |raw|
    ensures |Overlay(raw, data)| == |raw|
    ensures Overlay(raw, data)[i]
         == if i < |data| then data[i] else if i / 512 * 512 < |data| then 0 else raw[i]
  {
    Touched(|data|, i);
    Touched(|raw|, i);
  }

  lemma Touched(n: nat, i: nat)
    ensures i < 512 * SectorCount(n) <==> i / 512 * 512 < n
  {
    assert i == 512 * (i / 512) + i % 512;
  }

  /** A create changes no sector but the two copies of the table and the one its slot is in, and there only the slot. */
  lemma CreatedElsewhere(m: MountInfo, v: View, name: DosName, size: u32, k: nat, first: u16, s: nat, i: nat)
    requires Mounted(m, v) && k < Slots(m) && first < 0xFF8 && s < |v.disk| && i < 512
    requires s < m.fatStart || s >= m.fatStart + 2 * m.sectorsPerFat
    requires s == m.rootStart + k / 16 ==> i / 32 != k % 16
    ensures Created(m, v, name, size, k, first).disk[s][i] == v.disk[s][i]
  {
    hide NewSlot, WithEntry, SlotIn, FatSector;
    if s == m.rootStart + k / 16 {
      OtherSlots(v.disk[s], k % 16, NewSlot(RootDir(m, v.disk)[k], name, first, size), i);
    }
    hide PutSlot;
  }

  lemma OtherSlots(s: Sector, k: nat, slot: DirSlot, i: nat)
    requires k < 16 && i < 512 && i / 32 != k
    ensures PutSlot(s, k, slot)[i] == s[i]
  {
  }
}
