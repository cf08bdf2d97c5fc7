/** The FAT12 driver itself (fs/fs.c): one sector buffer, the cached table, and a disk behind
    `read_sector` and `write_sector`. Every method is tied to the value-level effect in Volume. */
module FileSystem {
  import opened Bits
  import opened Options
  import opened FatTable
  import opened Chains
  import opened DosNames
  import opened Volume
  import opened DiskLayout

  /** An open file; `fat12_read` and `fat12_write` advance it in place. */
  class FileHandle {
    var firstCluster: u16
    var currentCluster: u16
    var fileSize: u32
    var position: u32
    var attributes: byte
    var eof: bool

    constructor (slot: DirSlot)
      ensures Value() == Opened(slot)
    {
      firstCluster := Le16(slot, 26);
      currentCluster := Le16(slot, 26);
      fileSize := Le32(slot, 28);
      position := 0;
      attributes := slot[11];
      eof := false;
    }

    ghost function Value(): Handle
      reads this
    {
      Handle(firstCluster, currentCluster, fileSize, position, attributes, eof)
    }
  }

  /** The loops of `to_dos_filename`, filling the caller's eleven-byte buffer. */
  method ToDosFilename(input: CString, output: array<byte>)
    requires output.Length == 11
    modifies output
    ensures output[..] == ToDos(input)
  {
    hide IndexFrom, Upper, Base, Extension, ToDos;
    for k := 0 to 11
      invariant forall b | 0 <= b < k :: output[b] == SPACE
    {
      output[k] := SPACE;
    }
    var i, j := 0, 0;
    while i < |input| && input[i] != DOT && j < 8
      invariant i == j <= 8 && i <= |input|
      invariant forall b | 0 <= b < i :: input[b] != DOT && output[b] == Upper(input[b])
      invariant forall b | i <= b < 11 :: output[b] == SPACE
    {
      output[j] := Upper(input[i]);
      i, j := i + 1, j + 1;
    }
    ghost var n := j;
    while i < |input| && input[i] != DOT
      invariant n <= i <= |input|
      invariant forall b | 0 <= b < i :: input[b] != DOT
    {
      i := i + 1;
    }
    IndexOfAt(input, DOT, i);
    PartsAt(input, i);
    assert forall b | 0 <= b < 8 :: output[b] == if b < i then Upper(input[b]) else SPACE;
    if i < |input| {
      CopyExtension(input, i + 1, output);
    }
    Assembled(input, i, output[..]);
  }

  /** Base and extension with blanks behind them are the whole name. */
  lemma Assembled(input: CString, d: nat, output: seq<byte>)
    requires d <= |input| && |output| == 11
    requires Base(input) == input[..d] && Extension(input) == if d < |input| then input[d + 1..] else []
    requires forall b | 0 <= b < 8 :: output[b] == if b < d then Upper(input[b]) else SPACE
    requires forall b | 8 <= b < 11 ::
               output[b] == if b - 8 < |input| - (d + 1) then Upper(input[d + 1 + b - 8]) else SPACE
    ensures output == ToDos(input)
  {
    hide Upper, Base, Extension;
    assert output[..8] == Padded(UpperAll(Base(input)), 8);
    assert output[8..] == Padded(UpperAll(Extension(input)), 3);
  }

  /** The last loop of `to_dos_filename`: the part of the name after the dot, into a blank extension field. */
  method CopyExtension(input: CString, start: nat, output: array<byte>)
    requires output.Length == 11 && start <= |input|
    requires forall b | 8 <= b < 11 :: output[b] == SPACE
    modifies output
    ensures forall b | 0 <= b < 8 :: output[b] == old(output[b])
    ensures forall b | 8 <= b < 11 ::
              output[b] == if b - 8 < |input| - start then Upper(input[start + b - 8]) else SPACE
  {
    hide Upper;
    var i, j := start, 8;
    while i < |input| && j < 11
      invariant 8 <= j <= 11 && i - start == j - 8 && start <= i <= |input|
      invariant forall b | 0 <= b < 8 :: output[b] == old(output[b])
      invariant forall b | 8 <= b < j :: output[b] == Upper(input[start + b - 8])
      invariant forall b | j <= b < 11 :: output[b] == SPACE
    {
      output[j] := Upper(input[i]);
      i, j := i + 1, j + 1;
    }
  }

  /** The two loops of `fat12_list_root` over a blank-padded field: copy up to the first blank. */
  method CopyField(field: seq<byte>, name: array<byte>, at: nat) returns (j: nat)
    requires at + |field| <= name.Length
    modifies name
    ensures j == at + |Field(field)| <= at + |field|
    ensures name[..j] == old(name[..at]) + Field(field)
  {
    j := at;
    while j - at < |field| && field[j - at] != SPACE
      invariant at <= j <= at + |field|
      invariant forall b | 0 <= b < j - at :: field[b] != SPACE
      invariant name[..j] == old(name[..at]) + field[..j - at]
    {
      name[j] := field[j - at];
      j := j + 1;
    }
    IndexOfAt(field, SPACE, j - at);
  }

  /** How `fat12_list_root` formats one entry's name; the buffer ends up holding a C string. */
  method FormatName(n: DosName, name: array<byte>) returns (j: nat)
    requires name.Length == 13
    modifies name
    ensures j <= 12 && name[..j] == Shown(n) && name[j] == 0
  {
    hide Field;
    j := CopyField(n[..8], name, 0);
    if n[8] != SPACE {
      name[j] := DOT;
      j := j + 1;
      ghost var before := name[..j];
      j := CopyField(n[8..], name, j);
      assert before == Field(n[..8]) + [DOT];
    }
    name[j] := 0;
  }

  /** The inner loop of `fat12_open`: where the scan of one directory sector stops, if it does. */
  method ScanForName(m: MountInfo, entries: Sector, name: DosName) returns (i: nat)
    ensures i <= 16
    ensures forall j | 0 <= j < i :: !StopsLookup(m, SlotIn(entries, j), name)
    ensures i < 16 ==> StopsLookup(m, SlotIn(entries, i), name)
  {
    i := 0;
    while i < 16
      invariant 0 <= i <= 16
      invariant forall j | 0 <= j < i :: !StopsLookup(m, SlotIn(entries, j), name)
    {
      var slot := entries[32 * i..32 * i + 32];
      assert slot == SlotIn(entries, i);
      if slot[0] == 0 { return; }
      if !MarksDeleted(m, slot[0]) && slot[..11] == name { return; }
      i := i + 1;
    }
  }

  /** The inner loop of `find_free_dir_entry`. */
  method ScanForFree(m: MountInfo, entries: Sector) returns (i: nat)
    ensures i <= 16
    ensures forall j | 0 <= j < i :: Live(m, SlotIn(entries, j))
    ensures i < 16 ==> !Live(m, SlotIn(entries, i))
  {
    i := 0;
    while i < 16
      invariant 0 <= i <= 16
      invariant forall j | 0 <= j < i :: Live(m, SlotIn(entries, j))
    {
      assert entries[32 * i] == SlotIn(entries, i)[0];
      if entries[32 * i] == 0 || MarksDeleted(m, entries[32 * i]) { return; }
      i := i + 1;
    }
  }

  predicate StopsLookup(m: MountInfo, slot: DirSlot, name: DosName) {
    IsEnd(slot) || (!IsDeleted(m, slot) && NameOf(slot) == name)
  }

  class Fat12 {
    var disk: seq<Sector>
    const sectorBuffer: array<byte>
    var fatBuffer: array<byte>
    var mount: MountInfo

    ghost predicate Valid()
      reads this, fatBuffer, sectorBuffer
    {
      && sectorBuffer.Length == 512 && sectorBuffer != fatBuffer
      && Mounted(mount, Now())
    }

    ghost function Now(): View
      reads this, fatBuffer
    {
      View(disk, fatBuffer[..])
    }

    constructor (disk: seq<Sector>)
      ensures this.disk == disk && sectorBuffer.Length == 512
    {
      this.disk := disk;
      sectorBuffer := new byte[512];
      fatBuffer := new byte[0];
      mount := MountInfo(0, 0, 0, 0, 0, 0, true);
    }

    /** `fat12_init`: mount the volume; `pageFree` says whether memory for the table is available. Nothing of the boot
        sector but its type string is checked, so what is mounted is a usable volume exactly when the geometry happens
        to be one. */
    method Init(charSigned: bool, pageFree: bool) returns (r: int)
      requires sectorBuffer.Length == 512 && 0 < |disk|
      requires Formatted(disk[0]) ==>
                 && BytesPerSector(disk[0]) > 0
                 && var m := MountOf(disk[0], charSigned); m.fatStart + m.sectorsPerFat <= |disk|
      modifies this, sectorBuffer
      ensures disk == old(disk)
      ensures r == if Formatted(disk[0]) && pageFree then 0 else -1
      ensures r == 0 ==>
                && mount == MountOf(disk[0], charSigned)
                && fresh(fatBuffer) && fatBuffer.Length == 512 * mount.sectorsPerFat
                && forall j | 0 <= j < mount.sectorsPerFat ::
                     fatBuffer[512 * j..512 * j + 512] == disk[mount.fatStart + j]
      ensures r == 0 ==> (Valid() <==> ValidMount(mount, |disk|))
      ensures r == 0 && Valid() ==> FirstMirror(mount, Now())
      // In characters and numbers: the type string decides, and whatever the boot sector says is what is mounted.
      ensures r == if (forall i | 0 <= i < 8 :: disk[0][0x36 + i] == "FAT12   "[i] as int) && pageFree then 0 else -1
      ensures r == 0 ==>
                forall sectorSize: u16, perCluster: byte, reserved: u16, fats: byte, entries: u16, perFat: u16 |
                  BootSays(disk[0], sectorSize, perCluster, reserved, fats, entries, perFat) ::
                  && sectorSize > 0
                  && mount == MountInfo(reserved, reserved + fats * perFat, entries * 32 / sectorSize,
                                        reserved + fats * perFat + entries * 32 / sectorSize, perFat, perCluster,
                                        charSigned)
    {
      FormattedIff(disk[0]);
      if Formatted(disk[0]) && pageFree { MountsWhatIsSaid(disk[0], charSigned); }
      hide Formatted, MountOf, BytesPerSector, BootSays, ValidMount, FirstMirror;
      r := Mount(charSigned, pageFree);
    }

    /** The body of `fat12_init`. */
    method Mount(charSigned: bool, pageFree: bool) returns (r: int)
      requires sectorBuffer.Length == 512 && 0 < |disk|
      requires Formatted(disk[0]) ==>
                 && BytesPerSector(disk[0]) > 0
                 && var m := MountOf(disk[0], charSigned); m.fatStart + m.sectorsPerFat <= |disk|
      modifies this, sectorBuffer
      ensures disk == old(disk)
      ensures r == if Formatted(disk[0]) && pageFree then 0 else -1
      ensures r == 0 ==>
                && mount == MountOf(disk[0], charSigned)
                && fresh(fatBuffer) && fatBuffer.Length == 512 * mount.sectorsPerFat
                && forall j | 0 <= j < mount.sectorsPerFat ::
                     fatBuffer[512 * j..512 * j + 512] == disk[mount.fatStart + j]
      ensures r == 0 ==> (Valid() <==> ValidMount(mount, |disk|))
      ensures r == 0 && Valid() ==> FirstMirror(mount, Now())
    {
      hide RootSectors, Le16, NumFats, BytesPerSector, Formatted, MountOf, BootSays;
      ReadSector(0);
      var bpb := sectorBuffer[..];
      if !Formatted(bpb) {
        return -1;
      }
      mount := MountOf(bpb, charSigned);
      if !pageFree {
        return -1;
      }
      fatBuffer := new byte[512 * mount.sectorsPerFat];
      var i := 0;
      while i < mount.sectorsPerFat
        invariant 0 <= i <= mount.sectorsPerFat
        invariant disk == old(disk) && fresh(fatBuffer) && fatBuffer.Length == 512 * mount.sectorsPerFat
        invariant mount == MountOf(disk[0], charSigned)
        invariant forall j | 0 <= j < i :: fatBuffer[512 * j..512 * j + 512] == disk[mount.fatStart + j]
      {
        LoadFatSector(i);
        i := i + 1;
      }
      return 0;
    }

    /** `read_sector` into the i-th part of the table buffer. */
    method LoadFatSector(i: nat)
      requires mount.fatStart + i < |disk| && 512 * i + 512 <= fatBuffer.Length
      modifies fatBuffer
      ensures fatBuffer[512 * i..512 * i + 512] == disk[mount.fatStart + i]
      ensures forall b | 0 <= b < fatBuffer.Length && !(512 * i <= b < 512 * i + 512) ::
                fatBuffer[b] == old(fatBuffer[b])
    {
      forall b | 0 <= b < 512 {
        fatBuffer[512 * i + b] := disk[mount.fatStart + i][b];
      }
    }

    method ReadSector(lba: nat)
      requires lba < |disk| && sectorBuffer.Length == 512
      modifies sectorBuffer
      ensures sectorBuffer[..] == disk[lba]
    {
      forall b | 0 <= b < 512 {
        sectorBuffer[b] := disk[lba][b];
      }
    }

    method GetNextCluster(cluster: u16) returns (next: u16)
      requires Valid() && InTable(fatBuffer[..], cluster)
      ensures next == Entry(fatBuffer[..], cluster)
    {
      var fatOffset := cluster + cluster / 2;
      next := fatBuffer[fatOffset] as int + 256 * fatBuffer[fatOffset + 1] as int;
      if cluster % 2 == 1 {
        next := next / 16;
      } else {
        AndLow12(next);
        next := And(next, 0x0FFF);
      }
    }

    method SetClusterValue(cluster: u16, value: u16)
      requires Valid() && InTable(fatBuffer[..], cluster)
      modifies fatBuffer
      ensures Valid() && fatBuffer[..] == WithEntry(old(fatBuffer[..]), cluster, value)
    {
      var fatOffset := cluster + cluster / 2;
      var w := fatBuffer[fatOffset] as int + 256 * fatBuffer[fatOffset + 1] as int;
      var packed := Packed(w, cluster % 2 == 1, value);
      fatBuffer[fatOffset] := packed % 256;
      fatBuffer[fatOffset + 1] := packed / 256;
    }

    method FindFreeCluster() returns (cluster: u16)
      requires Valid()
      ensures cluster == LeastFree(fatBuffer[..])
    {
      var c: u16 := 2;
      while c < 4084
        invariant 2 <= c <= 4084
        invariant LeastFree(fatBuffer[..]) == LeastFreeFrom(fatBuffer[..], c)
      {
        var value := GetNextCluster(c);
        if value == FREE { return c; }
        c := c + 1;
      }
      return 0;
    }

    /** Open a file from the root directory; `pageFree` says whether a page for the handle is available. */
    method OpenFile(filename: CString, pageFree: bool) returns (file: FileHandle?)
      requires Valid()
      modifies sectorBuffer
      ensures Valid() && Now() == old(Now())
      ensures match Open(mount, RootDir(mount, disk), ToDos(filename), pageFree)
              case None => file == null
              case Some(h) => file != null && fresh(file) && file.Value() == h
    {
      var dosName := new byte[11];
      ToDosFilename(filename, dosName);
      var found, slot := SearchRoot(dosName[..]);
      if !found || !pageFree { return null; }
      file := new FileHandle(slot);
    }

    /** The directory scan of `fat12_open`. */
    method SearchRoot(name: DosName) returns (found: bool, slot: DirSlot)
      requires Valid()
      modifies sectorBuffer
      ensures Valid() && Now() == old(Now())
      ensures match Lookup(mount, RootDir(mount, disk), name)
              case None => !found
              case Some(k) => found && slot == RootDir(mount, disk)[k]
    {
      hide RootDir, LookupFrom, SlotIn;
      slot := seq(32, _ => 0);
      var sector := 0;
      while sector < mount.rootSize
        invariant 0 <= sector <= mount.rootSize
        invariant Lookup(mount, RootDir(mount, disk), name)
               == LookupFrom(mount, RootDir(mount, disk), name, 16 * sector)
      {
        ReadSector(mount.rootStart + sector);
        var entries := sectorBuffer[..];
        var i := ScanForName(mount, entries, name);
        LookupSkips(mount, disk, entries, name, sector, i);
        if i < 16 {
          slot := SlotIn(entries, i);
          return !IsEnd(slot), slot;
        }
        sector := sector + 1;
      }
      SearchesEnd(mount, RootDir(mount, disk), name);
      return false, slot;
    }

    method FindFreeDirEntry() returns (found: bool, sectorOut: nat, indexOut: nat)
      requires Valid()
      modifies sectorBuffer
      ensures Valid() && Now() == old(Now())
      ensures match FreeSlot(mount, RootDir(mount, disk))
              case None => !found
              case Some(k) => found && sectorOut < mount.rootSize && indexOut < 16 && k == 16 * sectorOut + indexOut
    {
      hide RootDir, FreeSlotFrom, SlotIn;
      var sector := 0;
      while sector < mount.rootSize
        invariant 0 <= sector <= mount.rootSize
        invariant FreeSlot(mount, RootDir(mount, disk)) == FreeSlotFrom(mount, RootDir(mount, disk), 16 * sector)
      {
        ReadSector(mount.rootStart + sector);
        var i := ScanForFree(mount, sectorBuffer[..]);
        FreeSlotSkips(mount, disk, disk[mount.rootStart + sector], sector, i);
        if i < 16 {
          return true, sector, i;
        }
        sector := sector + 1;
      }
      SearchesEnd(mount, RootDir(mount, disk), seq(11, _ => SPACE));
      return false, 0, 0;
    }

    /** Write the cached table to both mirrors. */
    method SyncFat()
      requires Valid()
      modifies `disk
      ensures Valid() && fatBuffer[..] == old(fatBuffer[..])
      ensures |disk| == |old(disk)| && forall s | 0 <= s < |disk| ::
                disk[s] == Synced(mount, fatBuffer[..], mount.sectorsPerFat, s, old(disk)[s])
    {
      var i := 0;
      while i < mount.sectorsPerFat
        invariant 0 <= i <= mount.sectorsPerFat
        invariant Valid() && fatBuffer[..] == old(fatBuffer[..])
        invariant |disk| == |old(disk)| && forall s | 0 <= s < |disk| ::
                    disk[s] == Synced(mount, fatBuffer[..], i, s, old(disk)[s])
      {
        disk := disk[mount.fatStart + i := fatBuffer[512 * i..512 * i + 512]];
        disk := disk[mount.fatStart + mount.sectorsPerFat + i := fatBuffer[512 * i..512 * i + 512]];
        i := i + 1;
      }
    }

    /** The allocation loop of `fat12_create`, for any count: it fails only at the first cluster, and
        since a non-final cluster is stored as free, every later round takes the same cluster again. */
    method AllocateClusters(clustersNeeded: nat) returns (ok: bool, firstCluster: u16)
      requires Valid()
      modifies fatBuffer
      ensures Valid()
      ensures var c := LeastFree(old(fatBuffer[..]));
              if clustersNeeded == 0 then ok && firstCluster == 0 && fatBuffer[..] == old(fatBuffer[..])
              else if c == 0 then !ok && fatBuffer[..] == old(fatBuffer[..])
              else ok && firstCluster == c && fatBuffer[..] == WithEntry(old(fatBuffer[..]), c, EOF)
    {
      ghost var fat := fatBuffer[..];
      ghost var c := LeastFree(fat);
      ok, firstCluster := true, 0;
      var prevCluster: u16 := 0;
      var i := 0;
      while i < clustersNeeded
        invariant 0 <= i <= clustersNeeded
        invariant Valid() && ok
        invariant i == 0 ==> firstCluster == 0
        invariant i > 0 ==> c != 0 && firstCluster == prevCluster == c
        invariant fatBuffer[..] == if 0 < i == clustersNeeded then WithEntry(fat, c, EOF) else fat
      {
        var cluster := FindFreeCluster();
        if cluster == 0 {
          return false, firstCluster;
        }
        if i == 0 {
          firstCluster := cluster;
        } else {
          SetClusterValue(prevCluster, cluster);
        }
        if i == clustersNeeded - 1 {
          SetClusterValue(cluster, EOF);
        } else {
          SetClusterValue(cluster, FREE);
        }
        SetTwice(fat, c, c, EOF);
        SetTwice(fat, c, c, FREE);
        SetSame(fat, c, FREE);
        prevCluster := cluster;
        i := i + 1;
      }
    }

    method CreateFile(filename: CString, size: u32, pageFree: bool) returns (r: int)
      requires Valid()
      modifies sectorBuffer, fatBuffer, `disk
      ensures Valid()
      ensures (r, Now()) == Create(mount, old(Now()), ToDos(filename), size, pageFree)
    {
      hide Created, RootDir, LookupFrom, FreeSlotFrom, LeastFreeFrom, ToDos, Synced, WithEntry, PutSlot, NewSlot,
           SlotIn, ValidMount, Opened;
      var dosName := new byte[11];
      ToDosFilename(filename, dosName);
      var existing := OpenFile(filename, pageFree);
      if existing != null {
        return -1;
      }
      var found, dirSector, dirIndex := FindFreeDirEntry();
      if !found {
        return -1;
      }
      var clustersNeeded := (size + 511) % 0x1_0000_0000 / 512;
      var ok, firstCluster := AllocateClusters(clustersNeeded);
      if !ok {
        return -1;
      }
      ghost var v := old(Now());
      SyncFat();
      ghost var synced := disk;
      WriteDirEntry(dirSector, dirIndex, dosName[..], firstCluster, size);
      CreatedInSteps(mount, v, fatBuffer[..], synced, dirSector, dirIndex, ToDos(filename), firstCluster, size);
      return 0;
    }

    /** The last part of `fat12_create`: patch one slot through the sector buffer. */
    method WriteDirEntry(dirSector: nat, dirIndex: nat, name: DosName, first: u16, size: u32)
      requires Valid() && dirSector < mount.rootSize && dirIndex < 16
      modifies sectorBuffer, `disk
      ensures Valid() && fatBuffer[..] == old(fatBuffer[..])
      ensures var s := mount.rootStart + dirSector;
              disk == old(disk)[s := PutSlot(old(disk)[s], dirIndex,
                                                     NewSlot(SlotIn(old(disk)[s], dirIndex), name, first, size))]
    {
      hide PutSlot, NewSlot, SlotIn, Entry, Bytes16, Bytes32;
      var s := mount.rootStart + dirSector;
      ReadSector(s);
      var o := 32 * dirIndex;
      StoreField(o, name);
      StoreField(o + 11, [0x20]);
      StoreField(o + 26, Bytes16(first));
      StoreField(o + 28, Bytes32(size));
      PatchedSector(disk[s], dirIndex, name, first, size);
      disk := disk[s := sectorBuffer[..]];
    }

    /** Assign one field of the directory entry held in the sector buffer. */
    method StoreField(at: nat, bytes: seq<byte>)
      requires sectorBuffer.Length == 512 && at + |bytes| <= 512
      modifies sectorBuffer
      ensures sectorBuffer[..] == WithField(old(sectorBuffer[..]), at, bytes)
    {
      forall b | 0 <= b < |bytes| {
        sectorBuffer[at + b] := bytes[b];
      }
    }

    method ReadFile(file: FileHandle?, buffer: array<byte>, size: u32) returns (bytesRead: nat)
      requires Valid() && size <= buffer.Length && buffer != sectorBuffer && buffer != fatBuffer
      modifies file, buffer, sectorBuffer
      ensures Valid() && Now() == old(Now())
      ensures file == null ==> bytesRead == 0 && buffer[..] == old(buffer[..])
      ensures file != null ==>
                && bytesRead == |ReadData(mount, Now(), old(file.Value()), size)| <= size
                && buffer[..] == ReadData(mount, Now(), old(file.Value()), size) + old(buffer[..])[bytesRead..]
                && file.Value() == AfterRead(mount, Now(), old(file.Value()), size)
    {
      if file == null {
        return 0;
      }
      if file.eof {
        ReadAtEof(mount, Now(), file.Value(), size);
        return 0;
      }
      var bytesRemaining: u32 := (file.fileSize - file.position) % 0x1_0000_0000;
      bytesRead := ReadLoop(file, buffer, if size > bytesRemaining then bytesRemaining else size, size);
      if file.currentCluster >= EOF_MIN {
        file.eof := true;
      }
    }

    /** The loop of `fat12_read`, for a byte count already capped by the file size. */
    method ReadLoop(file: FileHandle, buffer: array<byte>, count: nat, ghost size: u32) returns (bytesRead: nat)
      requires Valid() && count <= buffer.Length && buffer != sectorBuffer && buffer != fatBuffer
      requires !file.eof && count == Wanted(file.Value(), size)
      modifies file, buffer, sectorBuffer
      ensures Valid() && Now() == old(Now())
      ensures bytesRead == |ReadData(mount, Now(), old(file.Value()), size)|
      ensures buffer[..] == ReadData(mount, Now(), old(file.Value()), size) + old(buffer[..])[bytesRead..]
      ensures file.Value().(eof := file.currentCluster >= EOF_MIN) == AfterRead(mount, Now(), old(file.Value()), size)
      ensures !file.eof
    {
      hide ReadSoFar, ReadData, AfterRead, Entry, SectorOf, ValidMount, Wanted, InTable;
      bytesRead := 0;
      var left: nat := count;
      ghost var h, v := file.Value(), Now();
      ghost var data: seq<byte>, done: seq<u16> := [], [];
      ReadStarts(mount, v, h, size);
      while left > 0 && file.currentCluster < EOF_MIN
        invariant Valid() && Now() == v && bytesRead == |data| && bytesRead + left == count && !file.eof
        invariant ReadSoFar(mount, v, h, size, file.Value(), left, data, done)
        invariant buffer[..] == data + old(buffer[..])[bytesRead..]
      {
        var bytesToCopy;
        bytesToCopy, data, done := ReadOn(file, buffer, bytesRead, left, v, h, size, data, done);
        left := left - bytesToCopy;
        bytesRead := bytesRead + bytesToCopy;
      }
      ReadEnds(mount, v, h, size, file.Value(), left, data, done);
    }

    /** One turn of the loop and what has been read by then. */
    method ReadOn(file: FileHandle, buffer: array<byte>, at: nat, left: nat, ghost v: View, ghost h: Handle,
                  ghost size: u32, ghost data: seq<byte>, ghost done: seq<u16>)
      returns (n: nat, ghost data': seq<byte>, ghost done': seq<u16>)
      requires Valid() && Now() == v && buffer != sectorBuffer && buffer != fatBuffer
      requires 0 < left && at + left <= buffer.Length && file.currentCluster < EOF_MIN && !file.eof
      requires ReadSoFar(mount, v, h, size, file.Value(), left, data, done)
      requires at == |data| && buffer[..at] == data
      modifies file, buffer, sectorBuffer
      ensures Valid() && Now() == v && !file.eof
      ensures 0 < n <= left && at + n == |data'| && buffer[..] == data' + old(buffer[..])[at + n..]
      ensures ReadSoFar(mount, v, h, size, file.Value(), left - n, data', done')
    {
      hide ReadSoFar, Entry, SectorOf, ValidMount, Wanted, InTable;
      ReadTurn(mount, v, h, size, file.Value(), left, data, done);
      ghost var c := file.currentCluster;
      n := ReadCluster(file, buffer, at, left);
      data' := data + SectorOf(mount, v.disk, c)[..n];
      done' := done + [c];
    }

    /** One turn of the read loop: at most one sector into the caller's buffer, then the next cluster. */
    method ReadCluster(file: FileHandle, buffer: array<byte>, at: nat, left: nat) returns (n: nat)
      requires Valid() && buffer != sectorBuffer && buffer != fatBuffer
      requires 0 < left && at + left <= buffer.Length && file.currentCluster < EOF_MIN
      modifies file, buffer, sectorBuffer
      ensures Valid() && Now() == old(Now())
      ensures n == Min(512, left)
      ensures buffer[..] == old(buffer[..])[..at] + SectorOf(mount, disk, old(file.currentCluster))[..n]
                            + old(buffer[..])[at + n..]
      ensures InTable(fatBuffer[..], old(file.currentCluster))
      ensures file.Value() == old(file.Value()).(
                currentCluster := Entry(fatBuffer[..], old(file.currentCluster)),
                position := (old(file.position) + n) % 0x1_0000_0000)
    {
      hide Entry;
      LbaInRange(mount, |disk|, file.currentCluster);
      ReadSector(mount.dataStart + (file.currentCluster - 2) * mount.sectorsPerCluster);
      n := if left > 512 then 512 else left;
      forall b | 0 <= b < n {
        buffer[at + b] := sectorBuffer[b];
      }
      file.position := (file.position + n) % 0x1_0000_0000;
      file.currentCluster := GetNextCluster(file.currentCluster);
    }

    method WriteFile(file: FileHandle?, data: seq<byte>) returns (bytesWritten: int)
      requires Valid()
      modifies file, sectorBuffer, `disk
      ensures Valid() && fatBuffer[..] == old(fatBuffer[..])
      ensures file == null ==> bytesWritten == -1 && Now() == old(Now())
      ensures file != null ==>
                (Now(), file.Value(), bytesWritten) == AfterWrite(mount, old(Now()), old(file.Value()), data)
    {
      if file == null {
        return -1;
      }
      file.currentCluster := file.firstCluster;
      bytesWritten := WriteLoop(file, data, old(file.Value()));
    }

    /** The loop of `fat12_write`, starting at the file's first cluster. */
    method WriteLoop(file: FileHandle, data: seq<byte>, ghost h: Handle) returns (bytesWritten: nat)
      requires Valid() && file.Value() == h.(currentCluster := h.firstCluster)
      modifies file, sectorBuffer, `disk
      ensures Valid()
      ensures (Now(), file.Value(), bytesWritten) == AfterWrite(mount, old(Now()), h, data)
    {
      hide WrittenSoFar, AfterWrite, Entry, FilledSector, ValidMount;
      bytesWritten := 0;
      ghost var v := Now();
      ghost var done: seq<u16> := [];
      WriteStarts(mount, v, h, data);
      var size := |data|;
      while size > 0 && file.currentCluster < EOF_MIN
        invariant Valid() && fatBuffer[..] == v.fat
        invariant 0 <= size && bytesWritten + size == |data|
        invariant WrittenSoFar(mount, v, h, data, disk, file.Value(), bytesWritten, done)
      {
        WriteTurn(mount, v, h, data, disk, file.Value(), bytesWritten, done);
        done := done + [file.currentCluster];
        var bytesToWrite := if size > 512 then 512 else size;
        WriteCluster(file, data[bytesWritten..bytesWritten + bytesToWrite]);
        size := size - bytesToWrite;
        bytesWritten := bytesWritten + bytesToWrite;
      }
      WriteEnds(mount, v, h, data, disk, file.Value(), bytesWritten, done);
    }

    /** One turn of the write loop: one zero-filled sector to disk, then the next cluster. */
    method WriteCluster(file: FileHandle, part: seq<byte>)
      requires Valid() && |part| <= 512 && file.currentCluster < EOF_MIN
      modifies file, sectorBuffer, `disk
      ensures Valid() && fatBuffer[..] == old(fatBuffer[..])
      ensures var c := old(file.currentCluster);
              && 0 <= Lba(mount, c) < |old(disk)|
              && disk == old(disk)[Lba(mount, c) := FilledSector(part)]
              && InTable(fatBuffer[..], c)
              && file.Value() == old(file.Value()).(currentCluster := Entry(fatBuffer[..], c))
    {
      hide Entry, FilledSector;
      LbaInRange(mount, |disk|, file.currentCluster);
      var lba := mount.dataStart + (file.currentCluster - 2) * mount.sectorsPerCluster;
      FillBuffer(part);
      disk := disk[lba := sectorBuffer[..]];
      file.currentCluster := GetNextCluster(file.currentCluster);
    }

    /** `memset` to zero, then `memcpy` of the data: a zero-filled sector. */
    method FillBuffer(part: seq<byte>)
      requires sectorBuffer.Length == 512 && |part| <= 512
      modifies sectorBuffer
      ensures sectorBuffer[..] == FilledSector(part)
    {
      forall b | 0 <= b < 512 {
        sectorBuffer[b] := 0;
      }
      forall b | 0 <= b < |part| {
        sectorBuffer[b] := part[b];
      }
    }
  }

  /** What the read loop has done: the data so far lies along the clusters visited. */
  ghost predicate ReadSoFar(m: MountInfo, v: View, h: Handle, size: u32, now: Handle, left: nat,
                            data: seq<byte>, done: seq<u16>)
  {
    && Mounted(m, v) && !h.eof
    && |data| + left == Wanted(h, size)
    && Links(done)
    && ReadClusters(m, v, h, size) == done + Chain(v.fat, now.currentCluster, SectorCount(left))
    && After(v.fat, h.currentCluster, SectorCount(Wanted(h, size)))
       == After(v.fat, now.currentCluster, SectorCount(left))
    && |data| <= 512 * |done| && (left > 0 ==> |data| == 512 * |done|)
    && data == Gather(m, v.disk, done)[..|data|]
    && now == h.(currentCluster := now.currentCluster, position := (h.position + |data|) % 0x1_0000_0000)
  }

  lemma ReadStarts(m: MountInfo, v: View, h: Handle, size: u32)
    requires Mounted(m, v) && !h.eof
    ensures ReadSoFar(m, v, h, size, h, Wanted(h, size), [], [])
  {
  }

  lemma ReadTurn(m: MountInfo, v: View, h: Handle, size: u32, now: Handle, left: nat, data: seq<byte>, done: seq<u16>)
    requires ReadSoFar(m, v, h, size, now, left, data, done)
    requires left > 0 && now.currentCluster < EOF_MIN
    ensures var c, n := now.currentCluster, Min(512, left);
            && InTable(v.fat, c)
            && ReadSoFar(m, v, h, size,
                         now.(currentCluster := Entry(v.fat, c), position := (now.position + n) % 0x1_0000_0000),
                         left - n, data + SectorOf(m, v.disk, c)[..n], done + [c])
  {
    hide Chain, After, Gather, Entry, SectorCount, SectorOf, Wanted, Lba;
    var c, n := now.currentCluster, Min(512, left);
    WalkStep(v.fat, c, left);
    GatherAppend(m, v.disk, done, c);
    assert data == Gather(m, v.disk, done);
    assert Gather(m, v.disk, done + [c]) == data + SectorOf(m, v.disk, c);
    assert (data + SectorOf(m, v.disk, c))[..|data| + n] == data + SectorOf(m, v.disk, c)[..n];
    Regroup(done, c, Chain(v.fat, Entry(v.fat, c), SectorCount(left - n)));
    WrapAdd(h.position, |data|, n);
  }

  lemma ReadEnds(m: MountInfo, v: View, h: Handle, size: u32, now: Handle, left: nat, data: seq<byte>, done: seq<u16>)
    requires ReadSoFar(m, v, h, size, now, left, data, done)
    requires left == 0 || now.currentCluster >= EOF_MIN
    ensures data == ReadData(m, v, h, size)
    ensures AfterRead(m, v, h, size) == now.(eof := now.currentCluster >= EOF_MIN)
  {
    hide Chain, After, Gather, Entry, SectorCount;
    WalkEnds(v.fat, now.currentCluster, left);
    assert done + [] == done;
  }

  lemma ReadAtEof(m: MountInfo, v: View, h: Handle, size: u32)
    requires Mounted(m, v) && h.eof
    ensures ReadData(m, v, h, size) == [] && AfterRead(m, v, h, size) == h
  {
  }

  /** What the write loop has done: the rest of the data still to go along the clusters ahead. */
  ghost predicate WrittenSoFar(m: MountInfo, v: View, h: Handle, data: seq<byte>, disk: seq<Sector>, now: Handle,
                               at: nat, done: seq<u16>)
  {
    && Mounted(m, v) && |disk| == |v.disk| && at <= |data|
    && Links(done)
    && WriteClusters(m, v, h, data) == done + Chain(v.fat, now.currentCluster, SectorCount(|data| - at))
    && After(v.fat, h.firstCluster, SectorCount(|data|)) == After(v.fat, now.currentCluster, SectorCount(|data| - at))
    && at <= 512 * |done| && (at < |data| ==> at == 512 * |done|)
    && Store(m, v.disk, WriteClusters(m, v, h, data), data)
       == Store(m, disk, Chain(v.fat, now.currentCluster, SectorCount(|data| - at)), data[at..])
    && now == h.(currentCluster := now.currentCluster)
  }

  lemma WriteStarts(m: MountInfo, v: View, h: Handle, data: seq<byte>)
    requires Mounted(m, v)
    ensures WrittenSoFar(m, v, h, data, v.disk, h.(currentCluster := h.firstCluster), 0, [])
  {
    hide Chain, After, Store;
    assert data[0..] == data;
  }

  lemma WriteTurn(m: MountInfo, v: View, h: Handle, data: seq<byte>, disk: seq<Sector>, now: Handle, at: nat,
                  done: seq<u16>)
    requires WrittenSoFar(m, v, h, data, disk, now, at, done)
    requires at < |data| && now.currentCluster < EOF_MIN
    ensures var c, n := now.currentCluster, Min(512, |data| - at);
            && InTable(v.fat, c)
            && 0 <= Lba(m, c) < |disk|
            && WrittenSoFar(m, v, h, data, disk[Lba(m, c) := FilledSector(data[at..at + n])],
                            now.(currentCluster := Entry(v.fat, c)), at + n, done + [c])
  {
    hide Chain, After, Store, Entry, SectorCount, FilledSector;
    var c, n := now.currentCluster, Min(512, |data| - at);
    var rest := Chain(v.fat, Entry(v.fat, c), SectorCount(|data| - at - n));
    WalkStep(v.fat, c, |data| - at);
    Regroup(done, c, rest);
    StoreStep(m, disk, c, rest, data, at);
  }

  lemma WriteEnds(m: MountInfo, v: View, h: Handle, data: seq<byte>, disk: seq<Sector>, now: Handle, at: nat,
                  done: seq<u16>)
    requires WrittenSoFar(m, v, h, data, disk, now, at, done)
    requires at == |data| || now.currentCluster >= EOF_MIN
    ensures AfterWrite(m, v, h, data) == (View(disk, v.fat), now, at)
  {
    hide Chain, After, Store, Entry, SectorCount;
    WalkEnds(v.fat, now.currentCluster, |data| - at);
    StoreNothing(m, disk, data[at..]);
  }

  /** One turn of the read and write loops consumes one cluster and at most 512 bytes. */
  lemma WalkStep(fat: Fat, c: u16, n: nat)
    requires n > 0 && c < EOF_MIN
    ensures InTable(fat, c)
    ensures var rest := SectorCount(n - Min(512, n));
            && Chain(fat, c, SectorCount(n)) == [c] + Chain(fat, Entry(fat, c), rest)
            && After(fat, c, SectorCount(n)) == After(fat, Entry(fat, c), rest)
  {
    assert SectorCount(n) == SectorCount(n - Min(512, n)) + 1;
  }

  lemma WalkEnds(fat: Fat, c: u16, n: nat)
    requires n == 0 || c >= EOF_MIN
    ensures Chain(fat, c, SectorCount(n)) == [] && After(fat, c, SectorCount(n)) == c
  {
  }

  lemma Regroup(done: seq<u16>, c: u16, rest: seq<u16>)
    ensures done + ([c] + rest) == (done + [c]) + rest
  {
  }

  lemma WrapAdd(a: nat, b: nat, c: nat)
    ensures ((a + b) % 0x1_0000_0000 + c) % 0x1_0000_0000 == (a + (b + c)) % 0x1_0000_0000
  {
  }

  lemma StoreStep(m: MountInfo, disk: seq<Sector>, c: u16, cs: seq<u16>, data: seq<byte>, at: nat)
    requires ValidMount(m, |disk|) && c < EOF_MIN && Links(cs) && at < |data|
    ensures var k := Min(512, |data| - at);
            && 0 <= Lba(m, c) < |disk|
            && Links([c] + cs)
            && Store(m, disk, [c] + cs, data[at..])
               == Store(m, disk[Lba(m, c) := FilledSector(data[at..at + k])], cs, data[at + k..])
  {
    hide Store, FilledSector, Lba, ValidMount;
    var k, rest := Min(512, |data| - at), data[at..];
    assert rest[..k] == data[at..at + k] && rest[k..] == data[at + k..];
    assert ([c] + cs)[1..] == cs;
    StoreUnfold(m, disk, [c] + cs, rest);
  }

  lemma StoreNothing(m: MountInfo, disk: seq<Sector>, data: seq<byte>)
    requires ValidMount(m, |disk|)
    ensures Store(m, disk, [], data) == disk
    ensures forall cs: seq<u16> | Links(cs) :: Store(m, disk, cs, []) == disk
  {
  }

  function WithField(s: Sector, at: nat, bytes: seq<byte>): Sector
    requires at + |bytes| <= 512
  {
    s[..at] + bytes + s[at + |bytes|..]
  }

  /** A field store in a sector given as what comes before the field and the rest. */
  lemma StoreField(front: seq<byte>, rest: seq<byte>, at: nat, bytes: seq<byte>)
    requires |front| == at && |bytes| <= |rest| && |front + rest| == 512
    ensures WithField(front + rest, at, bytes) == (front + bytes) + rest[|bytes|..]
  {
    assert (front + rest)[..at] == front && (front + rest)[at + |bytes|..] == rest[|bytes|..];
  }

  lemma SplitAt(s: seq<byte>, i: nat, j: nat)
    requires i <= j <= |s|
    ensures s[i..] == s[i..j] + s[j..] && s == s[..i] + s[i..]
    ensures s[i..][j - i..] == s[j..]
  {
  }

  lemma Onward(front: seq<byte>, middle: seq<byte>, rest: seq<byte>)
    ensures front + (middle + rest) == (front + middle) + rest
  {
  }

  /** Storing the four fields in place is replacing the slot. */
  lemma PatchedSector(s: Sector, i: nat, name: DosName, first: u16, size: u32)
    requires i < 16
    ensures var o := 32 * i;
            WithField(WithField(WithField(WithField(s, o, name), o + 11, [0x20]), o + 26, Bytes16(first)),
                      o + 28, Bytes32(size))
            == PutSlot(s, i, NewSlot(SlotIn(s, i), name, first, size))
  {
    var o := 32 * i;
    SlotParts(s, i, name, first, size);
    hide Bytes16, Bytes32, WithField, NewSlot, SlotIn, PutSlot;
    var middle := s[o + 12..o + 26];
    SplitAt(s, o, o + 11);
    StoreField(s[..o], s[o..], o, name);
    SplitAt(s, o + 11, o + 12);
    StoreField(s[..o] + name, s[o + 11..], o + 11, [0x20]);
    SplitAt(s, o + 12, o + 26);
    Onward(s[..o] + name + [0x20], middle, s[o + 26..]);
    SplitAt(s, o + 26, o + 28);
    StoreField(s[..o] + name + [0x20] + middle, s[o + 26..], o + 26, Bytes16(first));
    SplitAt(s, o + 28, o + 32);
    StoreField(s[..o] + name + [0x20] + middle + Bytes16(first), s[o + 28..], o + 28, Bytes32(size));
  }

  lemma SlotParts(s: Sector, i: nat, name: DosName, first: u16, size: u32)
    requires i < 16
    ensures var o := 32 * i;
            PutSlot(s, i, NewSlot(SlotIn(s, i), name, first, size))
            == s[..o] + name + [0x20] + s[o + 12..o + 26] + Bytes16(first) + Bytes32(size) + s[o + 32..]
  {
    hide Bytes16, Bytes32, Le16, Le32, NameOf, FirstOf, SizeOf;
    var o := 32 * i;
    assert SlotIn(s, i)[12..26] == s[o + 12..o + 26];
    assert s[..o] + NewSlot(SlotIn(s, i), name, first, size)
        == s[..o] + name + [0x20] + s[o + 12..o + 26] + Bytes16(first) + Bytes32(size);
  }

  /** Syncing the table and then patching one slot gives the created volume. */
  lemma CreatedInSteps(m: MountInfo, v: View, fat: seq<byte>, synced: seq<Sector>, dirSector: nat, dirIndex: nat,
                       name: DosName, first: u16, size: u32)
    requires Mounted(m, v) && dirSector < m.rootSize && dirIndex < 16 && first < EOF_MIN
    requires fat == if first == 0 then v.fat else WithEntry(v.fat, first, EOF)
    requires |synced| == |v.disk|
    requires forall s | 0 <= s < |synced| :: synced[s] == Synced(m, fat, m.sectorsPerFat, s, v.disk[s])
    ensures var s := m.rootStart + dirSector;
            var slot := NewSlot(SlotIn(synced[s], dirIndex), name, first, size);
            View(synced[s := PutSlot(synced[s], dirIndex, slot)], fat)
            == Created(m, v, name, size, 16 * dirSector + dirIndex, first)
  {
    hide PutSlot, NewSlot, SlotIn, RootDir, WithEntry;
    var k := 16 * dirSector + dirIndex;
    assert k / 16 == dirSector && k % 16 == dirIndex;
    RootDirAt(m, v.disk, dirSector, dirIndex);
  }

  lemma SearchesEnd(m: MountInfo, slots: seq<DirSlot>, name: DosName)
    ensures LookupFrom(m, slots, name, |slots|) == None && FreeSlotFrom(m, slots, |slots|) == None
  {
  }

  lemma {:induction false} LookupSkips(m: MountInfo, disk: seq<Sector>, entries: Sector, name: DosName, sector: nat,
      i: nat)
    requires ValidMount(m, |disk|) && sector < m.rootSize && i <= 16
    requires entries == disk[m.rootStart + sector]
    requires forall j | 0 <= j < i :: !StopsLookup(m, SlotIn(entries, j), name)
    ensures var slots, k := RootDir(m, disk), 16 * sector + i;
            && LookupFrom(m, slots, name, 16 * sector) == LookupFrom(m, slots, name, k)
            && (i < 16 ==> slots[k] == SlotIn(entries, i))
            && (i < 16 && StopsLookup(m, slots[k], name) ==>
                  LookupFrom(m, slots, name, k) == if IsEnd(slots[k]) then None else Some(k))
  {
    if i < 16 {
      RootDirAt(m, disk, sector, i);
    }
    if i > 0 {
      LookupSkips(m, disk, entries, name, sector, i - 1);
    }
  }

  lemma {:induction false} FreeSlotSkips(m: MountInfo, disk: seq<Sector>, entries: Sector, sector: nat, i: nat)
    requires ValidMount(m, |disk|) && sector < m.rootSize && i <= 16
    requires entries == disk[m.rootStart + sector]
    requires forall j | 0 <= j < i :: Live(m, SlotIn(entries, j))
    ensures var slots, k := RootDir(m, disk), 16 * sector + i;
            && FreeSlotFrom(m, slots, 16 * sector) == FreeSlotFrom(m, slots, k)
            && (i < 16 ==> slots[k] == SlotIn(entries, i))
            && (i < 16 && !Live(m, slots[k]) ==> FreeSlotFrom(m, slots, k) == Some(k))
  {
    if i < 16 {
      RootDirAt(m, disk, sector, i);
    }
    if i > 0 {
      FreeSlotSkips(m, disk, entries, sector, i - 1);
    }
  }

  lemma {:induction false} GatherAppend(m: MountInfo, disk: seq<Sector>, cs: seq<u16>, c: u16)
    requires ValidMount(m, |disk|) && Links(cs) && c < EOF_MIN
    ensures Gather(m, disk, cs + [c]) == Gather(m, disk, cs) + SectorOf(m, disk, c)
  {
    if cs == [] {
      assert [c][1..] == [];
    } else {
      assert (cs + [c])[1..] == cs[1..] + [c];
      GatherAppend(m, disk, cs[1..], c);
    }
  }
}
