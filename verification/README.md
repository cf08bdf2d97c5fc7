# Verified model of the kernel's file system, memory manager, keyboard, screen and number printing

The project models five parts of the kernel and proves properties of them with Dafny 4.11.
`dafny verify dfyconfig.toml` checks everything.

**FAT12 file system** (`fs/fs.c`). `FileSystem.Fat12` is the driver as a class: the mount information, the cached
table and the sector buffer are updated in place, the disk is a sequence of 512-byte sectors, and every operation has
its loops. Each method is tied to a function of the volume (`Volume`), and on those functions `Refinement` proves the
main theorem, `RunRefines`: over every run of create, open, read and write from a well-formed volume the driver
answers as a map from 8.3 names to file contents does, and still refines it at the end. The map carries what creates
depend on, the room left in the directory and the spare clusters with what their sectors hold, and never looks at the
volume. `FileSessions.Session` makes the calls on the class itself and so ties its methods to the theorem. Multi-cluster
chains come from the mounted volume; `Chains` shows that following one ends exactly when it never returns to a cluster,
and `FatTable` that the packed 12-bit entries behave as an array although neighbours share a byte. `DiskLayout` says
in bytes and numbers what stands where: the boot sector, directory slots, the table, the bytes of a file, so that none
of the functions the methods are tied to rests on its own definition alone.

**Frames and paging** (`mm/`, `boot/paging.asm`). `FrameAllocator.Allocator` is the first-fit bitmap. `Paging.Mmu`
holds physical memory as frames of 1024 words and makes every access to a table through the hardware walk of the
current directory (section 4.3, "32-Bit Paging", of the Intel SDM volume 3A), so a table that was not mapped when it is
touched would be a failed precondition. `MapPage` changes the translation of one page and no other, also when it has
to allocate a table; `Initialize`, from the tables `SetupPaging` builds, ends with exactly the direct map; and
`PagingRuns.RunStaysSound` covers all runs of page allocation and release, tables added on the way included, with
`ServeAll` making such runs on the class itself.

**Keyboard** (`drivers/keyboard.c`). `LineReader` splits the blocking read into its single steps and lets an interrupt
come between any two of them. `RunSoundIff` shows that no byte is lost, repeated or reordered exactly if every commit
fits in the ring, and `ReadsAreServed` that the finished reads are those of a line reader that sees all committed
lines at once; a read returns without waiting exactly when a line is there (`CallReturns`, `CallWaits`). What is typed is
what `EditingLaws` and `TypedLine` leave of it. `KeyboardDriver.Driver` is the code on its arrays, tied step by step to
that machine.

**Screen** (`drivers/screen.c`). `Screen.TextScreen` is the code on video memory and the cursor registers; video memory is
proved to be the last 25 rows of a transcript that only grows.

**Numbers** (`lib/print.c`, `lib/util.c`). What is printed is the one well-formed numeral with the argument's value.

`Bits` gives `&` and `|` on integers, so that words of 8, 12, 16 and 32 bits are integers in their range; arithmetic
that wraps in C is written with its modulus.

## Where the code differs from its intent

Each of these is a theorem with the exact condition, stated for all inputs. For those whose failing side needs a state
to be reached first, a lemma gives one: `FileWitnesses` starts from a freshly formatted volume, and
`LongestLineIsLost` from start-up.

- Creating a file makes a chain of one cluster whatever its size, because the allocation loop stores 0 in every cluster
  but the last and so finds the same cluster again: there is room for the size exactly when it is at most 512
  (`CreatedRoomIff`, for `fs/fs.c:265-279`; a file of size 1000 in `NoRoomFor1000`).
- A create of size 0, or of a size for which `size + 511` wraps, makes no chain (`NoClusterNeeded`); a write to a file
  without clusters leaves the data area (`WriteStaysInDataIff`); and after a create of a wrapped size, or of a name that
  is already there but could not be opened for want of a page, the volume is no longer well formed
  (`CreateKeepsWellFormedIff`; `WrappedSizeBreaks`, `SecondCreateBreaks` and `EmptyFileOverwritesDirectory` are runs).
- Where plain `char` is signed, as on the target, the comparisons with 0xE5 at `fs/fs.c:111` and `fs/fs.c:233` never
  hold; `MountInfo.charSigned` covers both readings (`CreateThenOpenIff`).
- `sync_fat` writes two mirrors whatever the boot sector says; they miss the root directory exactly when there are at least
  two tables or no root directory (`MirrorsMissRootIff`).
- Two reads give what one read would exactly when the first count is a multiple of 512 or nothing is left for the
  second, because the handle moves by whole clusters (`SplitReadIff`).
- Listed and converted names round-trip exactly for normal forms and for names that fit (`ListedNameRoundTrip`,
  `ConvertedNameRoundTrip`).
- The used-block counter starts as the number of marked managed frames only if there are fewer than eight of them and
  all were marked before, since the fill byte is 0x0f (`CounterStartsRightIff`); freeing keeps their difference exactly
  when the frame was marked (`FreeKeepsDriftIff`).
- `set_frame` masks with a constant that lacks bit 31, so an entry names the given frame exactly when bit 31 of the old
  entry was clear or the new address has it set (`InstalledMeaning`).
- `pt_entry_pfn` gives the frame's address exactly when bit 31 is clear (`PfnMeaning`).
- `vmmngr_map_page` maps any page it is given; the kernel's windows on its own tables survive exactly when the page is
  none of them or stays it (`MapInTable`, `MapPage`). `vmmngr_free_page` likewise releases any frame; the tables survive
  exactly when the page is no window of theirs and the frame holds none of them (`ReleasePage`, `FreePage`).
- The null test of `vmmngr_map_page` comes after `P2V`: it fires only for a table at 1 GB (`NullTestIff`).
- The key ring has no full check: a line is all there exactly when it fits (`PutAllKeepsIff`, `RunSoundIff`); the
  longest line the line buffer takes is lost whole (`LongestLineIsLost`).
- `print_char` stores inside video memory exactly for characters that have their cell there (`PrintableIff`); a message
  starting below the screen is a single E (`MessageBeyond`).
- Nothing of the boot sector but its type string is checked when mounting: the driver's state is usable exactly when the
  geometry is one (`Init`).
- The cursor registers hold an offset exactly when it is even and below 0x20000 (`CursorRoundTripIff`).
- `print_int` prints its argument exactly when that is not the least int, for which only the sign appears (`PrintInt`).

## Model

| member | source | states |
|---|---|---|
| FatTable.SetThenGet | fs/fs.c:137-166 | setting a 12-bit entry and reading it back gives the low twelve bits of the value |
| FatTable.SetKeepsOthers | fs/fs.c:157-166 | every other entry is unchanged by a set, although neighbours share a byte |
| FatTable.SetSame | fs/fs.c:157-166 | writing an entry's own value back changes no byte of the table |
| FatTable.SetTwice | fs/fs.c:157-166 | of two writes to the same entry only the last shows, in every byte |
| FatTable.EntryValue | fs/fs.c:137-154 | the entry is the upper or lower twelve bits of its 16-bit word, by the parity of the cluster |
| Chains.TerminatesIffAcyclic | fs/fs.c:308-324 | following the table from a cluster reaches an end marker if and only if no cluster is ever visited twice |
| Chains.ChainLinks | fs/fs.c:190-206 | inside a chain each cluster's entry is the next cluster |
| Chains.ChainFrame | fs/fs.c:137-154 | a chain depends only on the entries of its own clusters |
| Chains.GoodChainNotFree | fs/fs.c:216-224 | no cluster of a file's chain looks free to the allocator |
| DosNames.ToDosIsClean | fs/fs.c:65-89 | a converted name holds no NUL and no lower-case letter, and its base holds no dot |
| DosNames.ListedNameRoundTrip | fs/fs.c:353-366 | converting a listed name gives back the same eleven bytes if and only if they are a normal form |
| DosNames.ConvertedNameRoundTrip | fs/fs.c:65-89 | listing the converted form of a name shows the name with 'a' to 'z' as 'A' to 'Z' and every other byte as it is, if and only if the name fits 8.3 |
| DosNames.ToDosBytes | fs/fs.c:65-89 | the converted name byte by byte: what precedes the first dot in the first eight bytes, what follows it in the last three, letters as capitals, blanks after them |
| DosNames.CaseDoesNotMatter | fs/fs.c:72-85 | names of the same length that differ at most by 'A' + k against 'a' + k for k below 26 convert to the same eleven bytes |
| DosNames.CapitalsStay | fs/fs.c:72-85 | a name without lower-case letters keeps its bytes in the conversion |
| DosNames.ShownBytes | fs/fs.c:353-366 | the listed name byte by byte: the base up to its first blank, then, unless the extension is blank, a dot and the extension up to its first blank |
| Volume.MirrorsMissRootIff | fs/fs.c:22-29 | the two mirrors `sync_fat` writes miss the root directory if and only if there are two tables or no root directory |
| Volume.LbaInRange | fs/fs.c:192-193 | the sector of every cluster number below the end markers is on the disk, and in the data area from cluster 2 on |
| Volume.LbaInjective | fs/fs.c:192-193 | different clusters have different sectors |
| Volume.FreeSlotIsFirst | fs/fs.c:227-241 | the free slot found is the first one holding no file; none is found only in a full directory |
| DiskLayout.MountReads | fs/fs.c:17-29 | for a boot sector laid out byte by byte from any sector, reserved, entry and table sizes, table count and cluster size, mounting gives those numbers back, the root directory after all tables and the data after entries * 32 / sector size more sectors |
| DiskLayout.FormattedIff | fs/fs.c:13-15 | a boot sector is accepted if and only if its bytes from 0x36 on are `FAT12   ` |
| DiskLayout.DeletedMeans | fs/fs.c:111-113 | a name reads as deleted if and only if its first byte, as a signed or unsigned `char`, equals 0xE5 |
| DiskLayout.LiveMeans | fs/fs.c:106-113 | a slot holds a file if and only if its first byte is not 0, and not 0xE5 where `char` is unsigned |
| DiskLayout.SlotBytes | fs/fs.c:96-103 | slot k of the directory is 32 bytes of sector k / 16 of the root area |
| DiskLayout.SlotFields | fs/fs.h:33-47 | first cluster and size of a slot are its bytes 26 and 27 and its bytes 28 to 31, low byte first, and so are those of the handle opened on it |
| DiskLayout.NewSlotBytes | fs/fs.c:283-289 | the slot a create leaves, byte by byte: name, 0x20, the old bytes 12 to 25, first cluster and size low byte first |
| DiskLayout.LookupMeans | fs/fs.c:96-133 | a search finds the first live slot with the name's eleven bytes that no slot with first byte 0 precedes, and nothing only if there is none |
| DiskLayout.EntryBytes | fs/fs.c:137-154 | two table entries in three bytes: the even one has the low byte and the lower half of the middle one, the odd one the rest |
| DiskLayout.LeastFreeMeans | fs/fs.c:216-224 | the cluster taken is the least one from 2 to 4083 whose entry is 0, or none if there is no such entry |
| DiskLayout.WalkMeans | fs/fs.c:308-324 | a walk ends at 0xFF8 and above and otherwise goes on with the entry |
| DiskLayout.MirrorBytes | fs/fs.c:169-177 | byte i of the table is byte i % 512 of the i / 512-th sector of each copy |
| DiskLayout.FileBytes | fs/fs.c:192-198 | the n-th byte along a chain is byte n % 512 of the sector of its n / 512-th cluster, cluster 2 being at the start of the data |
| DiskLayout.OverlayBytes | fs/fs.c:306-324 | after a write, byte by byte: the data, zeros to the end of its last sector, then what was there |
| DiskLayout.CreatedElsewhere | fs/fs.c:281-291 | a create changes no byte of the disk outside the two tables and the 32 bytes of its slot |
| FileSystem.ToDosFilename | fs/fs.c:65-89 | the conversion loops fill the caller's buffer with the 8.3 form of the name |
| FileSystem.CopyExtension | fs/fs.c:80-88 | the last loop puts up to three upper-cased characters after the dot into the extension and keeps the rest |
| FileSystem.FormatName | fs/fs.c:353-366 | the listing's loops leave the shown form of an entry's name as a C string |
| FileSystem.ScanForName | fs/fs.c:103-130 | the scan of one directory sector stops at the first slot that ends the search or has the name |
| FileSystem.ScanForFree | fs/fs.c:232-238 | the scan of one directory sector stops at the first slot holding no file |
| FileSystem.Fat12.Init | fs/fs.c:7-62 | mounting succeeds exactly when the eight bytes from 0x36 on read `FAT12   ` and there is memory for the table; then the geometry is, number by number, what the boot sector has in its fields, the cached table is the first copy, and the state is usable if and only if the geometry is a valid one |
| FileSystem.Fat12.GetNextCluster | fs/fs.c:137-154 | the table lookup is the packed entry |
| FileSystem.Fat12.SetClusterValue | fs/fs.c:157-166 | the read-modify-write leaves the table with that one entry set |
| FileSystem.Fat12.FindFreeCluster | fs/fs.c:216-224 | the least free cluster in [2, 4084), or 0 if there is none |
| FileSystem.Fat12.OpenFile | fs/fs.c:92-134 | a fresh handle at the start of the file of that name, or null; disk and table unchanged |
| FileSystem.Fat12.SearchRoot | fs/fs.c:96-133 | the scan over the root sectors finds the slot the search over the whole directory finds |
| FileSystem.Fat12.FindFreeDirEntry | fs/fs.c:227-241 | sector and index of the first slot holding no file |
| FileSystem.Fat12.SyncFat | fs/fs.c:169-177 | both mirrors receive the cached table and no other sector changes |
| FileSystem.Fat12.AllocateClusters | fs/fs.c:260-279 | for any count the loop fails only if no cluster is free, and otherwise changes one entry, the least free cluster, to the end marker |
| FileSystem.Fat12.CreateFile | fs/fs.c:244-294 | result code, disk and table are those of the create function: all unchanged on failure |
| FileSystem.Fat12.WriteDirEntry | fs/fs.c:283-291 | exactly one slot of the directory is replaced on disk |
| FileSystem.Fat12.ReadFile | fs/fs.c:180-213 | the caller's buffer receives the bytes along the chain up to size, file size and chain end; the handle moves accordingly |
| FileSystem.Fat12.ReadLoop | fs/fs.c:190-206 | the read loop, terminating even on a cyclic chain because the remaining count falls |
| FileSystem.Fat12.WriteFile | fs/fs.c:297-327 | disk, handle and count are those of writing zero-filled sectors along the chain from its first cluster |
| FileSystem.Fat12.WriteLoop | fs/fs.c:308-324 | the write loop, terminating even on a cyclic chain |
| FileSystem.PatchedSector | fs/fs.c:286-289 | storing the four fields in place is replacing the directory slot |
| VolumeInvariant.LookupFinds | fs/fs.c:96-133 | in a good directory the search finds the one live slot of a name, wherever it is |
| VolumeInvariant.FillSlot | fs/fs.c:283-289 | filling the first free slot keeps names unique and the end marker last if and only if the name was not there |
| VolumeInvariant.AllocationKeepsFile | fs/fs.c:260-279 | allocating a free cluster leaves every file's chain as it was, and the cluster is in none of them |
| VolumeInvariant.AllocationMakesChain | fs/fs.c:260-279 | the allocated cluster is a good chain by itself |
| VolumeInvariant.StoreKeepsSector | fs/fs.c:308-324 | a write touches no sector but those of the clusters it goes along |
| VolumeInvariant.GatherStoreApart | fs/fs.c:308-324 | a write along one chain leaves the bytes along every disjoint list of clusters alone |
| VolumeInvariant.GatherStore | fs/fs.c:308-324 | after a write the bytes along the chain are the data, zeros to the end of the last sector written, then the old bytes |
| Refinement.ReadAlong | fs/fs.c:180-213 | a read through a handle at the i-th cluster gives the file's bytes from there on, cut to size, and moves the handle on along the chain |
| Refinement.WriteAlong | fs/fs.c:297-327 | a write overlays the bytes along the file's own chain and leaves its handle behind them |
| Refinement.WriteOneFile | fs/fs.c:297-327 | a write changes its own file's bytes and no other file's |
| Refinement.CreatedSlots | fs/fs.c:283-291 | a successful create replaces one directory slot and leaves all others |
| Refinement.CreatedSectors | fs/fs.c:281-291 | a successful create touches no data sector and makes both mirrors equal to the cached table |
| Refinement.CreatedKeepsFile | fs/fs.c:260-291 | every old file keeps its chain and its bytes, and the new cluster is in none of the chains |
| Refinement.CreatedFile | fs/fs.c:260-291 | the new file holds what its one sector held before; it is a good file if and only if it has a cluster or size 0 |
| Refinement.NoClusterNeeded | fs/fs.c:261 | the 32-bit cluster count is zero exactly for size 0 and for sizes within 511 of the word's end |
| Refinement.CreateSucceedsIff | fs/fs.c:244-294 | create succeeds if and only if the name is not found open, a directory slot is free, and a cluster is free if one is needed |
| Refinement.CreateKeepsWellFormedIff | fs/fs.c:244-294 | a successful create keeps chains terminated, disjoint and names unique if and only if the name reads as deleted, or is new and its size does not wrap |
| Refinement.CreateAnswers | fs/fs.c:244-294 | create, proper or not, answers as the map does from its names, room and spare clusters, and takes the cluster the map takes |
| Refinement.LeastIsLowest | fs/fs.c:216-224 | the least free cluster of the table is the lowest spare cluster of the map |
| Refinement.RoomAfter | fs/fs.c:283-291 | filling a free slot takes one from the room, unless what it is filled with reads as deleted |
| Refinement.SpareAfterWrite | fs/fs.c:308-324 | a write along a file's chain keeps the spare clusters and their sectors |
| Refinement.SpareAfterCreate | fs/fs.c:260-291 | a create takes exactly its cluster from the spare ones and keeps the sectors of the others |
| Refinement.StepRefines | fs/fs.c:92-327 | one proper call answers as the map of files does and still refines it |
| Refinement.RunRefines | fs/fs.c:92-327 | over every run of proper calls all replies are those of the map's own run, which never looks at the volume, and the volume refines the map at the end |
| FileTheorems.WellFormedRefines | fs/fs.c:7-62 | every well-formed volume refines the map of its live files, so the theorem on runs applies to it |
| FileTheorems.FormattedIsEmpty | fs/fs.c:7-62 | a freshly formatted volume, once mounted, is well formed and stands for no files and room for as many as the directory has slots |
| FileTheorems.SaveThenLoad | fs/fs.c:180-213 | open, write, open again and read gives the written bytes over zero fill and old bytes, cut to the file's size; all other files unchanged |
| FileTheorems.ReadMeans | fs/fs.c:180-213 | a read delivers the file's bytes from its cluster on, as many as are asked for, left of the size and left on the chain; the handle moves on by whole clusters; at the end it delivers nothing |
| FileTheorems.SplitReadIff | fs/fs.c:180-213 | reading x then y bytes is reading x + y bytes, whatever the file holds, if and only if x is a multiple of 512, y is 0, or nothing is left after x |
| FileTheorems.DriverSplitRead | fs/fs.c:180-213 | on the disk, two such reads through one handle return together what one read would |
| FileTheorems.CreateChangesOneEntry | fs/fs.c:216-281 | a successful create of a size from 1 to 2^32 - 512 changes the entry of the least cluster from 2 to 4083 whose entry is 0 to 0xFFF and no other entry; any other size changes none |
| FileTheorems.CreatedRoomIff | fs/fs.c:260-291 | the created file has room for its size if and only if the size is at most 512 |
| FileTheorems.CreateThenOpenIff | fs/fs.c:92-134 | after a create of a new name, open by that name in any case of its letters finds it with its first cluster and size, unless its first byte reads as deleted |
| FileTheorems.AnyCase | fs/fs.c:65-134 | opens and creates by names that differ only in the case of letters are the same calls |
| FileTheorems.ProperCreateIff | fs/fs.c:244-294 | a create leaves the volume well formed if and only if it is proper: it fails, or its name reads as deleted, or its name is new and its size does not wrap |
| FileTheorems.ProperWriteIff | fs/fs.c:306-324 | a write through a handle stays in the data area if and only if it is proper: the file has clusters or nothing is written |
| FileTheorems.WriteStaysInDataIff | fs/fs.c:306-324 | a write stays in the data area, in the file's own chain, if and only if the file has clusters or nothing is written |
| FileTheorems.StepKeepsMirrors | fs/fs.c:169-177 | after every call but a write to a file without clusters the cached table equals the first copy, and from the first successful create on both copies |
| FileSessions.Call | fs/fs.c:92-327 | one call on the class, with the handles it gave out, is the step of the driver on values |
| FileSessions.Session | fs/fs.c:92-327 | a whole session on the class is a run; from a state that refines the map, proper calls get the map's replies |
| FileWitnesses.SmallIsEmpty | fs/fs.c:7-62 | a formatted volume with 32 root entries is well formed, holds nothing, and has every cluster spare |
| FileWitnesses.NoRoomFor1000 | fs/fs.c:260-291 | there a file of size 1000 is created with less room than that |
| FileWitnesses.WrappedSizeBreaks | fs/fs.c:261 | there a create of size 2^32 - 1 succeeds and leaves a volume that is not well formed |
| FileWitnesses.SecondCreateBreaks | fs/fs.c:248-252 | there a second create of a name, without a page for opening it, succeeds and leaves a volume that is not well formed |
| FileWitnesses.EmptyFileOverwritesDirectory | fs/fs.c:306-317 | there one byte written to a file of size 0 overwrites the first directory sector, and the file is not found any more |
| FrameAllocator.OneFrameChanges | mm/memory.c:33-40 | setting or clearing one bit of the bitmap adds or removes exactly that frame |
| FrameAllocator.UsedIff | mm/memory.c:43-45 | frame 32 * i + j is marked if and only if word i has the j-th of the powers of two from 1 to 0x80000000 set |
| FrameAllocator.Allocator.MmapSet | mm/memory.c:33-35 | the bitmap after marking a frame |
| FrameAllocator.Allocator.MmapUnset | mm/memory.c:38-40 | the bitmap after clearing a frame |
| FrameAllocator.Allocator.MmapFirstFree | mm/memory.c:48-60 | the nested word and bit scan finds the least unmarked frame f with f / 32 below the block count / 32, or -1 if and only if there is none |
| FrameAllocator.Allocator.InitMemMngr | mm/memory.c:8-17 | the counter equals the block count, KB * 1024 / 4096 in 32 bits, while of each eight managed frames the low four are marked and the high four are not |
| FrameAllocator.Allocator.InitMemoryRegion | mm/memory.c:19-30 | the frames from base / 4096 to base / 4096 + size / 4096, one more than the region has whole blocks, are released, then frame 0 is marked; the counter falls by as many |
| FrameAllocator.Allocator.AllocMemoryBlock | mm/memory.c:98-114 | the address and the new state are those of the first-fit allocation function (`AllocMeans` says what that is) |
| FrameAllocator.Allocator.FreeMemoryBlock | mm/memory.c:117-124 | frame p / 4096 is cleared, no other frame changes, and the counter falls by one in 32 bits |
| FrameAllocator.FirstFreeIsLeast | mm/memory.c:48-60 | the frame found is unmarked and every frame before it is marked; -1 only if all scanned frames are marked; scanned are exactly the frames whose word is below the block count / 32 |
| FrameAllocator.AllocFailsIff | mm/memory.c:98-114 | allocation yields null if and only if the counter says full or every frame f with f / 32 below the block count / 32 is marked, and then changes nothing |
| FrameAllocator.AllocMeans | mm/memory.c:98-114 | if the counter does not say full and some frame f with f / 32 below the block count / 32 is unmarked, the least such frame is marked, its address is 4096 times it, and the counter rises by one in 32 bits; otherwise 0 and no change |
| FrameAllocator.AllocIsFresh | mm/memory.c:98-114 | the frame handed out is the least free one, in a word that is scanned, not live, not frame 0, and its address does not overflow |
| FrameAllocator.FreeKeepsDriftIff | mm/memory.c:117-124 | freeing keeps the counter's distance from the marked frames if and only if the frame was marked |
| FrameAllocator.StepSound | mm/memory.c:98-124 | each allocation and each free of a live frame keeps live frames marked, frame 0 out of use, and the counter's distance |
| FrameAllocator.RunIsFresh | mm/memory.c:98-124 | over every run no live frame is handed out again, frame 0 never is, and the counter's distance from the marked frames is constant |
| FrameAllocator.CounterStartsRightIff | mm/memory.c:8-17 | right after initialisation, whatever the bitmap held before, the counter is the number of marked managed frames if and only if there are fewer than eight and all were marked before |
| PageEntries.EntryMeaning | mm/paging.h:14-16 | the presence test is the lowest bit and `PAGE_GET_PHYSICAL_ADDRESS` clears the low twelve bits |
| PageEntries.PfnMeaning | mm/vmmngr_pte.c:23-25 | `pt_entry_pfn` gives the frame's address if and only if bit 31 of the entry is clear |
| PageEntries.DelPresent | mm/vmmngr_pte.c:7-9 | clearing the present bit keeps every other bit |
| PageEntries.IndexMeaning | mm/paging.h:14-15 | the two index macros split a page number into directory slot and table slot |
| PageEntries.SetFrameMeaning | mm/vmmngr_pte.c:11-13 | after `set_frame` the frame field is the address with the old entry's bit 31, the low bits kept |
| PageEntries.AddAttribMeaning | mm/vmmngr_pde.c:3-5 | a low attribute changes neither the frame nor, unless it is the present bit, presence |
| PageEntries.InstalledMeaning | mm/paging.c:92-95 | an installed entry is present and names its frame if and only if bit 31 was clear before or is set in the address |
| PageEntries.InstalledWord | mm/paging.c:92-106 | the whole word an entry becomes: the address, bit 31 if it was set, the old bits 3 to 11, and 7 for present, writable and user |
| AddressSpace.NullTestIff | mm/paging.c:85-88 | the null test after `P2V` fires only for a table at 1 GB |
| AddressSpace.TranslateMeans | mm/paging.h:14-16 | an address is ten bits of directory slot, ten of table slot and twelve of offset; it translates if both entries are odd, to the upper twenty bits of the second and the offset |
| AddressSpace.MapInTable | mm/paging.c:98-106 | through an existing table exactly one page's translation changes, and the kernel still reaches its tables if and only if the page is no window of theirs or stays one |
| AddressSpace.WindowsAfter | mm/paging.c:98-106 | after one page is mapped anew, all windows of the tables are there if and only if that page is none of them or still maps its frame |
| AddressSpace.NoTableSparesWindows | mm/paging.c:84-96 | a page without a table is nobody's window |
| AddressSpace.AddTable | mm/paging.c:84-96 | hooking in a cleared table from an unused frame changes no translation |
| AddressSpace.UnmapPage | mm/paging.c:63-74 | clearing the present bit takes exactly that page out of the translation, and the kernel still reaches its tables if and only if it is no window of theirs |
| AddressSpace.ReleasePage | mm/paging.c:63-74 | with the frame marked unused as well, the tables stay usable if and only if the page is no window of theirs and the frame holds none of them |
| AddressSpace.InstallTable | mm/paging.c:155-158 | hooking a table in an unused frame into an empty slot adds that table's pages and no others |
| BootPaging.BootMapping | boot/paging.asm:20-81 | the boot tables map the first 4 MB at 0 and at 3 GB and nothing else, and are reachable through that map |
| BootPaging.BootWords | boot/paging.asm:20-81 | the boot tables word by word, at 0x9C000, 0x9D000 and 0x9E000 |
| BootPaging.BootTranslates | boot/paging.asm:20-81 | an address below 4 MB translates to itself, one less than 4 MB above 3 GB to what it is above, and no other |
| BootPaging.MapsMean | mm/paging.c:177-193 | mapping the pages for `total` bytes makes exactly the addresses from 3 GB on translate whose page starts within max(4 MB, min(total, 1 GB)) |
| BootPaging.TakeOne | mm/paging.c:123-127 | with n free low frames one allocation succeeds below 4 MB and leaves n - 1 |
| BootPaging.CopyTurns | mm/paging.c:137-162 | copying one present slot into a new frame adds that slot's pages and keeps everything else in use |
| BootPaging.ExtendTurns | mm/paging.c:177-193 | mapping the next page extends the direct map by exactly one page |
| BootPaging.DropOne | mm/paging.c:203-205 | clearing one entry of the identity table takes out exactly that page |
| BootPaging.DropSlot | mm/paging.c:208 | clearing directory slot 0 afterwards changes no translation |
| Paging.Mmu.SetupPaging | boot/paging.asm:20-81 | the loops, the last of them with paging already on, build the boot tables and touch nothing else |
| Paging.Mmu.Initialize | mm/paging.c:109-228 | from the boot tables, with enough free frames below 4 MB, an address v ends up translated to v - 3 GB if it is at 3 GB or above and its page starts less than max(4 MB, min(total, 1 GB)) above that, and to nothing otherwise; for whole pages exactly the addresses from 3 GB on for that length; used frames are untouched; without a frame for the directory nothing happens |
| Paging.Mmu.BuildDirectory | mm/paging.c:123-162 | the new directory holds copies of the boot tables while the boot directory stays in force |
| Paging.Mmu.CopySlot | mm/paging.c:143-158 | one turn of the copy loop for a present entry |
| Paging.Mmu.CloneTable | mm/paging.c:144-153 | the new frame holds the entries of the boot table behind the slot and no other word changed |
| Paging.Mmu.CopyTable | mm/paging.c:151-153 | the 1024 entries are copied through two windows |
| Paging.Mmu.ExtendMap | mm/paging.c:177-193 | the extension loop maps all remaining pages, every table access being to a mapped table |
| Paging.Mmu.IsMapped | mm/paging.c:180-190 | the loop's test finds a page present exactly if it translates |
| Paging.Mmu.RemoveIdentity | mm/paging.c:197-208 | the identity map is gone and the rest of the mapping is kept |
| Paging.Mmu.ClearTable | mm/paging.c:90 | the frame behind the window is zero and no other word changed |
| Paging.Mmu.MapPage | mm/paging.c:76-107 | the page translates to the frame afterwards and every other page as before, a missing table being allocated and cleared; the kernel can go on using its tables if and only if the page was no window of theirs or stays one; null arguments change nothing |
| Paging.Mmu.NewTable | mm/paging.c:84-96 | the new table's frame is neither the directory nor a table, and adding it changes no translation |
| Paging.Mmu.SetPage | mm/paging.c:98-106 | filling in the page's entry changes that page's translation and no other, with the same condition on the windows |
| Paging.Mmu.AllocPage | mm/paging.c:50-60 | the least free frame becomes used and is mapped at its window, no other translation changes; 0 and no change when no frame is left |
| Paging.Mmu.FreePage | mm/paging.c:63-74 | the frame in the page's entry is released and exactly that page unmapped; the kernel can go on if and only if the page was no window of its tables and the frame held none of them; a null entry changes nothing |
| Paging.MappedTranslates | mm/paging.c:76-107 | mapping a page translates exactly its 4096 addresses anew |
| Paging.AllocatedMeans | mm/paging.c:50-60 | an allocated page is 3 GB above the least unmarked frame, which is marked; exactly its 4096 addresses translate anew, to that frame |
| Paging.NoPageIff | mm/paging.c:50-60 | the null page is returned if and only if the counter says full or every scanned frame is marked, and then nothing changes |
| Paging.FreedTranslates | mm/paging.c:63-74 | freeing a page leaves exactly its 4096 addresses without translation |
| Paging.Mmu.LookupEntry | mm/paging.c:13-25 | the address of a page's table entry, which translates to that entry's word in the table's frame |
| PagingRuns.AllocPossible | mm/paging.c:50-60 | when every window has its table, a page can always be allocated |
| PagingRuns.FreePossible | mm/paging.c:63-74 | a live page can always be freed, and without harm to the tables |
| PagingRuns.AllocStepSound | mm/paging.c:50-60 | the page handed out lies in a frame that is not live, not the directory and not a table, also not one added by the call; live pages and the direct map are kept |
| PagingRuns.FreeStepSound | mm/paging.c:63-74 | releasing a live page unmaps it, frees its frame, and keeps all other live pages |
| PagingRuns.StaysReady | mm/paging.c:50-107 | no call takes a window's table away |
| PagingRuns.RunStaysSound | mm/paging.c:50-107 | over every run, however many tables it adds, live pages have distinct data frames mapped at their windows, none is handed out again, and the mapping stays the direct one |
| PagingRuns.InitialPagesSound | mm/paging.c:109-228 | the map `vmmngr_initialize` leaves is one from which such runs start, whatever the allocator manages |
| PagingRuns.Take | mm/paging.c:50-60 | `vmmngr_alloc_page` on the class takes such a step |
| PagingRuns.Give | mm/paging.c:63-74 | `vmmngr_free_page` on the class, on the entry of a live page, takes such a step |
| PagingRuns.ServeAll | mm/paging.c:50-74 | with every window's table there, any list of requests is served, and what happens is such a run |
| Keyboard.PressKeepsLine | drivers/keyboard.c:101-123 | the pending line stays at most 255 long and free of newlines; what is committed is that line |
| Keyboard.PendingIsFold | drivers/keyboard.c:79-124 | over every sequence of key events the pending line is the fold of appending and erasing over the characters typed |
| Keyboard.EditingLaws | drivers/keyboard.c:105-122 | a character is appended while there are fewer than 255 and a backspace takes it back; '?' and later characters change nothing; a backspace on an empty line changes nothing; Enter commits exactly the pending line and nothing else commits |
| Keyboard.TypedLine | drivers/keyboard.c:105-122 | whatever is typed up to an Enter, as long as the line has room, the line committed is what is left when each backspace takes the nearest character before it that no other takes; what follows starts anew |
| Keyboard.KeyRows | drivers/keyboard.c:13-42 | the digit keys and their symbols with shift |
| Keyboard.TopLetters | drivers/keyboard.c:16-17 | the letters of the first row |
| Keyboard.MiddleLetters | drivers/keyboard.c:17-18 | the letters of the second row |
| Keyboard.BottomLetters | drivers/keyboard.c:19-20 | the letters of the third row |
| Keyboard.PunctuationKeys | drivers/keyboard.c:15-20 | the keys of the other characters |
| Keyboard.ShiftedPunctuation | drivers/keyboard.c:31-36 | the same with shift |
| Keyboard.KeypadKeys | drivers/keyboard.c:22-24 | the keypad |
| Keyboard.EditingKeys | drivers/keyboard.c:13-42 | backspace, tab, Enter and space with and without shift |
| Keyboard.OtherKeys | drivers/keyboard.c:13-42 | keys without a character give '?' |
| Keyboard.CaseOfLetters | drivers/keyboard.c:51-63 | a letter is a capital if and only if exactly one of shift and caps lock is on; caps lock changes no other key |
| Keyboard.ModifierKeys | drivers/keyboard.c:85-99 | the codes of the shift, control and alternate keys, going down and up, and of caps lock |
| Keyboard.ReleasesDoNothing | drivers/keyboard.c:95-101 | no other key does anything when it goes up |
| Keyboard.KeysType | drivers/keyboard.c:81-103 | which key events type a character, and which one |
| Keyboard.RingTake | drivers/keyboard.c:153-154 | reading one byte takes the first unread one |
| Keyboard.RingPut | drivers/keyboard.c:69-70 | writing one byte appends it when it fits |
| Keyboard.PutAllKeepsIff | drivers/keyboard.c:66-77 | committed bytes are all there after the unread ones if and only if together they are fewer than 256 |
| LineReader.ScanSound | drivers/keyboard.c:130 | a comparison of the scan, interrupted or not, keeps the unread bytes before its position free of newlines |
| LineReader.LookSound | drivers/keyboard.c:131-134 | the byte looked at is still unread; a newline ends the scan, any other is passed |
| LineReader.OverflowLoses | drivers/keyboard.c:66-77 | a commit that does not fit breaks the account of bytes |
| LineReader.NextSoundIff | drivers/keyboard.c:79-163 | one step of the reader or one interrupt keeps every committed byte delivered, in hand or unread, in order, if and only if what is committed fits |
| LineReader.RunSoundIff | drivers/keyboard.c:66-163 | over every run, interrupts falling anywhere, soundness holds throughout if and only if every commit fits |
| LineReader.ReadsAreServed | drivers/keyboard.c:142-163 | the finished reads are those of a line reader that sees all committed lines at once, and their concatenation is a prefix of the committed bytes |
| LineReader.DeliverMeans | drivers/keyboard.c:152-160 | such a reader's read is what comes up to and with the first newline, cut at the count |
| LineReader.LineByLine | drivers/keyboard.c:142-163 | when the first reads all ask for more than their lines have, the k-th returns exactly the k-th line and its newline |
| LineReader.CallReturns | drivers/keyboard.c:127-163 | a read called while a committed line is unread returns by its own steps, without ever waiting for an interrupt |
| LineReader.CallWaits | drivers/keyboard.c:146-150 | one called while there is none ends up waiting, with nothing changed |
| LineReader.LinesAreTyped | drivers/keyboard.c:66-124 | over every run, whatever the reader does meanwhile, the pending line and the committed lines are what editing the typed characters gives |
| LineReader.UnreadNewlines | drivers/keyboard.c:127-138 | unread newlines count the committed lines not yet read to their end, and one is found exactly if there is such a line |
| KeyboardDriver.Driver.constructor | drivers/keyboard.c:4-10 | the zeroed globals are a state from which sound runs start |
| KeyboardDriver.Driver.CommitLine | drivers/keyboard.c:66-77 | the loop puts the line and a newline into the ring and empties the line buffer |
| KeyboardDriver.Driver.Callback | drivers/keyboard.c:79-124 | the interrupt handler takes exactly the machine's key step |
| KeyboardDriver.Driver.Type | drivers/keyboard.c:103-123 | a typed character edits the line buffer or commits it, as the edit function says (`EditingLaws` says what that is) |
| KeyboardDriver.Driver.HasCompleteLine | drivers/keyboard.c:127-138 | the scan returns true if and only if an unread byte is a newline |
| KeyboardDriver.Driver.FindLine | drivers/keyboard.c:146-150 | the scan with interrupts between its steps ends at a newline or has to wait |
| KeyboardDriver.Driver.LookAt | drivers/keyboard.c:131-134 | one byte of the scan, an interrupt coming between the comparison and the load |
| KeyboardDriver.Driver.CopyOut | drivers/keyboard.c:152-162 | the copy loop with interrupts between its steps finishes one read of the machine with the bytes in the caller's buffer |
| KeyboardDriver.Driver.Read | drivers/keyboard.c:142-163 | with any batches of interrupts before its steps, a read that returns has added one finished read with the caller's bytes |
| KeyboardDriver.Driver.ProgramsGetTheLines | drivers/keyboard.c:142-163 | since start-up, if every commit fitted, programs got the lines typed and edited, in order, and nothing else |
| KeyboardDriver.LongestLineIsLost | drivers/keyboard.c:66-77 | from start-up, 255 characters and Enter leave one committed line and nothing to read |
| Screen.OffsetRoundTrip | drivers/screen.c:132-134 | row and column are recovered from their offset, and the offset from them if and only if it is even |
| Screen.CursorRoundTripIff | drivers/screen.c:98-117 | the cursor registers give back an offset if and only if it is even and below 0x20000 |
| Screen.PutMeans | drivers/screen.c:63-95 | one character byte by byte: it and its attribute at the offset, or a blank in 0x0F two bytes back, or on to the next multiple of 160; from 4000 on all bytes move up by 160 and the last 160 are zero |
| Screen.ErrorMeans | drivers/screen.c:47-51 | the error cell is an E in 0xF4 in the last two bytes, and nothing else changes |
| Screen.TextScreen.CopyBytes | lib/util.c:3-8 | the byte loop moves a stretch of video memory towards the front and leaves the rest |
| Screen.TextScreen.ScrollUp | drivers/screen.c:80-92 | every row moves up by one and the last one is blank |
| Screen.PrintableIff | drivers/screen.c:63-77 | a character's stores stay in video memory if and only if it has its cell there |
| Screen.TextScreen.PrintChar | drivers/screen.c:43-96 | memory and cursor are those of the character put at its place; beyond the screen only the last two bytes of video memory change, to an E in 0xF4, and the cursor stays |
| Screen.TextScreen.PrintHere | drivers/screen.c:63-95 | for every offset whose stores stay in video memory, newlines, backspaces, other characters and scrolling, with the cursor after them |
| Screen.TextScreen.PrintAt | drivers/screen.c:8-30 | memory and cursor after a message are those of its turns from the given place or the cursor; on the screen that is its characters in 0x0F put one after the other, starting at the cursor when a coordinate is negative and else at byte 160 * row + 2 * col |
| Screen.TextScreen.PutChar | drivers/screen.c:32-37 | a character at the cursor, in 0x0F if no colour is given, and the cursor behind it |
| Screen.TextScreen.PutChars | drivers/screen.c:32-37 | one `put_char` after the other is the characters put one after the other from the cursor on |
| Screen.TextScreen.ClearAndPut | drivers/screen.c:32-129 | after `clear_screen` and any characters without backspaces, every cell on the screen is the paper's cell 25 rows from its end, and the cursor is where the paper goes on |
| Screen.MessageOnScreen | drivers/screen.c:8-30 | from a place on the screen a message is its characters put one after the other, each where the one before left off |
| Screen.MessageBeyond | drivers/screen.c:8-30 | from a place below the screen a message of any length is a single red E, and the cursor stays |
| Screen.TextScreen.SetCursorOffset | drivers/screen.c:111-117 | the registers hold the bytes of half the offset, and give the offset back if and only if it is even and below 0x20000 |
| Screen.TextScreen.ClearScreen | drivers/screen.c:119-129 | the screen is the window of an empty transcript and the cursor is at its start |
| Screen.PutIsAppend | drivers/screen.c:55-95 | one character on the screen, scrolling included, is one character on the unbounded transcript |
| Screen.ScreenShowsTranscript | drivers/screen.c:43-129 | after clearing, for every printable sequence with backspaces, the screen is the last 25 rows of the transcript and the cursor where it goes on |
| Screen.AlwaysPrintable | drivers/screen.c:43-96 | without backspaces the cursor offset stays even and in [0, 4000) |
| Screen.ScreenShowsPaper | drivers/screen.c:43-129 | without backspaces all 2000 cells of the screen are those 25 rows from the end of an append-only 80-column paper |
| NumberPrint.NumeralIff | lib/print.c:191-209 | a string is well formed, without leading zero, and has the value v if and only if it is the numeral of v |
| NumberPrint.DigitRoundTrip | lib/print.c:166-204 | the digit for d is '0' + d below ten and 'A' + d - 10 from there on, and reads back as d |
| NumberPrint.DigitAt | lib/print.c:150-157 | the k-th digit from the right is the one for value / base^k % base |
| NumberPrint.LengthIff | lib/print.c:200-204 | a value has at most k digits if and only if it is below the k-th power of the base |
| NumberPrint.GuardsSuffice | lib/print.c:152-204 | the guards 11, 10 and 8 leave room for every 32-bit value |
| NumberPrint.SignedNumeralIff | lib/print.c:138-164 | a string denotes an int if and only if it is its signed numeral |
| NumberPrint.Strlen | lib/util.c:56-60 | the index of the first terminator |
| NumberPrint.Reverse | lib/util.c:47-54 | the text before the terminator is turned around in place and the rest stays |
| NumberPrint.StoreDigits | lib/print.c:150-157 | the digit loop stores all digits, least significant first, without being cut by its guard |
| NumberPrint.PrintUint | lib/print.c:191-209 | the characters are a numeral without leading zero that parses to the value, for every 32-bit value |
| NumberPrint.PrintHex | lib/print.c:166-189 | after 0x, a numeral in base 16 that parses to the value |
| NumberPrint.PrintInt | lib/print.c:138-164 | the characters denote the argument if and only if it is not the least int |

## Left out

- Refinement.RunRefines: over proper calls. A create that succeeds over a live name for want of a page, or with a size that wraps, is outside because it leaves the volume not well formed (exactly these do, `ProperCreateIff`); a non-empty write to a file without clusters because it leaves the data area (exactly these do, `ProperWriteIff`).
- FileSystem.Fat12.Init: the sector size in the boot sector must not be zero and the first table must lie on the disk; the other operations take a valid geometry: at least 12 sectors per table, two mirrors before the root directory, 4085 clusters on the disk, and at least two clusters' worth of sectors before the data area, so that clusters 0 and 1 are not below sector 0. The table buffer has its full size, where `fs/fs.c:31` allocates one page.
- FileSystem.Fat12.CreateFile: whether `vmmngr_alloc_page` finds a page is a parameter (`pageFree`), in the other operations too; clocks and timestamps are not set by the code.
- FileSystem.Fat12.OpenFile: the copy of the name into the handle, which nothing reads, is not kept.
- FileSystem.FormatName: the loop of `fat12_list_root` over the directory, its attribute test and its output are not modelled, only the name; nor is `fat12_close`, which does nothing.
- FrameAllocator.Allocator.InitMemMngr: takes its parameter as KB, as `mm/memory.c:12` does; `kernel/kernel.c:26` passes bytes. The bitmap is an object of its own, not part of the memory the page tables map.
- FrameAllocator.Allocator.InitMemoryRegion: the region and the extra frame must lie in the bitmap.
- Paging.Mmu.MapPage: for page-aligned frames below 2 GB, whose entries keep bit 31 clear, and, when a table is needed, with a frame left that is in reach of the kernel's window; the code's own test for that never fires.
- Paging.Mmu.AllocPage: for frames below 1 GB, the reach of the window at 3 GB, and, when a table is needed, with one more frame in reach.
- Paging.Mmu.FreePage: the page must have a table and the frame in its entry a bit in the bitmap.
- Paging.Mmu.Initialize: asks for the free frames below 4 MB that the new directory and tables need, and for the boot tables to be marked used.
- LineReader.RunSoundIff: safety only; that a halted reader is woken depends on interrupts from outside. An interrupt runs to its end between two steps of the reader.
- Screen.TextScreen.PrintChar: the stores must stay in video memory (exactly then the character is printable, `PrintableIff`): a backspace at offset 0 stores in front of it.
- NumberPrint.StoreDigits: the three digit loops differ in base, guard and in taking digits by masks and shifts for base 16; they are one loop here with base and guard as parameters. Colours are left out.
- Screen output is a string in `NumberPrint`; `%`-formats, log levels and console messages are not modelled.
- `int_to_ascii` and `memset` beyond what the modelled loops need, and `memcmp`, which appears only as an equality test.
- `alloc_memory_blocks`, `free_memory_blocks` and `mmap_first_free_s`: no callers; the run search counts free frames in a window without asking for a contiguous run.
- Device polling and port I/O (`drivers/ata.c`, `drivers/ports.c`): sectors, scan codes and cursor registers are values.
- CR0, CR3 and TLB instructions: the current directory is a frame number, and translation always reads memory as it is.
- 4 MB pages, access rights and the accessed and dirty bits of page-table entries.
- System calls, shell and user library, interrupt and descriptor tables, timer, remaining boot code.
