/** The virtual memory manager of mm/paging.c. All table accesses go through the current translation,
    so a table the kernel could not reach would be a failed precondition here. */
module Paging {
  import opened Bits
  import opened Options
  import opened PageEntries
  import opened AddressSpace
  import opened FrameAllocator
  import opened SpaceEffects
  import opened BootPaging

  /** A word the kernel can reach at virtual address v. */
  predicate Accessible(mem: seq<Frame>, root: nat, v: u32) {
    v % 4 == 0 && Translate(mem, root, v).Some? && Translate(mem, root, v).value / PAGE < |mem|
  }

  lemma WindowSparesWindows(mem: seq<Frame>, root: nat, f: nat)
    requires root < |mem|
    ensures SparesWindows(mem, root, WindowPage(f), f)
  {
  }

  class Mmu {
    var mem: seq<Frame>
    /** The frame number in CR3, and the kernel's own pointer to the directory. */
    var cr3: nat
    var curDirectory: u32
    const frames: Allocator

    ghost predicate Valid()
      reads this, frames, frames.bitmap
    {
      && frames.Valid() && 0 in frames.State().used
      && Structure(mem, cr3, frames.State().used) && Reachable(mem, cr3)
      && curDirectory == P2V(cr3 * PAGE)
    }

    constructor (mem: seq<Frame>, frames: Allocator)
      ensures this.mem == mem && this.frames == frames
    {
      this.mem, this.frames := mem, frames;
      cr3, curDirectory := 0, 0;
    }

    method ReadWord(v: u32) returns (w: u32)
      requires Accessible(mem, cr3, v)
      ensures var pa := Translate(mem, cr3, v).value; w == mem[pa / PAGE][pa % PAGE / 4]
    {
      var pa := Translate(mem, cr3, v).value;
      w := mem[pa / PAGE][pa % PAGE / 4];
    }

    method WriteWord(v: u32, w: u32)
      requires Accessible(mem, cr3, v)
      modifies `mem
      ensures var pa := Translate(old(mem), cr3, v).value; mem == Poke(old(mem), pa / PAGE, pa % PAGE / 4, w)
    {
      var pa := Translate(mem, cr3, v).value;
      mem := mem[pa / PAGE := mem[pa / PAGE][pa % PAGE / 4 := w]];
    }

    /** `memset` of one page-sized table to zero, through the window of an unused frame. */
    method ClearTable(table: u32, ghost f: nat, ghost used: set<nat>)
      requires Structure(mem, cr3, used) && Window(mem, cr3, f) && f !in used && table == P2V(f * PAGE)
      modifies `mem
      ensures mem == old(mem)[f := ZERO_FRAME]
    {
      hide Walk, Structure, Translate;
      var i := 0;
      ghost var before := mem;
      while i < 1024
        invariant 0 <= i <= 1024 && |mem| == |before|
        invariant mem == before[f := mem[f]] && forall k | 0 <= k < i :: mem[f][k] == 0
      {
        ReplaceUnused(before, cr3, used, f, mem[f]);
        WindowWord(mem, cr3, f, i);
        WriteWord(table + 4 * i, 0);
        i := i + 1;
      }
      assert mem[f] == ZERO_FRAME;
    }

    /** `setup_paging`: build the boot tables; the last loop already runs with paging on. */
    method SetupPaging()
      requires LOW_FRAMES <= |mem| <= 0x10_0000
      modifies `mem, `cr3
      ensures BootTables(mem) && cr3 == BOOT_DIRECTORY && |mem| == |old(mem)|
      ensures Untouched(old(mem), mem, Range(0, |mem|) - BOOT_FRAMES)
    {
      ghost var before: seq<Frame> := mem;
      mem := mem[BOOT_DIRECTORY := ZERO_FRAME];
      ghost var cleared: seq<Frame> := mem;
      var i := 0;
      while i < 1024
        invariant 0 <= i <= 1024 && |mem| == |before|
        invariant mem == cleared[BOOT_TABLE_0 := mem[BOOT_TABLE_0]]
        invariant forall k | 0 <= k < i :: mem[BOOT_TABLE_0][k] == BootEntry(k)
      {
        mem := Poke(mem, BOOT_TABLE_0, i, 4096 * i + 7);
        i := i + 1;
      }
      mem := Poke(mem, BOOT_DIRECTORY, 0, BOOT_TABLE_0 * PAGE + 7);
      mem := Poke(mem, BOOT_DIRECTORY, 768, BOOT_TABLE_768 * PAGE + 7);
      cr3 := BOOT_DIRECTORY;
      i := 0;
      ghost var enabled: seq<Frame> := mem;
      while i < 1024
        invariant 0 <= i <= 1024 && |mem| == |before| && cr3 == BOOT_DIRECTORY
        invariant mem == enabled[BOOT_TABLE_768 := mem[BOOT_TABLE_768]]
        invariant forall k | 0 <= k < i :: mem[BOOT_TABLE_768][k] == BootEntry(k)
      {
        IdentityWord(mem, i);
        WriteWord(BOOT_TABLE_768 * PAGE + 4 * i, 4096 * i + 7);
        i := i + 1;
      }
    }

    /** `vmmngr_initialize`: copy the boot tables, map the rest of memory at 3 GB, drop the identity map. */
    method Initialize(totalMemory: u32)
      requires BootTables(mem) && cr3 == BOOT_DIRECTORY && frames.Valid() && BOOT_FRAMES <= frames.State().used
      requires Alloc(frames.State()).0 != 0 ==> Enough(frames.State(), Tables(Pages(totalMemory)) + 2)
      modifies this, frames, frames.bitmap
      ensures frames.Valid()
      ensures Alloc(old(frames.State())).0 == 0 ==> mem == old(mem) && cr3 == BOOT_DIRECTORY
      ensures Alloc(old(frames.State())).0 != 0 ==>
                && Valid() && cr3 == Alloc(old(frames.State())).0 / 4096
                && Maps(mem, cr3, Pages(totalMemory), false)
                && Untouched(old(mem), mem, old(frames.State()).used)
                && old(frames.State()).used <= frames.State().used
      // An address translates when it is at 3 GB or above and its page starts within the memory, at least 4 MB of it
      // and at most 1 GB.
      ensures Alloc(old(frames.State())).0 != 0 ==>
                forall v: u32 ::
                  Translate(mem, cr3, v)
                  == if v >= 0xC000_0000
                        && v - 0xC000_0000 - v % 4096
                           < (if totalMemory < 0x40_0000 then 0x40_0000
                              else if totalMemory > 0x4000_0000 then 0x4000_0000 else totalMemory)
                     then Some(v - 0xC000_0000) else None
      // For whole pages of memory, that is one interval.
      ensures Alloc(old(frames.State())).0 != 0 && totalMemory % 4096 == 0 ==>
                forall v: u32 ::
                  Translate(mem, cr3, v)
                  == if 0xC000_0000 <= v
                        < 0xC000_0000 + (if totalMemory < 0x40_0000 then 0x40_0000
                                         else if totalMemory > 0x4000_0000 then 0x4000_0000 else totalMemory)
                     then Some(v - 0xC000_0000) else None
    {
      hide Maps, Enough, Alloc, Copied, Extended, BootTables, Tables, Walk, Structure, Reachable, Range, Untouched,
           Pages, Translate;
      BuildAndSwitch(totalMemory);
      if Alloc(old(frames.State())).0 != 0 {
        MapsMean(mem, cr3, totalMemory);
        if totalMemory % 4096 == 0 {
          WholePagesMean(mem, cr3, totalMemory);
        }
      }
    }

    /** The body of `vmmngr_initialize`. */
    method BuildAndSwitch(totalMemory: u32)
      requires BootTables(mem) && cr3 == BOOT_DIRECTORY && frames.Valid() && BOOT_FRAMES <= frames.State().used
      requires Alloc(frames.State()).0 != 0 ==> Enough(frames.State(), Tables(Pages(totalMemory)) + 2)
      modifies this, frames, frames.bitmap
      ensures frames.Valid()
      ensures Alloc(old(frames.State())).0 == 0 ==> mem == old(mem) && cr3 == BOOT_DIRECTORY
      ensures Alloc(old(frames.State())).0 != 0 ==>
                && Valid() && cr3 == Alloc(old(frames.State())).0 / PAGE
                && Maps(mem, cr3, Pages(totalMemory), false)
                && Untouched(old(mem), mem, old(frames.State()).used)
                && old(frames.State()).used <= frames.State().used
    {
      hide Maps, Enough, Alloc, Copied, Extended, BootTables, Tables, Walk, Structure, Reachable, Range, Untouched,
           Pages;
      ghost var a0, mem0, pages := frames.State(), mem, Pages(totalMemory);
      var total := if totalMemory > 0x4000_0000 then 0x4000_0000 else totalMemory;
      SamePages(totalMemory, total);
      var newPdPhys := frames.AllocMemoryBlock();
      if newPdPhys != 0 {
        BuildDirectory(newPdPhys, a0, pages);
        SwitchAndExtend(newPdPhys, total, mem0, a0.used);
      }
    }

    /** Install the new directory, map the rest of memory, and remove the identity map. */
    method SwitchAndExtend(newPdPhys: u32, total: u32, ghost mem0: seq<Frame>, ghost used0: set<nat>)
      requires frames.Valid() && newPdPhys % PAGE == 0 && LOW_FRAMES <= |mem| && total <= 0x4000_0000
      requires Copied(mem0, used0, mem, newPdPhys / PAGE, frames.State(), 1024, Tables(Pages(total)) - 1)
      modifies this, frames, frames.bitmap
      ensures Valid() && cr3 == newPdPhys / PAGE
      ensures Maps(mem, cr3, Pages(total), false) && Untouched(mem0, mem, used0) && used0 <= frames.State().used
    {
      hide Maps, Enough, Copied, Extended, BootTables, Tables, Walk, Structure, Reachable, Untouched, Pages;
      ghost var pages := Pages(total);
      ExtendStarts(mem0, used0, mem, newPdPhys / PAGE, frames.State(), pages);
      ExtendedMeans(mem0, used0, mem, newPdPhys / PAGE, frames.State(), 1024, pages);
      cr3 := newPdPhys / PAGE;
      curDirectory := P2V(newPdPhys);
      ExtendMap(total, mem0, used0, pages);
      ExtendedMeans(mem0, used0, mem, cr3, frames.State(), pages, pages);
      RemoveIdentity(mem0, used0, pages);
    }

    /** Clear a new directory and give it copies of the boot tables, with the boot directory still in CR3. */
    method BuildDirectory(newPdPhys: u32, ghost a0: Frames, ghost pages: nat)
      requires BootTables(mem) && cr3 == BOOT_DIRECTORY && frames.Valid() && BOOT_FRAMES <= a0.used
      requires 1024 <= pages <= 0x4_0000 && Enough(a0, Tables(pages) + 2)
      requires newPdPhys != 0 && (newPdPhys, frames.State()) == Alloc(a0)
      modifies `mem, frames, frames.bitmap
      ensures frames.Valid() && |mem| == |old(mem)| && LOW_FRAMES <= |mem| && newPdPhys % PAGE == 0
      ensures Copied(old(mem), a0.used, mem, newPdPhys / PAGE, frames.State(), 1024, Tables(pages) - 1)
    {
      BuildStarts(mem, a0, pages);
      hide Enough, Alloc, Copied, BootTables, Walk, Structure, Range, Accessible, Window, Tables;
      ghost var n, mem0 := Tables(pages) - 1, mem;
      ClearTable(P2V(newPdPhys), newPdPhys / PAGE, BOOT_FRAMES);
      CopyBootTables(newPdPhys, mem0, a0.used, n);
    }

    method CopyBootTables(newPdPhys: u32, ghost mem0: seq<Frame>, ghost used0: set<nat>, ghost n: nat)
      requires frames.Valid() && cr3 == BOOT_DIRECTORY && newPdPhys % PAGE == 0
      requires Copied(mem0, used0, mem, newPdPhys / PAGE, frames.State(), 0, n)
      modifies `mem, frames, frames.bitmap
      ensures frames.Valid() && |mem| == |old(mem)|
      ensures Copied(mem0, used0, mem, newPdPhys / PAGE, frames.State(), 1024, n)
    {
      hide Enough, Alloc, Copied, BootTables, Walk, Structure, Range, Accessible, Window, Translate;
      var i := 0;
      while i < 1024
        invariant 0 <= i <= 1024 && |mem| == |old(mem)| && frames.Valid()
        invariant Copied(mem0, used0, mem, newPdPhys / PAGE, frames.State(), i, n)
      {
        CopiedBoot(mem0, used0, mem, newPdPhys / PAGE, frames.State(), i, n);
        DirectoryWord(mem, BOOT_DIRECTORY, i);
        var e := ReadWord(P2V(BOOT_DIRECTORY * PAGE) + 4 * i);
        EntryMeaning(e);
        BootSlotTable(mem, i);
        if IsPresent(e) {
          CopySlot(i, e, newPdPhys, mem0, used0, n);
        } else {
          CopySkips(mem0, used0, mem, newPdPhys / PAGE, frames.State(), i, n);
        }
        i := i + 1;
      }
    }

    /** One turn of the copy loop for a present entry. */
    method CopySlot(i: nat, e: u32, newPdPhys: u32, ghost mem0: seq<Frame>, ghost used0: set<nat>, ghost n: nat)
      requires frames.Valid() && cr3 == BOOT_DIRECTORY && i < 1024 && BootSlot(i) && newPdPhys % PAGE == 0
      requires Copied(mem0, used0, mem, newPdPhys / PAGE, frames.State(), i, n)
      requires BOOT_DIRECTORY < |mem| && e == mem[BOOT_DIRECTORY][i]
      modifies `mem, frames, frames.bitmap
      ensures frames.Valid() && |mem| == |old(mem)|
      ensures Copied(mem0, used0, mem, newPdPhys / PAGE, frames.State(), i + 1, n)
    {
      hide Enough, Alloc, Copied, BootTables, Walk, Structure, Range, Accessible, Window, Installed;
      ghost var root, a, before := newPdPhys / PAGE, frames.State(), mem;
      CopiedBoot(mem0, used0, mem, root, a, i, n);
      CopyTurns(mem0, used0, mem, root, a, i, n);
      var newTablePhys := frames.AllocMemoryBlock();
      CloneTable(newTablePhys, i, e);
      StillBoot(before, mem, newTablePhys / PAGE);
      DirectoryWord(mem, root, i);
      var d := ReadWord(P2V(newPdPhys) + 4 * i);
      WriteWord(P2V(newPdPhys) + 4 * i, Installed(d, newTablePhys));
    }

    /** Clear a new table and fill it with the entries of the table behind a slot of the boot directory. */
    method CloneTable(newTablePhys: u32, ghost i: nat, e: u32)
      requires cr3 == BOOT_DIRECTORY && BootTables(mem) && BootSlot(i) && i < 1024 && e == mem[BOOT_DIRECTORY][i]
      requires newTablePhys % PAGE == 0 && newTablePhys / PAGE < LOW_FRAMES && newTablePhys / PAGE !in BOOT_FRAMES
      modifies `mem
      ensures FrameOf(e) < |old(mem)| && mem == old(mem)[newTablePhys / PAGE := old(mem)[FrameOf(e)]]
    {
      ghost var f, before := newTablePhys / PAGE, mem;
      BootMapping(mem);
      BootSlotTable(mem, i);
      assert BOOT_DIRECTORY < |mem|;
      hide BootTables, Walk, Structure, Range, Accessible, Window;
      var newTable := P2V(newTablePhys);
      ClearTable(newTable, f, BOOT_FRAMES);
      EntryMeaning(e);
      var oldTable := P2V(PhysicalAddress(e));
      assert PhysicalAddress(e) == FrameOf(e) * PAGE;
      StillBoot(before, mem, f);
      CopyTable(newTable, oldTable, f, FrameOf(e));
      assert mem == before[f := before[FrameOf(e)]];
    }

    /** The inner loop: copy the 1024 entries of a table through two windows. */
    method CopyTable(newTable: u32, oldTable: u32, ghost f: nat, ghost t: nat)
      requires Structure(mem, cr3, BOOT_FRAMES) && Window(mem, cr3, f) && f !in BOOT_FRAMES && newTable == P2V(f * PAGE)
      requires Window(mem, cr3, t) && t in BOOT_FRAMES && oldTable == P2V(t * PAGE)
      modifies `mem
      ensures mem == old(mem)[f := old(mem)[t]]
    {
      hide Walk, Structure, Translate;
      var j := 0;
      ghost var before := mem;
      while j < 1024
        invariant 0 <= j <= 1024 && |mem| == |before|
        invariant mem == before[f := mem[f]] && forall k | 0 <= k < j :: mem[f][k] == before[t][k]
      {
        ReplaceUnused(before, cr3, BOOT_FRAMES, f, mem[f]);
        WindowWord(mem, cr3, f, j);
        WindowWord(mem, cr3, t, j);
        var w := ReadWord(oldTable + 4 * j);
        WriteWord(newTable + 4 * j, w);
        j := j + 1;
      }
      assert mem[f] == before[t];
    }

    /** The loop that maps the rest of memory at 3 GB. */
    method ExtendMap(totalMemory: u32, ghost mem0: seq<Frame>, ghost used0: set<nat>, ghost pages: nat)
      requires Valid() && LOW_FRAMES <= |mem|
      requires totalMemory <= 0x4000_0000 && pages == Pages(totalMemory)
      requires Extended(mem0, used0, mem, cr3, frames.State(), 1024, pages)
      modifies `mem, frames, frames.bitmap
      ensures Valid() && |mem| == |old(mem)|
      ensures Extended(mem0, used0, mem, cr3, frames.State(), pages, pages)
    {
      hide Extended, Walk, Structure, Reachable, Structural, Alloc, PageMapped, SparesWindows, TableInReach,
           Translate, Accessible;
      var phys: nat := 0x40_0000;
      while phys < totalMemory
        invariant phys % PAGE == 0 && 1024 <= phys / PAGE <= pages
        invariant Valid() && |mem| == |old(mem)|
        invariant Extended(mem0, used0, mem, cr3, frames.State(), phys / PAGE, pages)
      {
        ghost var n := phys / PAGE;
        assert n < pages;
        var virt: u32 := 0xC000_0000 + phys;
        ExtendReady(mem0, used0, mem, cr3, frames.State(), n, pages);
        assert virt / PAGE == WindowPage(n);
        var mapped := IsMapped(virt);
        if !mapped {
          ghost var s := Now();
          MapPage(phys, virt);
          ExtendTurns(mem0, used0, s, Now(), n, pages);
        }
        phys := phys + PAGE;
      }
    }

    /** The check of the extension loop: are the directory entry and the table entry both present? */
    method IsMapped(virt: u32) returns (mapped: bool)
      requires Valid()
      ensures mapped <==> Walk(mem, cr3, virt / PAGE).Some?
    {
      hide Structure, Reachable, Translate, Accessible, Structural;
      var d, k := DirectoryIndex(virt), TableIndex(virt);
      IndexMeaning(virt);
      DirectoryInReach(mem, cr3, frames.State().used, d);
      var pde := ReadWord(curDirectory + 4 * d);
      EntryMeaning(pde);
      mapped := false;
      if IsPresent(pde) {
        EntryInReach(mem, cr3, frames.State().used, virt / PAGE);
        var table := P2V(PhysicalAddress(pde));
        assert PhysicalAddress(pde) == FrameOf(pde) * PAGE;
        var pte := ReadWord(table + 4 * k);
        EntryMeaning(pte);
        mapped := IsPresent(pte);
      }
    }

    /** `vmmngr_pdirectory_lookup_entry` and `vmmngr_ptable_lookup_entry`: the address of a page's table entry. */
    method LookupEntry(virt: u32) returns (e: u32)
      requires Valid() && Present(mem[cr3][virt / PAGE / 1024])
      ensures e == EntryAddress(Now(), virt / PAGE) && Accessible(mem, cr3, e)
      ensures mem[Translate(mem, cr3, e).value / PAGE] == mem[FrameOf(mem[cr3][virt / PAGE / 1024])]
      ensures Translate(mem, cr3, e)
           == Some(4096 * FrameOf(mem[cr3][virt / 4096 / 1024]) + 4 * (virt / 4096 % 1024))
    {
      hide Walk, Structure, Reachable, Structural, Translate;
      IndexMeaning(virt);
      DirectoryInReach(mem, cr3, frames.State().used, DirectoryIndex(virt));
      var pde := ReadWord(curDirectory + 4 * DirectoryIndex(virt));
      EntryMeaning(pde);
      EntryInReach(mem, cr3, frames.State().used, virt / PAGE);
      assert PhysicalAddress(pde) == FrameOf(pde) * PAGE;
      e := P2V(PhysicalAddress(pde)) + 4 * TableIndex(virt);
    }

    /** Clear the identity map's table, entry by entry, and then its directory slot. */
    method RemoveIdentity(ghost mem0: seq<Frame>, ghost used0: set<nat>, ghost pages: nat)
      requires Valid() && Extended(mem0, used0, mem, cr3, frames.State(), pages, pages)
      modifies `mem
      ensures Valid() && Maps(mem, cr3, pages, false)
      ensures Untouched(mem0, mem, used0)
    {
      hide Walk, Structure, Reachable, Structural, Translate, Accessible, Enough, Maps, Dropping;
      ghost var used, before := frames.State().used, mem;
      DropReady(mem0, used0, mem, cr3, frames.State(), pages);
      DirectoryInReach(mem, cr3, used, 0);
      var e := ReadWord(curDirectory);
      EntryMeaning(e);
      if IsPresent(e) {
        var table := P2V(PhysicalAddress(e));
        assert PhysicalAddress(e) == FrameOf(e) * PAGE;
        ghost var t := FrameOf(e);
        var i := 0;
        while i < 1024
          invariant 0 <= i <= 1024 && Valid() && |mem| == |before| && mem[cr3] == before[cr3]
          invariant mem == before[t := mem[t]]
          invariant Dropping(mem, cr3, pages, i)
        {
          DropOne(mem, cr3, used, pages, i);
          WindowWord(mem, cr3, t, i);
          WriteWord(table + 4 * i, 0);
          i := i + 1;
        }
        DropSlot(mem, cr3, used, pages);
        DirectoryInReach(mem, cr3, used, 0);
        WriteWord(curDirectory, 0);
      }
    }

    /** `vmmngr_map_page`. The kernel can go on using its tables afterwards exactly when the page was not the window of
        one of them, or stays it. */
    method MapPage(phys: u32, virt: u32)
      requires Valid() && phys % PAGE == 0 && phys < HALF
      requires phys != 0 && virt != 0 ==> TableInReach(Now(), virt / PAGE)
      modifies `mem, frames, frames.bitmap
      ensures |mem| == |old(mem)|
      ensures if phys == 0 || virt == 0 then Valid() && Now() == old(Now())
              else
                && (Valid() <==> SparesWindows(old(mem), cr3, virt / PAGE, phys / PAGE))
                && PageMapped(old(Now()), Now(), virt / PAGE, phys / PAGE)
    {
      if phys != 0 && virt != 0 {
        MapNonNull(phys, virt);
      }
    }

    method MapNonNull(phys: u32, virt: u32)
      requires Valid() && phys % PAGE == 0 && phys < HALF
      requires TableInReach(Now(), virt / PAGE)
      modifies `mem, frames, frames.bitmap
      ensures |mem| == |old(mem)| && PageMapped(old(Now()), Now(), virt / PAGE, phys / PAGE)
      ensures Valid() <==> SparesWindows(old(mem), cr3, virt / PAGE, phys / PAGE)
    {
      hide Walk, Structure, Reachable, Installed, Alloc, Structural, Translate, OnePageMapped, SlotFilled,
           OthersKept, SparesWindows, Window;
      ghost var page := virt / PAGE;
      var d, k := DirectoryIndex(virt), TableIndex(virt);
      IndexMeaning(virt);
      DirectoryInReach(mem, cr3, frames.State().used, d);
      var e := ReadWord(curDirectory + 4 * d);
      EntryMeaning(e);
      if IsPresent(e) {
        SetPage(d, k, phys, page);
      } else {
        NoTableSparesWindows(mem, cr3, page, phys / PAGE);
        SetPageInNewTable(d, k, e, phys, page);
      }
    }

    method SetPageInNewTable(d: nat, k: nat, e: u32, phys: u32, ghost page: nat)
      requires Valid() && d < 1024 && k < 1024 && page == 1024 * d + k && e == mem[cr3][d] && !Present(e)
      requires phys % PAGE == 0 && phys < HALF
      requires var p := Alloc(frames.State()).0; p != 0 && Window(mem, cr3, p / PAGE)
      modifies `mem, frames, frames.bitmap
      ensures Valid() && |mem| == |old(mem)|
      ensures var (p, a) := Alloc(old(frames.State()));
              && OnePageMapped(old(mem), mem, cr3, page, Some(phys / PAGE))
              && SlotFilled(old(mem), mem, cr3, d, Some(p / PAGE))
              && frames.State() == a
              && OthersKept(old(mem), mem, cr3, Some(p / PAGE))
    {
      assert cr3 < |mem| && page < 0x10_0000;
      hide Walk, Structure, Reachable, Installed, Alloc, Structural, Translate, OnePageMapped, SlotFilled,
           OthersKept, SparesWindows;
      ghost var p := Alloc(frames.State()).0;
      NoTableSparesWindows(mem, cr3, page, phys / PAGE);
      NewTable(d, e);
      ghost var mem1 := mem;
      NewTableSparesWindows(old(mem), mem1, cr3, page, phys / PAGE, p / PAGE);
      SetPage(d, k, phys, page);
      TableThenPage(old(mem), mem1, mem, cr3, page, p / PAGE, Some(phys / PAGE));
    }

    /** `vmmngr_alloc_page`: take a frame and map it at its window address. */
    method AllocPage() returns (virt: u32)
      requires Valid()
      requires AllocInReach(Now())
      modifies `mem, frames, frames.bitmap
      ensures Valid() && |mem| == |old(mem)| && PageAllocated(old(Now()), Now(), virt)
    {
      hide Walk, Structure, Reachable, Alloc, Structural, OnePageMapped, SlotFilled, OthersKept, PageMapped;
      ghost var s := Now();
      ghost var used := frames.State().used;
      var phys := frames.AllocMemoryBlock();
      if phys == 0 {
        AllocFailsIff(s.a);
        return 0;
      }
      AllocIsFresh(s.a, {});
      StructureGrows(mem, cr3, used, frames.State().used);
      virt := P2V(phys);
      assert virt / PAGE == WindowPage(phys / PAGE);
      WindowSparesWindows(mem, cr3, phys / PAGE);
      MapPage(phys, virt);
    }

    /** `vmmngr_free_page` on the entry of a page: give the frame back and clear the present bit. The kernel can go on
        using its tables exactly when the page was no window of theirs and its frame held none of them. */
    method FreePage(e: u32, ghost page: nat)
      requires Valid()
      requires e != 0 ==> page < 0x10_0000 && FreeInReach(Now(), page) && e == EntryAddress(Now(), page)
      modifies `mem, frames, frames.bitmap
      ensures |mem| == |old(mem)|
      ensures if e == 0 then Valid() && Now() == old(Now())
              else
                && (Valid() <==> FreeSparesTables(old(Now()), page))
                && PageFreed(old(Now()), Now(), page)
    {
      if e != 0 {
        FreeEntry(e, page);
      }
    }

    method FreeEntry(e: u32, ghost page: nat)
      requires Valid() && page < 0x10_0000 && FreeInReach(Now(), page) && e == EntryAddress(Now(), page)
      modifies `mem, frames, frames.bitmap
      ensures |mem| == |old(mem)| && PageFreed(old(Now()), Now(), page)
      ensures Valid() <==> FreeSparesTables(old(Now()), page)
    {
      hide Walk, Structure, Reachable, Structural, OnePageMapped, SlotFilled, OthersKept, DelAttrib, Pfn, Translate;
      ghost var used := frames.State().used;
      ReleasePage(mem, cr3, used, page);
      EntryInReach(mem, cr3, used, page);
      var entry := ReadWord(e);
      PfnMeaning(entry);
      var p := Pfn(entry);
      assert p == FrameOf(entry) * PAGE && p / PAGE == FrameOf(entry);
      if p != 0 {
        frames.FreeMemoryBlock(p);
      }
      WriteWord(e, DelAttrib(entry, PRESENT));
    }

    ghost function Now(): Space
      reads this, frames, frames.bitmap
    {
      Space(mem, cr3, frames.State())
    }

    /** Allocate, clear and hook in a page table for an empty directory slot. */
    method NewTable(d: nat, e: u32)
      requires Valid() && d < 1024 && e == mem[cr3][d] && !Present(e)
      requires var p := Alloc(frames.State()).0; p != 0 && Window(mem, cr3, p / PAGE)
      modifies `mem, frames, frames.bitmap
      ensures Valid() && |mem| == |old(mem)|
      ensures var (p, a) := Alloc(old(frames.State()));
              && frames.State() == a
              && Present(mem[cr3][d])
              && (forall q | 0 <= q < 0x10_0000 :: Walk(mem, cr3, q) == Walk(old(mem), cr3, q))
              && SlotFilled(old(mem), mem, cr3, d, Some(p / PAGE))
              && OthersKept(old(mem), mem, cr3, Some(p / PAGE))
              && (forall g: nat | Structural(mem, cr3, g) :: g == p / PAGE || Structural(old(mem), cr3, g))
    {
      hide Walk, Structure, Reachable, Installed, Alloc, Structural, Translate;
      ghost var used := frames.State().used;
      AllocIsFresh(frames.State(), {});
      var tablePhys := frames.AllocMemoryBlock();
      ghost var f := tablePhys / PAGE;
      AddTable(mem, cr3, used, d, f);
      ClearTable(P2V(tablePhys), f, used);
      WindowWord(mem, cr3, cr3, d);
      WriteWord(curDirectory + 4 * d, Installed(e, tablePhys));
    }

    /** The last part of `vmmngr_map_page`: fill in the page's own entry. */
    method SetPage(d: nat, k: nat, phys: u32, ghost page: nat)
      requires Valid() && d < 1024 && k < 1024 && page == 1024 * d + k && Present(mem[cr3][d])
      requires phys % PAGE == 0 && phys < HALF
      modifies `mem
      ensures |mem| == |old(mem)| && (Valid() <==> SparesWindows(old(mem), cr3, page, phys / PAGE))
      ensures OnePageMapped(old(mem), mem, cr3, page, Some(phys / PAGE))
      ensures SlotFilled(old(mem), mem, cr3, d, None)
      ensures OthersKept(old(mem), mem, cr3, None)
    {
      hide Walk, Structure, Reachable, Installed, Structural, Translate, SparesWindows;
      DirectoryInReach(mem, cr3, frames.State().used, d);
      var e := ReadWord(curDirectory + 4 * d);
      EntryMeaning(e);
      var table := P2V(PhysicalAddress(e));
      assert PhysicalAddress(e) == FrameOf(e) * PAGE;
      MapInTable(mem, cr3, frames.State().used, page, phys);
      WindowWord(mem, cr3, FrameOf(e), k);
      var entry := ReadWord(table + 4 * k);
      WriteWord(table + 4 * k, Installed(entry, phys));
    }
  }

  /** What the three operations do, in addresses: mapping a page translates exactly its 4096 addresses anew ... */
  lemma MappedTranslates(s: Space, s': Space, page: nat, phys: u32)
    requires s.root < |s.mem| == |s'.mem| && s.a.maxBlocks < 0x10_0000 && page < 0x10_0000 && phys % PAGE == 0
    requires PageMapped(s, s', page, phys / PAGE)
    ensures forall v: u32 ::
              Translate(s'.mem, s.root, v)
              == if v / 4096 == page then Some(phys + v % 4096) else Translate(s.mem, s.root, v)
  {
    OnePageTranslated(s.mem, s'.mem, s.root, page, Some(phys / PAGE));
    hide Translate, PageMapped;
  }

  /** ... allocating one hands out the window of the least free frame, translated to that frame, and touches no other
      address ... */
  lemma AllocatedMeans(s: Space, s': Space, virt: u32)
    requires s.root < |s.mem| == |s'.mem| && Fits(s.a) && 0 in s.a.used
    requires AllocInReach(s) && PageAllocated(s, s', virt) && virt != 0
    ensures virt % 4096 == 0 && virt >= 0xC000_0000
    ensures var f := (virt - 0xC000_0000) / 4096;
            && f !in s.a.used && f in s'.a.used && forall g: nat | g < f :: g in s.a.used
    ensures forall v: u32 ::
              Translate(s'.mem, s.root, v)
              == if virt <= v < virt + 4096 then Some(v - 0xC000_0000) else Translate(s.mem, s.root, v)
  {
    hide TableInReach, Alloc;
    var (p, a) := Alloc(s.a);
    AllocIsFresh(s.a, {});
    assert virt == p + 0xC000_0000;
    FreshStaysMarked(s.(a := a), s', WindowPage(p / PAGE), p / PAGE);
    MappedTranslates(s.(a := a), s', WindowPage(p / PAGE), p);
    hide Translate, PageMapped, WindowPage;
    assert virt / 4096 == 0xC_0000 + p / 4096;
  }

  /** ... unless there is none, or the counter says so, and only then ... */
  lemma NoPageIff(s: Space, s': Space, virt: u32)
    requires s.root < |s.mem| == |s'.mem| && Fits(s.a) && 0 in s.a.used
    requires AllocInReach(s) && PageAllocated(s, s', virt)
    ensures virt == 0
       <==> s.a.usedBlocks == s.a.maxBlocks || forall f: nat | f / 32 < s.a.maxBlocks / 32 :: f in s.a.used
    ensures virt == 0 ==> s' == s
  {
    hide TableInReach, Alloc, PageMapped;
    AllocFailsIff(s.a);
    if Alloc(s.a).0 != 0 { AllocIsFresh(s.a, {}); }
  }

  lemma FreshStaysMarked(s: Space, s': Space, page: nat, f: nat)
    requires s.root < |s.mem| == |s'.mem| && Fits(s.a) && page < 0x10_0000 && PageMapped(s, s', page, f)
    requires f in s.a.used
    ensures f in s'.a.used
  {
    AllocMeans(s.a);
    hide Alloc, OnePageMapped, SlotFilled, OthersKept;
  }

  /** ... and freeing one leaves exactly its addresses without translation. */
  lemma FreedTranslates(s: Space, s': Space, page: nat)
    requires s.root < |s.mem| == |s'.mem| && page < 0x10_0000 && FreeInReach(s, page) && PageFreed(s, s', page)
    ensures forall v: u32 ::
              Translate(s'.mem, s.root, v) == if v / 4096 == page then None else Translate(s.mem, s.root, v)
  {
    OnePageTranslated(s.mem, s'.mem, s.root, page, None);
    hide Translate, PageFreed;
  }

  /** With the boot tables half built, table 768 is reached through the identity map. */
  lemma IdentityWord(mem: seq<Frame>, i: nat)
    requires LOW_FRAMES <= |mem| && i < 1024
    requires mem[BOOT_DIRECTORY][0] == BOOT_TABLE_0 * PAGE + 7 && BootTable(mem[BOOT_TABLE_0])
    ensures var v := BOOT_TABLE_768 * PAGE + 4 * i;
            && Accessible(mem, BOOT_DIRECTORY, v)
            && Translate(mem, BOOT_DIRECTORY, v) == Some(v)
            && v / PAGE == BOOT_TABLE_768 && v % PAGE / 4 == i
  {
    BootEntryMeaning(BOOT_TABLE_768);
    hide BootEntry;
    var v := BOOT_TABLE_768 * PAGE + 4 * i;
    assert v / 0x1000 == BOOT_TABLE_768 && v % 0x1000 == 4 * i;
    assert mem[BOOT_TABLE_0][BOOT_TABLE_768] == BootEntry(BOOT_TABLE_768);
  }

  lemma DirectoryWord(mem: seq<Frame>, f: nat, i: nat)
    requires BootTables(mem) && f < 1024 && i < 1024
    ensures var v := P2V(f * PAGE) + 4 * i;
            && v < 0x1_0000_0000 && Accessible(mem, BOOT_DIRECTORY, v)
            && Translate(mem, BOOT_DIRECTORY, v) == Some(f * PAGE + 4 * i)
            && (f * PAGE + 4 * i) / PAGE == f && (f * PAGE + 4 * i) % PAGE / 4 == i
  {
    BootMapping(mem);
    assert Window(mem, BOOT_DIRECTORY, f);
    hide Walk, Translate, P2V, BootTables;
    WindowWord(mem, BOOT_DIRECTORY, f, i);
  }

  /** The kernel reaches the table entry of any page that has a table. */
  lemma EntryInReach(mem: seq<Frame>, root: nat, used: set<nat>, page: nat)
    requires Structure(mem, root, used) && Reachable(mem, root) && page < 0x10_0000 && Present(mem[root][page / 1024])
    ensures var t, k := FrameOf(mem[root][page / 1024]), page % 1024;
            var v := P2V(t * PAGE) + 4 * k;
            && t < |mem| && mem[t][k] < HALF
            && v < 0x1_0000_0000 && Accessible(mem, root, v)
            && Translate(mem, root, v) == Some(t * PAGE + 4 * k)
            && (t * PAGE + 4 * k) / PAGE == t && (t * PAGE + 4 * k) % PAGE / 4 == k
  {
    hide Walk, Translate;
    var t := FrameOf(mem[root][page / 1024]);
    EntryIsClean(mem, root, used, page);
    TableIsStructural(mem, root, used, page / 1024);
    WindowWord(mem, root, t, page % 1024);
  }

  lemma DirectoryInReach(mem: seq<Frame>, root: nat, used: set<nat>, d: nat)
    requires Structure(mem, root, used) && Reachable(mem, root) && d < 1024
    ensures Window(mem, root, root)
    ensures var v := P2V(root * PAGE) + 4 * d;
            && v < 0x1_0000_0000 && Accessible(mem, root, v)
            && Translate(mem, root, v) == Some(root * PAGE + 4 * d)
            && (root * PAGE + 4 * d) / PAGE == root && (root * PAGE + 4 * d) % PAGE / 4 == d
  {
    hide Walk, Translate;
    assert Structural(mem, root, root);
    WindowWord(mem, root, root, d);
  }
}
