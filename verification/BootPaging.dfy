/** The boot tables of boot/paging.asm, the direct map that vmmngr_initialize builds from them, and the
    frames it needs below 4 MB to do so. */
module BootPaging {
  import opened Bits
  import opened Options
  import opened PageEntries
  import opened AddressSpace
  import opened FrameAllocator
  import opened SpaceEffects

  const BOOT_DIRECTORY: nat := 0x9C
  const BOOT_TABLE_0: nat := 0x9D
  const BOOT_TABLE_768: nat := 0x9E
  const LOW_FRAMES: nat := 1024

  /** The first n frames at 3 GB, and for as long as the identity map is there, the first 4 MB at 0. */
  function DirectMap(q: nat, n: nat, identity: bool): Option<nat> {
    if identity && q < 1024 then Some(q)
    else if WindowPage(0) <= q < WindowPage(n) then Some(q - WindowPage(0))
    else None
  }

  ghost predicate Maps(mem: seq<Frame>, root: nat, n: nat, identity: bool) {
    forall q | 0 <= q < 0x10_0000 :: Walk(mem, root, q) == DirectMap(q, n, identity)
  }

  function BootEntry(k: nat): nat { 4096 * k + 7 }

  predicate BootTable(t: Frame) { forall k | 0 <= k < 1024 :: t[k] == BootEntry(k) }

  predicate BootDirectory(t: Frame) {
    forall k | 0 <= k < 1024 ::
      t[k] == if k == 0 then BOOT_TABLE_0 * PAGE + 7 else if k == 768 then BOOT_TABLE_768 * PAGE + 7 else 0
  }

  predicate BootTables(mem: seq<Frame>) {
    && LOW_FRAMES <= |mem| <= 0x10_0000
    && BootDirectory(mem[BOOT_DIRECTORY]) && BootTable(mem[BOOT_TABLE_0]) && BootTable(mem[BOOT_TABLE_768])
  }

  const BOOT_FRAMES: set<nat> := {BOOT_DIRECTORY, BOOT_TABLE_0, BOOT_TABLE_768}

  /** The boot tables map the first 4 MB at 0 and at 3 GB, and are within reach there. */
  lemma BootMapping(mem: seq<Frame>)
    requires BootTables(mem)
    ensures Structure(mem, BOOT_DIRECTORY, BOOT_FRAMES)
    ensures Maps(mem, BOOT_DIRECTORY, 1024, true)
    ensures forall f: nat | f < 1024 :: Window(mem, BOOT_DIRECTORY, f)
  {
    var d := mem[BOOT_DIRECTORY];
    assert Present(d[0]) && FrameOf(d[0]) == BOOT_TABLE_0;
    assert Present(d[768]) && FrameOf(d[768]) == BOOT_TABLE_768;
    forall q | 0 <= q < 0x10_0000 ensures Walk(mem, BOOT_DIRECTORY, q) == DirectMap(q, 1024, true) {
      BootWalk(mem, q);
    }
    forall f: nat | f < 1024 ensures Window(mem, BOOT_DIRECTORY, f) {
      BootWalk(mem, WindowPage(f));
    }
  }

  /** The boot tables word by word: the directory at 0x9C000, its tables at 0x9D000 and 0x9E000, all entries present,
      writable and user. */
  lemma BootWords(mem: seq<Frame>)
    ensures BootTables(mem) <==>
              && |mem| >= 1024 && |mem| <= 0x10_0000
              && (forall i | 0 <= i < 1024 ::
                    mem[0x9C][i] == if i == 0 then 0x9D007 else if i == 768 then 0x9E007 else 0)
              && (forall k | 0 <= k < 1024 :: mem[0x9D][k] == 4096 * k + 7)
              && (forall k | 0 <= k < 1024 :: mem[0x9E][k] == 4096 * k + 7)
  {
  }

  /** Through them the first 4 MB are at 0 and at 3 GB, and nothing is anywhere else. */
  lemma BootTranslates(mem: seq<Frame>, v: u32)
    requires BootTables(mem)
    ensures Translate(mem, 0x9C, v)
         == if v < 0x40_0000 then Some(v)
            else if 0xC000_0000 <= v < 0xC040_0000 then Some(v - 0xC000_0000) else None
  {
    BootMapping(mem);
    hide Walk, BootTables;
    assert Walk(mem, BOOT_DIRECTORY, v / 0x1000) == DirectMap(v / 0x1000, 1024, true);
  }

  lemma BootWalk(mem: seq<Frame>, q: nat)
    requires BootTables(mem) && q < 0x10_0000
    ensures Walk(mem, BOOT_DIRECTORY, q) == DirectMap(q, 1024, true)
  {
    hide BootEntry;
    var d, k := q / 1024, q % 1024;
    var dir := mem[BOOT_DIRECTORY];
    BootEntryMeaning(k);
    assert dir[d] == if d == 0 then BOOT_TABLE_0 * PAGE + 7 else if d == 768 then BOOT_TABLE_768 * PAGE + 7 else 0;
    if d == 0 {
      assert mem[BOOT_TABLE_0][k] == BootEntry(k);
    } else if d == 768 {
      assert mem[BOOT_TABLE_768][k] == BootEntry(k);
    }
  }

  lemma BootEntryMeaning(k: nat)
    requires k < 1024
    ensures BootEntry(k) < HALF && Present(BootEntry(k)) && FrameOf(BootEntry(k)) == k
  {
  }

  // ----- the frame budget

  /** Free frames below 4 MB that the scan can find. */
  function FreeLow(a: Frames): set<nat> { Range(0, Min(LOW_FRAMES, ScanLimit(a))) - a.used }

  /** At least n allocations will succeed, each below 4 MB. */
  predicate Enough(a: Frames, n: nat) {
    && Fits(a) && 0 in a.used
    && |FreeLow(a)| >= n
    && (a.maxBlocks - a.usedBlocks) % WORD >= n
  }

  lemma TakeOne(a: Frames, n: nat)
    requires Enough(a, n) && n > 0
    ensures var (p, a') := Alloc(a);
            var f := p / PAGE;
            && p == f * PAGE && 0 < f < LOW_FRAMES && f !in a.used
            && a'.used == a.used + {f}
            && Enough(a', n - 1)
  {
    hide Alloc, Range;
    var g :| g in FreeLow(a);
    LowIsScanned(a, g);
    AllocFailsIff(a);
    AllocIsFresh(a, {});
    var f, a' := Alloc(a).0 / PAGE, Alloc(a).1;
    assert f <= g by { assert g !in a.used; }
    LowIsScanned(a, f);
    assert FreeLow(a') == FreeLow(a) - {f};
    OneFewer(a.maxBlocks, a.usedBlocks);
  }

  lemma LowIsScanned(a: Frames, f: nat)
    ensures f in FreeLow(a) <==> f < LOW_FRAMES && f < ScanLimit(a) && f !in a.used
  {
    hide ScanLimit;
  }

  lemma OneFewer(max: nat, count: u32)
    requires (max - count) % WORD > 0
    ensures (max - (count + 1) % WORD) % WORD == (max - count) % WORD - 1
  {
  }

  // ----- copying and dropping tables

  /** A copy of a table in an unused frame, hooked into slot d, adds that table's pages. */
  lemma AddCopy(mem: seq<Frame>, root: nat, used: set<nat>, d: nat, f: nat, t: Frame)
    requires Structure(mem, root, used) && d < 1024 && mem[root][d] == 0 && Clean(t)
    requires f < |mem| && f !in used && f < 0x8_0000
    ensures f != root
    ensures var mem' := Poke(mem[f := t], root, d, Installed(0, f * PAGE));
            && Structure(mem', root, used + {f})
            && SlotFilled(mem, mem', root, d, Some(f))
            && forall q | 0 <= q < 0x10_0000 ::
                 Walk(mem', root, q) ==
                 if q / 1024 != d then Walk(mem, root, q)
                 else if Present(t[q % 1024]) then Some(FrameOf(t[q % 1024])) else None
  {
    hide Installed, Walk;
    ReplaceUnused(mem, root, used, f, t);
    assert !Present(mem[root][d]) && f != root;
    InstallTable(mem[f := t], root, used, d, f);
    assert Present(Poke(mem[f := t], root, d, Installed(0, f * PAGE))[root][d]);
  }

  /** Clearing a directory slot takes out exactly the pages of its table. */
  lemma DropTable(mem: seq<Frame>, root: nat, used: set<nat>, d: nat)
    requires Structure(mem, root, used) && d < 1024
    ensures var mem' := Poke(mem, root, d, 0);
            && Structure(mem', root, used)
            && (forall q | 0 <= q < 0x10_0000 ::
                  Walk(mem', root, q) == if q / 1024 == d then None else Walk(mem, root, q))
            && (forall g: nat | Structural(mem', root, g) :: Structural(mem, root, g))
  {
    var mem' := Poke(mem, root, d, 0);
    assert mem'[root] == mem[root][d := 0] && Clean(mem'[root]);
    forall g: nat | Structural(mem', root, g) ensures Structural(mem, root, g) {
      if g != root {
        var i :| 0 <= i < 1024 && Present(mem'[root][i]) && FrameOf(mem'[root][i]) == g;
        assert i != d && mem'[root][i] == mem[root][i];
      }
    }
  }

  // ----- what the loops of vmmngr_initialize have done

  /** Frames in use before are untouched. */
  ghost predicate Untouched(mem0: seq<Frame>, mem: seq<Frame>, used0: set<nat>) {
    |mem| == |mem0| && forall f | f in used0 && f < |mem| :: mem[f] == mem0[f]
  }

  /** The directory and its tables lie below 4 MB, in frames that were not in use before. */
  ghost predicate NewTables(mem: seq<Frame>, root: nat, used0: set<nat>)
    requires root < |mem|
  {
    forall g: nat | Structural(mem, root, g) :: g < LOW_FRAMES && g !in used0
  }

  lemma NewTablesGrow(mem: seq<Frame>, mem': seq<Frame>, root: nat, d: nat, table: Option<nat>, used0: set<nat>)
    requires root < |mem| == |mem'| && d < 1024 && NewTables(mem, root, used0)
    requires SlotFilled(mem, mem', root, d, table)
    requires table.Some? ==> table.value < LOW_FRAMES && table.value !in used0
    ensures NewTables(mem', root, used0)
  {
    forall g: nat | Structural(mem', root, g) ensures g < LOW_FRAMES && g !in used0 {
      if g != root {
        var j :| 0 <= j < 1024 && Present(mem'[root][j]) && FrameOf(mem'[root][j]) == g;
        assert Structural(mem, root, g) || table == Some(g);
      } else {
        assert Structural(mem, root, g);
      }
    }
  }

  /** Writing only new tables leaves everything else untouched. */
  lemma StaysUntouched(mem0: seq<Frame>, mem: seq<Frame>, mem': seq<Frame>, root: nat, extra: Option<nat>,
      used0: set<nat>)
    requires root < |mem| == |mem'| && NewTables(mem, root, used0) && Untouched(mem0, mem, used0)
    requires OthersKept(mem, mem', root, extra) && (extra.Some? ==> extra.value !in used0)
    ensures Untouched(mem0, mem', used0)
  {
  }

  predicate BootSlot(i: nat) { i == 0 || i == 768 }

  /** Slots below i of the new directory are copied, the rest are empty. */
  ghost predicate SlotsCopied(mem: seq<Frame>, root: nat, i: nat)
    requires root < |mem|
  {
    && (forall k | i <= k < 1024 :: mem[root][k] == 0)
    && (forall k | 0 <= k < 1024 :: Present(mem[root][k]) <==> k < i && BootSlot(k))
  }

  ghost predicate MapCopied(mem: seq<Frame>, root: nat, i: nat) {
    forall q | 0 <= q < 0x10_0000 :: Walk(mem, root, q) == if q / 1024 < i then DirectMap(q, 1024, true) else None
  }

  function Reserve(i: nat, n: nat): nat { n + (if i <= 0 then 1 else 0) + (if i <= 768 then 1 else 0) }

  /** The state of the copy loop, with n frames in reserve beyond the copies still to make. */
  ghost predicate Copied(mem0: seq<Frame>, used0: set<nat>, mem: seq<Frame>, root: nat, a: Frames, i: nat, n: nat) {
    && BOOT_FRAMES <= used0 <= a.used && Untouched(mem0, mem, used0) && BootTables(mem)
    && root < |mem| && Structure(mem, root, a.used) && NewTables(mem, root, used0)
    && SlotsCopied(mem, root, i) && MapCopied(mem, root, i)
    && Enough(a, Reserve(i, n))
  }

  lemma CopyStarts(mem0: seq<Frame>, a0: Frames, n: nat)
    requires BootTables(mem0) && BOOT_FRAMES <= a0.used && Enough(a0, n + 3)
    ensures var (p, a) := Alloc(a0);
            && Window(mem0, BOOT_DIRECTORY, p / PAGE)
            && Copied(mem0, a0.used, mem0[p / PAGE := ZERO_FRAME], p / PAGE, a, 0, n)
  {
    hide Alloc, Enough;
    TakeOne(a0, n + 3);
    BootMapping(mem0);
    hide Window;
  }

  /** The frame taken for the new directory is in reach, and clearing it starts the copy. */
  lemma BuildStarts(mem0: seq<Frame>, a0: Frames, pages: nat)
    requires BootTables(mem0) && BOOT_FRAMES <= a0.used && pages >= 1024 && Enough(a0, Tables(pages) + 2)
    ensures LOW_FRAMES <= |mem0| && Tables(pages) >= 1 && Structure(mem0, BOOT_DIRECTORY, BOOT_FRAMES)
    ensures var (p, a) := Alloc(a0);
            && p == p / PAGE * PAGE && p / PAGE !in BOOT_FRAMES && Window(mem0, BOOT_DIRECTORY, p / PAGE)
            && Copied(mem0, a0.used, mem0[p / PAGE := ZERO_FRAME], p / PAGE, a, 0, Tables(pages) - 1)
  {
    CopyStarts(mem0, a0, Tables(pages) - 1);
    BootMapping(mem0);
    TakeOne(a0, Tables(pages) + 2);
    hide Enough, Alloc, Copied, BootTables, Walk, Structure, Window, Maps;
  }

  /** An empty slot of the boot directory stays empty. */
  lemma CopySkips(mem0: seq<Frame>, used0: set<nat>, mem: seq<Frame>, root: nat, a: Frames, i: nat, n: nat)
    requires Copied(mem0, used0, mem, root, a, i, n) && i < 1024 && !BootSlot(i)
    ensures Copied(mem0, used0, mem, root, a, i + 1, n)
  {
    hide Enough, Structure, BootTables, NewTables, Untouched, Walk;
    forall q | 0 <= q < 0x10_0000
      ensures Walk(mem, root, q) == if q / 1024 < i + 1 then DirectMap(q, 1024, true) else None
    {
      if q / 1024 == i { NothingThere(q); }
    }
  }

  lemma NothingThere(q: nat)
    requires !BootSlot(q / 1024)
    ensures DirectMap(q, 1024, true) == None
  {
  }

  /** The boot table behind slot i: its frame, its contents and where they map. */
  lemma BootSlotTable(mem: seq<Frame>, i: nat)
    requires BootTables(mem) && i < 1024
    ensures Present(mem[BOOT_DIRECTORY][i]) <==> BootSlot(i)
    ensures BootSlot(i) ==>
              var t := FrameOf(mem[BOOT_DIRECTORY][i]);
              && t in BOOT_FRAMES && t < LOW_FRAMES && Clean(mem[t])
              && forall q | 0 <= q < 0x10_0000 && q / 1024 == i ::
                   Present(mem[t][q % 1024]) && DirectMap(q, 1024, true) == Some(FrameOf(mem[t][q % 1024]))
  {
    var e := mem[BOOT_DIRECTORY][i];
    if BootSlot(i) {
      var t := FrameOf(e);
      assert BootTable(mem[t]);
      forall k | 0 <= k < 1024 ensures mem[t][k] < HALF { BootEntryMeaning(k); }
      forall q | 0 <= q < 0x10_0000 && q / 1024 == i
        ensures Present(mem[t][q % 1024]) && DirectMap(q, 1024, true) == Some(FrameOf(mem[t][q % 1024]))
      {
        BootEntryMeaning(q % 1024);
      }
    }
  }

  /** A present slot is copied into a new frame. */
  lemma CopyTurns(mem0: seq<Frame>, used0: set<nat>, mem: seq<Frame>, root: nat, a: Frames, i: nat, n: nat)
    requires Copied(mem0, used0, mem, root, a, i, n) && i < 1024 && BootSlot(i)
    ensures |mem| > BOOT_DIRECTORY && FrameOf(mem[BOOT_DIRECTORY][i]) < |mem|
    ensures var t := FrameOf(mem[BOOT_DIRECTORY][i]);
            var (p, a') := Alloc(a);
            var f := p / PAGE;
            && p == f * PAGE && 0 < f < LOW_FRAMES && f !in a.used && f != root && mem[root][i] == 0
            && Copied(mem0, used0, Poke(mem[f := mem[t]], root, i, Installed(0, f * PAGE)), root, a', i + 1, n)
  {
    assert PAGE == 4096;
    hide *;
    CopiedParts(mem0, used0, mem, root, a, i, n);
    BootSlotTable(mem, i);
    TakeOne(a, Reserve(i, n));
    CopyInto(mem0, used0, mem, root, a, i, n, FrameOf(mem[BOOT_DIRECTORY][i]), Alloc(a).0 / PAGE, Alloc(a).1);
  }

  lemma CopyInto(mem0: seq<Frame>, used0: set<nat>, mem: seq<Frame>, root: nat, a: Frames, i: nat, n: nat,
                 t: nat, f: nat, a': Frames)
    requires Copied(mem0, used0, mem, root, a, i, n) && i < 1024 && BootSlot(i)
    requires LOW_FRAMES <= |mem| && t == FrameOf(mem[BOOT_DIRECTORY][i]) && t < |mem|
    requires 0 < f < LOW_FRAMES && f !in a.used && a'.used == a.used + {f} && Enough(a', Reserve(i, n) - 1)
    ensures root < |mem| && f != root && mem[root][i] == 0
    ensures Copied(mem0, used0, Poke(mem[f := mem[t]], root, i, Installed(0, f * PAGE)), root, a', i + 1, n)
  {
    assert PAGE == 4096;
    hide *;
    CopiedParts(mem0, used0, mem, root, a, i, n);
    BootSlotTable(mem, i);
    AddCopy(mem, root, a.used, i, f, mem[t]);
    var mem' := Poke(mem[f := mem[t]], root, i, Installed(0, f * PAGE));
    NewTablesGrow(mem, mem', root, i, Some(f), used0);
    RootIsNew(mem, root, used0);
    CopyKeeps(mem, root, i, f, mem[t], used0);
    KeepsBoot(mem0, mem, mem', used0);
    CopiedOneMore(mem, mem', root, i, f, mem[t]);
    ReserveTurns(i, n);
    TurnedCopied(mem0, used0, mem', root, a', i, n);
  }

  lemma CopiedParts(mem0: seq<Frame>, used0: set<nat>, mem: seq<Frame>, root: nat, a: Frames, i: nat, n: nat)
    requires Copied(mem0, used0, mem, root, a, i, n) && i < 1024 && BootSlot(i)
    ensures BOOT_FRAMES <= used0 <= a.used && Untouched(mem0, mem, used0) && BootTables(mem)
    ensures BOOT_DIRECTORY < LOW_FRAMES <= |mem|
    ensures root < |mem| && Structure(mem, root, a.used) && NewTables(mem, root, used0) && mem[root][i] == 0
    ensures SlotsCopied(mem, root, i) && MapCopied(mem, root, i)
    ensures a.maxBlocks < 0x10_0000 && Enough(a, Reserve(i, n)) && 0 < Reserve(i, n)
    ensures LOW_FRAMES < 0x8_0000
  {
  }

  lemma CopyKeeps(mem: seq<Frame>, root: nat, i: nat, f: nat, t: Frame, used0: set<nat>)
    requires root < |mem| && f < |mem| && i < 1024 && root !in used0 && f !in used0 && f < 0x8_0000
    ensures Untouched(mem, Poke(mem[f := t], root, i, Installed(0, f * PAGE)), used0)
  {
    hide Installed;
  }

  lemma ReserveTurns(i: nat, n: nat)
    requires BootSlot(i)
    ensures Reserve(i + 1, n) == Reserve(i, n) - 1
  {
  }

  lemma TurnedCopied(mem0: seq<Frame>, used0: set<nat>, mem: seq<Frame>, root: nat, a: Frames, i: nat, n: nat)
    requires BOOT_FRAMES <= used0 <= a.used && Untouched(mem0, mem, used0) && BootTables(mem)
    requires root < |mem| && Structure(mem, root, a.used) && NewTables(mem, root, used0)
    requires SlotsCopied(mem, root, i + 1) && MapCopied(mem, root, i + 1)
    requires Enough(a, Reserve(i + 1, n))
    ensures Copied(mem0, used0, mem, root, a, i + 1, n)
  {
  }

  lemma RootIsNew(mem: seq<Frame>, root: nat, used0: set<nat>)
    requires root < |mem| && NewTables(mem, root, used0)
    ensures root < LOW_FRAMES && root !in used0
  {
    assert Structural(mem, root, root);
  }

  lemma CopiedOneMore(mem: seq<Frame>, mem': seq<Frame>, root: nat, i: nat, f: nat, t: Frame)
    requires root < |mem| == |mem'| && i < 1024 && BootSlot(i)
    requires SlotsCopied(mem, root, i) && MapCopied(mem, root, i) && SlotFilled(mem, mem', root, i, Some(f))
    requires forall q | 0 <= q < 0x10_0000 && q / 1024 == i ::
               Present(t[q % 1024]) && DirectMap(q, 1024, true) == Some(FrameOf(t[q % 1024]))
    requires forall q | 0 <= q < 0x10_0000 ::
               Walk(mem', root, q) ==
               if q / 1024 != i then Walk(mem, root, q)
               else if Present(t[q % 1024]) then Some(FrameOf(t[q % 1024])) else None
    ensures SlotsCopied(mem', root, i + 1) && MapCopied(mem', root, i + 1)
  {
    hide Walk, DirectMap;
  }

  lemma KeepsBoot(mem0: seq<Frame>, mem: seq<Frame>, mem': seq<Frame>, used0: set<nat>)
    requires BootTables(mem) && Untouched(mem0, mem, used0) && BOOT_FRAMES <= used0
    requires Untouched(mem, mem', used0)
    ensures BootTables(mem') && Untouched(mem0, mem', used0)
  {
    assert mem'[BOOT_DIRECTORY] == mem[BOOT_DIRECTORY];
    assert mem'[BOOT_TABLE_0] == mem[BOOT_TABLE_0];
    assert mem'[BOOT_TABLE_768] == mem[BOOT_TABLE_768];
  }

  // ----- extending the map

  /** Tables needed for n pages. */
  function Tables(n: nat): nat { (n + 1023) / 1024 }

  /** Slot 0 for the identity map, and one slot from 768 on for each 4 MB mapped at 3 GB. */
  ghost predicate SlotsExtended(mem: seq<Frame>, root: nat, n: nat)
    requires root < |mem|
  {
    forall k | 0 <= k < 1024 :: Present(mem[root][k]) <==> k == 0 || 768 <= k < 768 + Tables(n)
  }

  /** The first n frames are mapped at 3 GB, with new tables for exactly those. */
  ghost predicate ExtendedMap(mem0: seq<Frame>, used0: set<nat>, mem: seq<Frame>, root: nat, n: nat) {
    && root < |mem| && Untouched(mem0, mem, used0) && NewTables(mem, root, used0)
    && Maps(mem, root, n, true) && SlotsExtended(mem, root, n)
  }

  /** The state of the extension loop: n frames mapped, and enough frames left for the rest. */
  ghost predicate Extended(mem0: seq<Frame>, used0: set<nat>, mem: seq<Frame>, root: nat, a: Frames, n: nat,
      pages: nat) {
    && used0 <= a.used && 1024 <= n <= pages <= 0x4_0000
    && ExtendedMap(mem0, used0, mem, root, n)
    && Structure(mem, root, a.used) && Reachable(mem, root)
    && Enough(a, Tables(pages) - Tables(n))
  }

  lemma ExtendStarts(mem0: seq<Frame>, used0: set<nat>, mem: seq<Frame>, root: nat, a: Frames, pages: nat)
    requires 1024 <= pages <= 0x4_0000
    requires Copied(mem0, used0, mem, root, a, 1024, Tables(pages) - 1)
    ensures Extended(mem0, used0, mem, root, a, 1024, pages)
  {
    assert |mem| >= LOW_FRAMES;
    hide Walk, Structure, BootTables, Structural, Untouched, Enough;
    assert Tables(1024) == 1;
    assert Maps(mem, root, 1024, true);
    LowIsReachable(mem, root, used0, 1024);
  }

  lemma LowIsReachable(mem: seq<Frame>, root: nat, used0: set<nat>, n: nat)
    requires root < |mem| && LOW_FRAMES <= |mem| && LOW_FRAMES <= n <= 0x4_0000
    requires NewTables(mem, root, used0) && Maps(mem, root, n, true)
    ensures Reachable(mem, root)
  {
    hide Walk, Structural;
    forall f: nat | Structural(mem, root, f) ensures Window(mem, root, f) {
      assert DirectMap(WindowPage(f), n, true) == Some(f);
    }
  }

  /** The next page is unmapped, no window, and its table is there or can be made. */
  lemma ExtendReady(mem0: seq<Frame>, used0: set<nat>, mem: seq<Frame>, root: nat, a: Frames, n: nat, pages: nat)
    requires Extended(mem0, used0, mem, root, a, n, pages) && n < pages && LOW_FRAMES <= |mem|
    ensures SparesWindows(mem, root, WindowPage(n), n)
    ensures TableInReach(Space(mem, root, a), WindowPage(n))
    ensures Walk(mem, root, WindowPage(n)) == None
    ensures !Present(mem[root][WindowPage(n) / 1024]) ==>
              && n % 1024 == 0 && Alloc(a).0 / PAGE < LOW_FRAMES && Alloc(a).0 / PAGE !in used0
              && Enough(Alloc(a).1, Tables(pages) - Tables(n) - 1) && a.used <= Alloc(a).1.used
    ensures Present(mem[root][WindowPage(n) / 1024]) <==> n % 1024 != 0
  {
    assert PAGE == 4096;
    hide *;
    ExtendedParts(mem0, used0, Space(mem, root, a), n, pages);
    NextIsUnmapped(mem0, used0, mem, root, n);
    SlotOfPage(n);
    if n % 1024 == 0 {
      TablesStep(n, pages);
      TakeOne(a, Tables(pages) - Tables(n));
      LowWindow(mem, root, n, Alloc(a).0 / PAGE, mem0, used0);
    }
    TableReady(Space(mem, root, a), n, used0);
  }

  lemma NextIsUnmapped(mem0: seq<Frame>, used0: set<nat>, mem: seq<Frame>, root: nat, n: nat)
    requires ExtendedMap(mem0, used0, mem, root, n) && 1024 <= n < 0x4_0000
    ensures SparesWindows(mem, root, WindowPage(n), n)
    ensures Walk(mem, root, WindowPage(n)) == None
    ensures var d := WindowPage(n) / 1024; d < 1024 && (Present(mem[root][d]) <==> n % 1024 != 0)
  {
    hide Walk, Structural, Untouched;
    SlotOfPage(n);
    assert DirectMap(WindowPage(n), n, true) == None;
  }

  lemma LowWindow(mem: seq<Frame>, root: nat, n: nat, f: nat, mem0: seq<Frame>, used0: set<nat>)
    requires ExtendedMap(mem0, used0, mem, root, n) && 1024 <= n <= 0x4_0000 && f < LOW_FRAMES <= |mem|
    ensures Window(mem, root, f)
  {
    hide Walk, Structural, Untouched;
    assert DirectMap(WindowPage(f), n, true) == Some(f);
  }

  lemma TableReady(s: Space, n: nat, used0: set<nat>)
    requires s.root < |s.mem| && s.a.maxBlocks < 0x10_0000 && WindowPage(n) < 0x10_0000
    requires Present(s.mem[s.root][WindowPage(n) / 1024]) <==> n % 1024 != 0
    requires n % 1024 == 0 ==> Alloc(s.a).0 != 0 && Window(s.mem, s.root, Alloc(s.a).0 / PAGE)
    ensures TableInReach(s, WindowPage(n))
  {
    hide Alloc, Window;
  }

  lemma SlotOfPage(n: nat)
    requires 1024 <= n < 0x4_0000
    ensures var d := WindowPage(n) / 1024;
            d == 768 + n / 1024 && d < 1024 && (d < 768 + Tables(n) <==> n % 1024 != 0)
  {
  }

  lemma TablesStep(n: nat, pages: nat)
    requires n < pages
    ensures Tables(n) <= Tables(pages)
    ensures n % 1024 == 0 ==> Tables(n) < Tables(pages)
    ensures Tables(n + 1) == if n % 1024 == 0 then Tables(n) + 1 else Tables(n)
  {
  }

  /** Mapping the next page extends the map by one. */
  lemma ExtendTurns(mem0: seq<Frame>, used0: set<nat>, s: Space, s': Space, n: nat, pages: nat)
    requires Extended(mem0, used0, s.mem, s.root, s.a, n, pages) && n < pages && LOW_FRAMES <= |s.mem|
    requires |s'.mem| == |s.mem| && PageMapped(s, s', WindowPage(n), n)
    requires Structure(s'.mem, s.root, s'.a.used) && Reachable(s'.mem, s.root)
    ensures Extended(mem0, used0, s'.mem, s.root, s'.a, n + 1, pages)
  {
    hide *;
    ExtendedParts(mem0, used0, s, n, pages);
    ExtendReady(mem0, used0, s.mem, s.root, s.a, n, pages);
    SlotOfPage(n);
    TablesStep(n, pages);
    var table := NewTableOf(s, s', n);
    ExtendMap(mem0, used0, s.mem, s'.mem, s.root, n, table);
    TurnedExtended(mem0, used0, s', n, pages);
  }

  lemma ExtendedParts(mem0: seq<Frame>, used0: set<nat>, s: Space, n: nat, pages: nat)
    requires Extended(mem0, used0, s.mem, s.root, s.a, n, pages)
    ensures s.a.maxBlocks < 0x10_0000 && used0 <= s.a.used && 1024 <= n <= pages <= 0x4_0000
    ensures s.root < |s.mem| && ExtendedMap(mem0, used0, s.mem, s.root, n)
    ensures Tables(n) <= Tables(pages) && Enough(s.a, Tables(pages) - Tables(n))
  {
  }

  lemma TurnedExtended(mem0: seq<Frame>, used0: set<nat>, s: Space, n: nat, pages: nat)
    requires used0 <= s.a.used && 1024 <= n < pages <= 0x4_0000 && ExtendedMap(mem0, used0, s.mem, s.root, n + 1)
    requires Structure(s.mem, s.root, s.a.used) && Reachable(s.mem, s.root)
    requires Tables(n + 1) <= Tables(pages) && Enough(s.a, Tables(pages) - Tables(n + 1))
    ensures Extended(mem0, used0, s.mem, s.root, s.a, n + 1, pages)
  {
  }

  lemma ExtendMap(mem0: seq<Frame>, used0: set<nat>, mem: seq<Frame>, mem': seq<Frame>, root: nat, n: nat,
      table: Option<nat>)
    requires ExtendedMap(mem0, used0, mem, root, n) && |mem'| == |mem| && 1024 <= n < 0x4_0000
    requires OnePageMapped(mem, mem', root, WindowPage(n), Some(n)) && OthersKept(mem, mem', root, table)
    requires WindowPage(n) / 1024 < 1024 && SlotFilled(mem, mem', root, WindowPage(n) / 1024, table)
    requires table.Some? <==> n % 1024 == 0
    requires table.Some? ==> table.value < LOW_FRAMES && table.value !in used0
    ensures ExtendedMap(mem0, used0, mem', root, n + 1)
  {
    hide Structural, Untouched, NewTables, OthersKept, Maps, SlotsExtended, SlotFilled, OnePageMapped, WindowPage;
    NewTablesGrow(mem, mem', root, WindowPage(n) / 1024, table, used0);
    StaysUntouched(mem0, mem, mem', root, table, used0);
    OneMoreMapped(mem, mem', root, n, table);
  }

  /** Which table, if any, was added for page n, and the parts of the effect. */
  lemma NewTableOf(s: Space, s': Space, n: nat) returns (table: Option<nat>)
    requires s.root < |s.mem| == |s'.mem| && s.a.maxBlocks < 0x10_0000 && 1024 <= n < 0x4_0000
    requires PageMapped(s, s', WindowPage(n), n)
    ensures var d := WindowPage(n) / 1024;
            && d < 1024 && s'.root == s.root
            && table == (if Present(s.mem[s.root][d]) then None else Some(Alloc(s.a).0 / PAGE))
            && s'.a == (if table.None? then s.a else Alloc(s.a).1)
            && SlotFilled(s.mem, s'.mem, s.root, d, table) && OthersKept(s.mem, s'.mem, s.root, table)
            && OnePageMapped(s.mem, s'.mem, s.root, WindowPage(n), Some(n))
  {
    hide Alloc, SlotFilled, OthersKept, OnePageMapped;
    SlotOfPage(n);
    table := if Present(s.mem[s.root][WindowPage(n) / 1024]) then None else Some(Alloc(s.a).0 / PAGE);
  }

  lemma OneMoreMapped(mem: seq<Frame>, mem': seq<Frame>, root: nat, n: nat, table: Option<nat>)
    requires root < |mem| == |mem'| && 1024 <= n < 0x4_0000
    requires Maps(mem, root, n, true) && SlotsExtended(mem, root, n)
    requires OnePageMapped(mem, mem', root, WindowPage(n), Some(n))
    requires SlotFilled(mem, mem', root, WindowPage(n) / 1024, table) && (table.Some? <==> n % 1024 == 0)
    ensures Maps(mem', root, n + 1, true) && SlotsExtended(mem', root, n + 1)
  {
    hide Walk;
    SlotOfPage(n);
    TablesStep(n, n + 1);
    forall q | 0 <= q < 0x10_0000 ensures Walk(mem', root, q) == DirectMap(q, n + 1, true) {
      assert Walk(mem, root, q) == DirectMap(q, n, true);
    }
  }

  /** Pages mapped at 3 GB for a machine with this much memory: at least 4 MB, at most 1 GB. */
  function Pages(totalMemory: u32): (n: nat)
    ensures 1024 <= n <= 0x4_0000
  {
    var t := (Min(totalMemory, 0x4000_0000) + 4095) / 4096;
    if t < 1024 then 1024 else t
  }

  /** With that many pages mapped, an address translates if it is at 3 GB or above and its page starts within the
      memory, taken as at least 4 MB and at most 1 GB; it translates to what it is above 3 GB. */
  lemma MapsMean(mem: seq<Frame>, root: nat, total: u32)
    requires Maps(mem, root, Pages(total), false)
    ensures forall v: u32 ::
              Translate(mem, root, v)
              == if v >= 0xC000_0000
                    && v - 0xC000_0000 - v % 4096
                       < (if total < 0x40_0000 then 0x40_0000 else if total > 0x4000_0000 then 0x4000_0000 else total)
                 then Some(v - 0xC000_0000) else None
  {
    hide Walk, Pages;
    forall v: u32
      ensures Translate(mem, root, v)
           == if v >= 0xC000_0000
                 && v - 0xC000_0000 - v % 4096
                    < (if total < 0x40_0000 then 0x40_0000 else if total > 0x4000_0000 then 0x4000_0000 else total)
              then Some(v - 0xC000_0000) else None
    {
      assert Walk(mem, root, v / 0x1000) == DirectMap(v / 0x1000, Pages(total), false);
      if v >= 0xC000_0000 { PagesMean(v, total); }
    }
  }

  lemma PagesMean(v: u32, total: u32)
    requires v >= 0xC000_0000
    ensures v / 4096 - 0xC_0000 < Pages(total)
       <==> v - 0xC000_0000 - v % 4096
            < (if total < 0x40_0000 then 0x40_0000 else if total > 0x4000_0000 then 0x4000_0000 else total)
  {
    var q := v / 4096 - 0xC_0000;
    assert v - 0xC000_0000 - v % 4096 == 4096 * q;
  }

  /** For whole pages of memory, those are the addresses of that many bytes from 3 GB on. */
  lemma WholePagesMean(mem: seq<Frame>, root: nat, total: u32)
    requires Maps(mem, root, Pages(total), false) && total % 4096 == 0
    ensures forall v: u32 ::
              Translate(mem, root, v)
              == if 0xC000_0000 <= v
                    < 0xC000_0000
                      + (if total < 0x40_0000 then 0x40_0000 else if total > 0x4000_0000 then 0x4000_0000 else total)
                 then Some(v - 0xC000_0000) else None
  {
    MapsMean(mem, root, total);
    hide Maps, Translate, Pages;
    var limit := if total < 0x40_0000 then 0x40_0000 else if total > 0x4000_0000 then 0x4000_0000 else total;
    forall v: u32
      ensures Translate(mem, root, v) == if 0xC000_0000 <= v < 0xC000_0000 + limit then Some(v - 0xC000_0000) else None
    {
      if v >= 0xC000_0000 { PageStartsBelow(v - 0xC000_0000, limit); }
    }
  }

  lemma PageStartsBelow(x: nat, limit: nat)
    requires limit % 4096 == 0
    ensures x % 4096 == (x + 0xC000_0000) % 4096
    ensures x - x % 4096 < limit <==> x < limit
  {
  }

  lemma SamePages(totalMemory: u32, total: u32)
    requires total == Min(totalMemory, 0x4000_0000)
    ensures Pages(total) == Pages(totalMemory)
  {
  }

  // ----- dropping the identity map

  /** The first i pages of the identity map are gone. */
  ghost predicate Dropping(mem: seq<Frame>, root: nat, n: nat, i: nat) {
    forall q | 0 <= q < 0x10_0000 :: Walk(mem, root, q) == DirectMap(q, n, i <= q < 1024)
  }

  lemma DropOne(mem: seq<Frame>, root: nat, used: set<nat>, n: nat, i: nat)
    requires Structure(mem, root, used) && Reachable(mem, root) && Dropping(mem, root, n, i) && i < 1024
    requires Present(mem[root][0]) && 1024 <= n <= 0x4_0000
    ensures var t := FrameOf(mem[root][0]);
            var mem' := Poke(mem, t, i, 0);
            && Window(mem, root, t) && t != root
            && Structure(mem', root, used) && Reachable(mem', root) && mem'[root] == mem[root]
            && Dropping(mem', root, n, i + 1)
  {
    hide Walk, Structure, Structural;
    TableIsStructural(mem, root, used, 0);
    ReplaceEntry(mem, root, used, i, 0);
    var t := FrameOf(mem[root][0]);
    var mem' := Poke(mem, t, i, 0);
    forall q | 0 <= q < 0x10_0000 ensures Walk(mem', root, q) == DirectMap(q, n, i + 1 <= q < 1024) {
      assert Walk(mem, root, q) == DirectMap(q, n, i <= q < 1024);
    }
    StillReachable(mem, mem', root, i);
  }

  lemma StillReachable(mem: seq<Frame>, mem': seq<Frame>, root: nat, i: nat)
    requires root < |mem| == |mem'| && mem'[root] == mem[root] && Reachable(mem, root) && i < 1024
    requires OnePageMapped(mem, mem', root, i, None)
    ensures Reachable(mem', root)
  {
    hide Walk;
    forall f: nat | Structural(mem', root, f) ensures Window(mem', root, f) {
      assert Structural(mem, root, f);
    }
  }

  /** Clearing slot 0 after its pages changes no translation. */
  lemma DropSlot(mem: seq<Frame>, root: nat, used: set<nat>, n: nat)
    requires Structure(mem, root, used) && Reachable(mem, root) && Dropping(mem, root, n, 1024)
    ensures var mem' := Poke(mem, root, 0, 0);
            && Structure(mem', root, used) && Reachable(mem', root) && Maps(mem', root, n, false)
  {
    hide Walk, Structure, Structural;
    DropTable(mem, root, used, 0);
    var mem' := Poke(mem, root, 0, 0);
    forall q | 0 <= q < 0x10_0000 ensures Walk(mem', root, q) == Walk(mem, root, q) {
      assert Walk(mem, root, q) == DirectMap(q, n, false);
    }
  }

  lemma DropReady(mem0: seq<Frame>, used0: set<nat>, mem: seq<Frame>, root: nat, a: Frames, pages: nat)
    requires Extended(mem0, used0, mem, root, a, pages, pages)
    ensures root < |mem| && Present(mem[root][0]) && 1024 <= pages <= 0x4_0000
    ensures Dropping(mem, root, pages, 0) && Untouched(mem0, mem, used0)
    ensures FrameOf(mem[root][0]) < |mem| && FrameOf(mem[root][0]) != root
    ensures FrameOf(mem[root][0]) !in used0 && root !in used0
  {
    assert Present(mem[root][0]);
    TableIsStructural(mem, root, a.used, 0);
    hide Walk, Structure, Structural, Enough;
    forall q | 0 <= q < 0x10_0000 ensures Walk(mem, root, q) == DirectMap(q, pages, 0 <= q < 1024) {
      assert Walk(mem, root, q) == DirectMap(q, pages, true);
    }
  }

  lemma CopiedBoot(mem0: seq<Frame>, used0: set<nat>, mem: seq<Frame>, root: nat, a: Frames, i: nat, n: nat)
    requires Copied(mem0, used0, mem, root, a, i, n)
    ensures BootTables(mem) && BOOT_FRAMES <= used0 <= a.used && root < LOW_FRAMES <= |mem| && root !in used0
  {
    RootIsNew(mem, root, used0);
  }

  /** Rewriting a frame that is not one of the boot tables leaves them in force. */
  lemma StillBoot(mem: seq<Frame>, mem': seq<Frame>, f: nat)
    requires BootTables(mem) && f < |mem| == |mem'| && f !in BOOT_FRAMES && mem' == mem[f := mem'[f]]
    ensures BootTables(mem') && Structure(mem', BOOT_DIRECTORY, BOOT_FRAMES)
    ensures forall g: nat | g < 1024 :: Window(mem', BOOT_DIRECTORY, g)
  {
    assert mem'[BOOT_DIRECTORY] == mem[BOOT_DIRECTORY];
    assert mem'[BOOT_TABLE_0] == mem[BOOT_TABLE_0];
    assert mem'[BOOT_TABLE_768] == mem[BOOT_TABLE_768];
    hide BootDirectory, BootTable;
    BootMapping(mem');
  }

  lemma ExtendedMeans(mem0: seq<Frame>, used0: set<nat>, mem: seq<Frame>, root: nat, a: Frames, n: nat, pages: nat)
    requires Extended(mem0, used0, mem, root, a, n, pages)
    ensures Structure(mem, root, a.used) && Reachable(mem, root) && 0 in a.used && used0 <= a.used
  {
  }
}
