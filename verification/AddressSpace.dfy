/** Two-level page tables in physical memory (section 4.3, "32-Bit Paging", of the Intel SDM volume 3A)
    and how installing an entry changes the translation of one page and of no other. */
module AddressSpace {
  import opened Bits
  import opened Options
  import opened PageEntries

  const PAGE: nat := 4096
  const HALF: nat := 0x8000_0000

  type Frame = f: seq<u32> | |f| == 1024 witness seq(1024, _ => 0)

  const ZERO_FRAME: Frame := seq(1024, _ => 0)

  function Present(e: u32): bool { e % 2 == 1 }
  function FrameOf(e: u32): nat { e / 0x1000 }

  /** The hardware walk for a page number: directory, table, frame. */
  function Walk(mem: seq<Frame>, root: nat, page: nat): Option<nat>
    requires page < 0x10_0000
  {
    if root >= |mem| || !Present(mem[root][page / 1024]) then None
    else
      var t := FrameOf(mem[root][page / 1024]);
      if t >= |mem| || !Present(mem[t][page % 1024]) then None
      else Some(FrameOf(mem[t][page % 1024]))
  }

  function Translate(mem: seq<Frame>, root: nat, v: u32): Option<nat> {
    match Walk(mem, root, v / 0x1000)
    case None => None
    case Some(f) => Some(f * PAGE + v % 0x1000)
  }

  /** Ten bits of directory index, ten of table index, twelve of offset; an entry counts when its lowest bit is set, and
      its upper twenty bits name a frame. */
  lemma TranslateMeans(mem: seq<Frame>, root: nat, d: nat, k: nat, offset: nat)
    requires root < |mem| && d < 1024 && k < 1024 && offset < 4096
    ensures var e := mem[root][d];
            Translate(mem, root, d * 0x40_0000 + k * 0x1000 + offset)
            == if e % 2 == 1 && e / 4096 < |mem| && mem[e / 4096][k] % 2 == 1
               then Some(mem[e / 4096][k] / 4096 * 4096 + offset) else None
  {
    var v := d * 0x40_0000 + k * 0x1000 + offset;
    assert v / 0x1000 == d * 1024 + k && v % 0x1000 == offset;
    assert (d * 1024 + k) / 1024 == d && (d * 1024 + k) % 1024 == k;
  }

  /** `P2V`: the kernel's window on physical memory. */
  function P2V(phys: nat): u32 { (phys + 0xC000_0000) % 0x1_0000_0000 }

  /** The null test of `vmmngr_map_page` comes after `P2V`: it fires for a table at 1 GB, and never for
      the null address that stands for "no frame left". */
  lemma NullTestIff(tablePhys: u32)
    ensures P2V(tablePhys) == 0 <==> tablePhys == 0x4000_0000
  {
  }

  /** The page of the window through which the kernel reaches a frame. */
  function WindowPage(f: nat): nat { 0xC_0000 + f }

  predicate Window(mem: seq<Frame>, root: nat, f: nat) {
    f < 0x4_0000 && f < |mem| && Walk(mem, root, WindowPage(f)) == Some(f)
  }

  predicate Clean(t: Frame) { forall k | 0 <= k < 1024 :: t[k] < HALF }

  /** A directory with separate tables, all of them in frames marked used. */
  ghost predicate Structure(mem: seq<Frame>, root: nat, used: set<nat>) {
    && root < |mem| && root in used
    && Clean(mem[root])
    && (forall i | 0 <= i < 1024 && Present(mem[root][i]) ::
          && FrameOf(mem[root][i]) < |mem| && FrameOf(mem[root][i]) in used && FrameOf(mem[root][i]) != root
          && Clean(mem[FrameOf(mem[root][i])]))
    && (forall i, j | 0 <= i < j < 1024 && Present(mem[root][i]) && Present(mem[root][j]) ::
          FrameOf(mem[root][i]) != FrameOf(mem[root][j]))
  }

  /** A frame that holds the directory or one of its tables. */
  ghost predicate Structural(mem: seq<Frame>, root: nat, f: nat)
    requires root < |mem|
  {
    f == root || exists i :: 0 <= i < 1024 && Present(mem[root][i]) && FrameOf(mem[root][i]) == f
  }

  /** The kernel reaches its own directory and tables through their windows. */
  ghost predicate Reachable(mem: seq<Frame>, root: nat)
    requires root < |mem|
  {
    forall f: nat | Structural(mem, root, f) :: Window(mem, root, f)
  }

  function Poke(mem: seq<Frame>, f: nat, i: nat, w: u32): (r: seq<Frame>)
    requires f < |mem| && i < 1024
    ensures |r| == |mem|
  {
    mem[f := mem[f][i := w]]
  }

  lemma PageParts(page: nat, d: nat, k: nat)
    requires d == page / 1024 && k == page % 1024
    ensures forall q | 0 <= q < 0x10_0000 :: q == page <==> q / 1024 == d && q % 1024 == k
  {
  }

  /** Filling in one table entry changes the translation of exactly one page. */
  lemma InstallPage(mem: seq<Frame>, root: nat, used: set<nat>, page: nat, phys: u32)
    requires Structure(mem, root, used) && page < 0x10_0000 && Present(mem[root][page / 1024])
    requires phys % PAGE == 0 && phys < HALF
    ensures var t, k := FrameOf(mem[root][page / 1024]), page % 1024;
            var mem' := Poke(mem, t, k, Installed(mem[t][k], phys));
            && Structure(mem', root, used)
            && mem'[root] == mem[root]
            && OnePageMapped(mem, mem', root, page, Some(phys / PAGE))
  {
    hide Installed, Walk;
    EntryIsClean(mem, root, used, page);
    var t, k := FrameOf(mem[root][page / 1024]), page % 1024;
    InstalledEntry(mem[t][k], phys);
    ReplaceEntry(mem, root, used, page, Installed(mem[t][k], phys));
  }

  lemma InstalledEntry(e: u32, phys: u32)
    requires e < HALF && phys % PAGE == 0 && phys < HALF
    ensures Present(Installed(e, phys)) && FrameOf(Installed(e, phys)) == phys / PAGE && Installed(e, phys) < HALF
  {
    hide Installed;
    InstalledMeaning(e, phys);
    EntryMeaning(Installed(e, phys));
  }

  /** Hooking a table in an unused frame into an empty directory slot adds that table's pages and no others. */
  lemma InstallTable(mem: seq<Frame>, root: nat, used: set<nat>, d: nat, f: nat)
    requires Structure(mem, root, used) && d < 1024 && !Present(mem[root][d])
    requires f < |mem| && f !in used && f < 0x8_0000 && Clean(mem[f])
    ensures var mem' := Poke(mem, root, d, Installed(mem[root][d], f * PAGE));
            && Structure(mem', root, used + {f})
            && (forall i | 0 <= i < 1024 :: Present(mem'[root][i]) <==> i == d || Present(mem[root][i]))
            && (forall i | 0 <= i < 1024 && i != d :: mem'[root][i] == mem[root][i])
            && FrameOf(mem'[root][d]) == f
            && forall q | 0 <= q < 0x10_0000 ::
                 Walk(mem', root, q) ==
                 if q / 1024 != d then Walk(mem, root, q)
                 else if Present(mem[f][q % 1024]) then Some(FrameOf(mem[f][q % 1024])) else None
  {
    hide Installed;
    var e := Installed(mem[root][d], f * PAGE);
    var mem' := Poke(mem, root, d, e);
    InstalledEntry(mem[root][d], f * PAGE);
    assert mem'[root] == mem[root][d := e] && f != root;
    assert Clean(mem'[root]);
  }

  // ----- the effect of vmmngr_map_page

  /** One page's translation is updated, all others kept. */
  ghost predicate OnePageMapped(mem: seq<Frame>, mem': seq<Frame>, root: nat, page: nat, f: Option<nat>) {
    forall q | 0 <= q < 0x10_0000 :: Walk(mem', root, q) == if q == page then f else Walk(mem, root, q)
  }

  /** The same of addresses. */
  lemma OnePageTranslated(mem: seq<Frame>, mem': seq<Frame>, root: nat, page: nat, f: Option<nat>)
    requires OnePageMapped(mem, mem', root, page, f)
    ensures forall v: u32 ::
              Translate(mem', root, v)
              == if v / 4096 != page then Translate(mem, root, v)
                 else match f case None => None case Some(g) => Some(4096 * g + v % 4096)
  {
    hide Walk;
    forall v: u32
      ensures Translate(mem', root, v)
           == if v / 4096 != page then Translate(mem, root, v)
              else match f case None => None case Some(g) => Some(4096 * g + v % 4096)
    {
      assert Walk(mem', root, v / 0x1000) == if v / 0x1000 == page then f else Walk(mem, root, v / 0x1000);
    }
  }

  /** Directory slot d holds the given new table, or what it held before; the other slots are as they were. */
  ghost predicate SlotFilled(mem: seq<Frame>, mem': seq<Frame>, root: nat, d: nat, table: Option<nat>)
    requires root < |mem| == |mem'| && d < 1024
  {
    && (forall i | 0 <= i < 1024 && i != d :: mem'[root][i] == mem[root][i])
    && match table
       case None => mem'[root][d] == mem[root][d]
       case Some(f) => Present(mem'[root][d]) && FrameOf(mem'[root][d]) == f
  }

  /** Only the directory, its tables and possibly one more frame were written. */
  ghost predicate OthersKept(mem: seq<Frame>, mem': seq<Frame>, root: nat, extra: Option<nat>)
    requires root < |mem| == |mem'|
  {
    forall f: nat | f < |mem| && !Structural(mem, root, f) && extra != Some(f) :: mem'[f] == mem[f]
  }

  /** Mapping the page to phys does not take a window away from the directory or a table. */
  ghost predicate SparesWindows(mem: seq<Frame>, root: nat, page: nat, f: nat)
    requires root < |mem|
  {
    forall g: nat | Structural(mem, root, g) && page == WindowPage(g) :: f == g
  }

  /** The page is mapped through a table that is already there; the kernel still reaches its directory and tables
      afterwards exactly when the page is not the window of one of them, or stays it. */
  lemma MapInTable(mem: seq<Frame>, root: nat, used: set<nat>, page: nat, phys: u32)
    requires Structure(mem, root, used) && Reachable(mem, root) && page < 0x10_0000 && Present(mem[root][page / 1024])
    requires phys % PAGE == 0 && phys < HALF
    ensures var t, k := FrameOf(mem[root][page / 1024]), page % 1024;
            var mem' := Poke(mem, t, k, Installed(mem[t][k], phys));
            && Window(mem, root, t)
            && Structure(mem', root, used)
            && (Reachable(mem', root) <==> SparesWindows(mem, root, page, phys / PAGE))
            && OnePageMapped(mem, mem', root, page, Some(phys / PAGE))
            && SlotFilled(mem, mem', root, page / 1024, None)
            && OthersKept(mem, mem', root, None)
  {
    assert root < |mem|;
    hide Installed, Walk, Structure;
    var t, k := FrameOf(mem[root][page / 1024]), page % 1024;
    TableIsStructural(mem, root, used, page / 1024);
    InstallPage(mem, root, used, page, phys);
    var mem' := Poke(mem, t, k, Installed(mem[t][k], phys));
    WindowsAfter(mem, mem', root, page, Some(phys / PAGE));
  }

  /** With the directory unchanged and one page mapped anew, the windows of the directory and the tables are all there
      exactly if that page is none of them or still maps the frame it is the window of. */
  lemma WindowsAfter(mem: seq<Frame>, mem': seq<Frame>, root: nat, page: nat, f: Option<nat>)
    requires root < |mem| == |mem'| && page < 0x10_0000 && Reachable(mem, root)
    requires mem'[root] == mem[root] && OnePageMapped(mem, mem', root, page, f)
    ensures Reachable(mem', root)
       <==> forall g: nat | Structural(mem, root, g) && page == WindowPage(g) :: f == Some(g)
  {
    hide Walk;
    forall g: nat
      ensures Structural(mem', root, g) <==> Structural(mem, root, g)
      ensures Structural(mem, root, g) ==> (Window(mem', root, g) <==> page != WindowPage(g) || f == Some(g))
    {
      if Structural(mem, root, g) { assert Window(mem, root, g); }
    }
  }

  /** A page without a table is nobody's window. */
  lemma NoTableSparesWindows(mem: seq<Frame>, root: nat, page: nat, f: nat)
    requires root < |mem| && Reachable(mem, root) && page < 0x10_0000 && !Present(mem[root][page / 1024])
    ensures SparesWindows(mem, root, page, f)
  {
    hide Structural;
    forall g: nat | Structural(mem, root, g) ensures page != WindowPage(g) {
      assert Window(mem, root, g);
    }
  }

  lemma TableIsStructural(mem: seq<Frame>, root: nat, used: set<nat>, d: nat)
    requires Structure(mem, root, used) && d < 1024 && Present(mem[root][d])
    ensures Structural(mem, root, FrameOf(mem[root][d])) && Structural(mem, root, root)
    ensures FrameOf(mem[root][d]) < |mem| && FrameOf(mem[root][d]) != root
    ensures forall f: nat | Structural(mem, root, f) :: f in used && f < |mem|
  {
  }

  /** A new, cleared table in an unused frame within reach of the kernel. */
  lemma AddTable(mem: seq<Frame>, root: nat, used: set<nat>, d: nat, f: nat)
    requires Structure(mem, root, used) && Reachable(mem, root) && d < 1024 && !Present(mem[root][d])
    requires f !in used && Window(mem, root, f)
    ensures var mem1 := mem[f := ZERO_FRAME];
            var mem' := Poke(mem1, root, d, Installed(mem[root][d], f * PAGE));
            && f != root && Window(mem1, root, root)
            && Structure(mem', root, used + {f}) && Reachable(mem', root)
            && (forall q | 0 <= q < 0x10_0000 :: Walk(mem', root, q) == Walk(mem, root, q))
            && SlotFilled(mem, mem', root, d, Some(f))
            && OthersKept(mem, mem', root, Some(f))
            && (forall g: nat | Structural(mem', root, g) :: g == f || Structural(mem, root, g))
  {
    hide Installed;
    var mem1 := mem[f := ZERO_FRAME];
    assert f != root;
    ReplaceUnused(mem, root, used, f, ZERO_FRAME);
    InstallTable(mem1, root, used, d, f);
    var mem' := Poke(mem1, root, d, Installed(mem[root][d], f * PAGE));
    forall q | 0 <= q < 0x10_0000 ensures Walk(mem', root, q) == Walk(mem, root, q) {
      if q / 1024 == d { assert Walk(mem, root, q) == None; }
    }
    forall g: nat | Structural(mem', root, g) ensures g == f || Structural(mem, root, g) {
      if g != root && g != f {
        var i :| 0 <= i < 1024 && Present(mem'[root][i]) && FrameOf(mem'[root][i]) == g;
        assert i != d && mem'[root][i] == mem[root][i];
      }
    }
    assert Structural(mem, root, root);
  }

  /** An unused frame can be rewritten at will. */
  lemma ReplaceUnused(mem: seq<Frame>, root: nat, used: set<nat>, f: nat, t: Frame)
    requires Structure(mem, root, used) && f < |mem| && f !in used
    ensures Structure(mem[f := t], root, used)
    ensures forall q | 0 <= q < 0x10_0000 :: Walk(mem[f := t], root, q) == Walk(mem, root, q)
  {
  }

  /** The words of a frame seen through its window. */
  lemma WindowWord(mem: seq<Frame>, root: nat, f: nat, i: nat)
    requires Window(mem, root, f) && i < 1024
    ensures var v := P2V(f * PAGE) + 4 * i;
            && v < 0x1_0000_0000 && v % 4 == 0
            && Translate(mem, root, v) == Some(f * PAGE + 4 * i)
            && (f * PAGE + 4 * i) / PAGE == f && (f * PAGE + 4 * i) % PAGE / 4 == i
  {
    var v := P2V(f * PAGE) + 4 * i;
    assert P2V(f * PAGE) == f * PAGE + 0xC000_0000;
    assert v / 0x1000 == WindowPage(f) && v % 0x1000 == 4 * i;
  }

  /** A page without a table is nobody's window, so the new table's own window is spared too. */
  lemma NewTableSparesWindows(mem: seq<Frame>, mem1: seq<Frame>, root: nat, page: nat, f: nat, g: nat)
    requires root < |mem| == |mem1| && page < 0x10_0000
    requires SparesWindows(mem, root, page, f) && !Present(mem[root][page / 1024]) && Window(mem, root, g)
    requires forall h: nat | Structural(mem1, root, h) :: h == g || Structural(mem, root, h)
    ensures SparesWindows(mem1, root, page, f)
  {
    hide Structural;
    assert page != WindowPage(g);
  }

  /** Adding a table first and the page then is one page mapped. */
  lemma TableThenPage(mem: seq<Frame>, mem1: seq<Frame>, mem2: seq<Frame>, root: nat, page: nat, g: nat, f: Option<nat>)
    requires root < |mem| == |mem1| == |mem2| && page < 0x10_0000
    requires forall q | 0 <= q < 0x10_0000 :: Walk(mem1, root, q) == Walk(mem, root, q)
    requires SlotFilled(mem, mem1, root, page / 1024, Some(g)) && OthersKept(mem, mem1, root, Some(g))
    requires forall h: nat | Structural(mem1, root, h) :: h == g || Structural(mem, root, h)
    requires OnePageMapped(mem1, mem2, root, page, f)
    requires SlotFilled(mem1, mem2, root, page / 1024, None) && OthersKept(mem1, mem2, root, None)
    ensures OnePageMapped(mem, mem2, root, page, f)
    ensures SlotFilled(mem, mem2, root, page / 1024, Some(g)) && OthersKept(mem, mem2, root, Some(g))
  {
    hide Structural, Walk;
  }

  lemma StructureGrows(mem: seq<Frame>, root: nat, used: set<nat>, more: set<nat>)
    requires Structure(mem, root, used) && used <= more
    ensures Structure(mem, root, more)
  {
  }

  /** Marking a frame as unused keeps the structure exactly when it is neither the directory nor a table. */
  lemma StructureShrinks(mem: seq<Frame>, root: nat, used: set<nat>, f: nat)
    requires Structure(mem, root, used)
    ensures Structure(mem, root, used - {f}) <==> !Structural(mem, root, f)
  {
  }

  // ----- the effect of vmmngr_free_page on the tables

  /** Replacing one table entry by a clean one. */
  lemma ReplaceEntry(mem: seq<Frame>, root: nat, used: set<nat>, page: nat, e: u32)
    requires Structure(mem, root, used) && page < 0x10_0000 && Present(mem[root][page / 1024]) && e < HALF
    ensures var t, k := FrameOf(mem[root][page / 1024]), page % 1024;
            var mem' := Poke(mem, t, k, e);
            && Structure(mem', root, used)
            && mem'[root] == mem[root]
            && OnePageMapped(mem, mem', root, page, if Present(e) then Some(FrameOf(e)) else None)
  {
    var d, k := page / 1024, page % 1024;
    var t := FrameOf(mem[root][d]);
    var mem' := Poke(mem, t, k, e);
    assert mem'[t] == mem[t][k := e] && Clean(mem'[t]);
    PageParts(page, d, k);
    forall j | 0 <= j < 1024 && Present(mem[root][j]) && j != d
      ensures mem'[FrameOf(mem[root][j])] == mem[FrameOf(mem[root][j])]
    {
    }
  }

  /** Clearing the present bit of one entry takes exactly that page out of the translation; the kernel still reaches
      its directory and tables exactly when the page is not the window of one of them. */
  lemma UnmapPage(mem: seq<Frame>, root: nat, used: set<nat>, page: nat)
    requires Structure(mem, root, used) && Reachable(mem, root) && page < 0x10_0000 && Present(mem[root][page / 1024])
    ensures var t, k := FrameOf(mem[root][page / 1024]), page % 1024;
            var mem' := Poke(mem, t, k, DelAttrib(mem[t][k], PRESENT));
            && Window(mem, root, t)
            && Structure(mem', root, used)
            && (Reachable(mem', root) <==> forall g: nat | Structural(mem, root, g) :: page != WindowPage(g))
            && mem'[root] == mem[root]
            && OnePageMapped(mem, mem', root, page, None)
            && OthersKept(mem, mem', root, None)
  {
    assert root < |mem|;
    hide DelAttrib, Walk, Structure;
    var t, k := FrameOf(mem[root][page / 1024]), page % 1024;
    TableIsStructural(mem, root, used, page / 1024);
    EntryIsClean(mem, root, used, page);
    DelPresent(mem[t][k]);
    ReplaceEntry(mem, root, used, page, DelAttrib(mem[t][k], PRESENT));
    var mem' := Poke(mem, t, k, DelAttrib(mem[t][k], PRESENT));
    WindowsAfter(mem, mem', root, page, None);
  }

  /** Unmapping a page whose frame is marked unused, unless it is frame 0: the tables stay usable exactly when the page
      was no window of theirs and its frame held none of them. */
  lemma ReleasePage(mem: seq<Frame>, root: nat, used: set<nat>, page: nat)
    requires Structure(mem, root, used) && Reachable(mem, root) && page < 0x10_0000 && Present(mem[root][page / 1024])
    ensures var t, k := FrameOf(mem[root][page / 1024]), page % 1024;
            var mem' := Poke(mem, t, k, DelAttrib(mem[t][k], PRESENT));
            var f := FrameOf(mem[t][k]);
            && root < |mem| && mem'[root] == mem[root]
            && OnePageMapped(mem, mem', root, page, None)
            && OthersKept(mem, mem', root, None)
            && (Structure(mem', root, if f == 0 then used else used - {f}) && Reachable(mem', root) <==>
                  && (forall g: nat | Structural(mem, root, g) :: page != WindowPage(g))
                  && (f != 0 ==> !Structural(mem, root, f)))
  {
    assert root < |mem|;
    UnmapPage(mem, root, used, page);
    hide DelAttrib, Walk, Structure, Reachable, Structural, OnePageMapped, OthersKept;
    var t, k := FrameOf(mem[root][page / 1024]), page % 1024;
    var mem' := Poke(mem, t, k, DelAttrib(mem[t][k], PRESENT));
    StructureShrinks(mem', root, used, FrameOf(mem[t][k]));
    SameStructural(mem, mem', root, FrameOf(mem[t][k]));
  }

  lemma SameStructural(mem: seq<Frame>, mem': seq<Frame>, root: nat, f: nat)
    requires root < |mem| == |mem'| && mem'[root] == mem[root]
    ensures Structural(mem', root, f) <==> Structural(mem, root, f)
  {
  }

  lemma EntryIsClean(mem: seq<Frame>, root: nat, used: set<nat>, page: nat)
    requires Structure(mem, root, used) && page < 0x10_0000 && Present(mem[root][page / 1024])
    ensures FrameOf(mem[root][page / 1024]) < |mem|
    ensures mem[FrameOf(mem[root][page / 1024])][page % 1024] < HALF
  {
  }
}
