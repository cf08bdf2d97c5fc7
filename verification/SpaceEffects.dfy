/** What the operations of mm/paging.c do to memory, directory and allocator together. */
module SpaceEffects {
  import opened Bits
  import opened Options
  import opened AddressSpace
  import opened FrameAllocator

  /** Physical memory, the directory's frame and the allocator's state. */
  datatype Space = Space(mem: seq<Frame>, root: nat, a: Frames)

  /** If `vmmngr_alloc_page` gets a frame it is below 1 GB, and if a table is needed as well the next
      frame is one the kernel can clear. */
  ghost predicate AllocInReach(s: Space)
    requires s.root < |s.mem| && s.a.maxBlocks < 0x10_0000
  {
    var (p, a) := Alloc(s.a);
    p != 0 ==> p / PAGE < 0x4_0000 && TableInReach(s.(a := a), WindowPage(p / PAGE))
  }

  /** What `vmmngr_map_page` does: the page translates to frame f and every other page as before; a
      missing table is taken from the allocator; no frame but the tables is written. */
  ghost predicate PageMapped(s: Space, s': Space, page: nat, f: nat)
    requires s.root < |s.mem| == |s'.mem| && s.a.maxBlocks < 0x10_0000 && page < 0x10_0000
  {
    var (p, a) := Alloc(s.a);
    var needsTable := !Present(s.mem[s.root][page / 1024]);
    && s'.root == s.root
    && OnePageMapped(s.mem, s'.mem, s.root, page, Some(f))
    && s'.a == (if needsTable then a else s.a)
    && var table := if needsTable then Some(p / PAGE) else None;
       SlotFilled(s.mem, s'.mem, s.root, page / 1024, table) && OthersKept(s.mem, s'.mem, s.root, table)
  }

  /** If a table is needed, the next frame is one the kernel can clear. */
  ghost predicate TableInReach(s: Space, page: nat)
    requires s.root < |s.mem| && s.a.maxBlocks < 0x10_0000 && page < 0x10_0000
  {
    !Present(s.mem[s.root][page / 1024]) ==> Alloc(s.a).0 != 0 && Window(s.mem, s.root, Alloc(s.a).0 / PAGE)
  }

  /** What `vmmngr_alloc_page` does: nothing when no frame is left; otherwise the least free frame becomes
      used and is mapped at its window, and no other page's translation changes. */
  ghost predicate PageAllocated(s: Space, s': Space, virt: u32)
    requires s.root < |s.mem| == |s'.mem| && s.a.maxBlocks < 0x10_0000 && AllocInReach(s)
  {
    var (p, a) := Alloc(s.a);
    if p == 0 then virt == 0 && s' == s
    else virt == P2V(p) && PageMapped(s.(a := a), s', WindowPage(p / PAGE), p / PAGE)
  }

  /** The virtual address of a page's table entry. */
  function EntryAddress(s: Space, page: nat): nat
    requires s.root < |s.mem| && page < 0x10_0000
  {
    P2V(FrameOf(s.mem[s.root][page / 1024]) * PAGE) + 4 * (page % 1024)
  }

  /** The page has a table, and the frame in its entry is one of the bitmap's. */
  ghost predicate FreeInReach(s: Space, page: nat)
    requires s.root < |s.mem| && page < 0x10_0000
  {
    && Present(s.mem[s.root][page / 1024])
    && var t := FrameOf(s.mem[s.root][page / 1024]);
       t < |s.mem| && FrameOf(s.mem[t][page % 1024]) < s.a.capacity
  }

  /** The page is no window of the directory or a table, and neither of those is in the frame of its entry. */
  ghost predicate FreeSparesTables(s: Space, page: nat)
    requires s.root < |s.mem| && page < 0x10_0000 && FreeInReach(s, page)
  {
    && (forall g: nat | Structural(s.mem, s.root, g) :: page != WindowPage(g))
    && var f := FrameOf(s.mem[FrameOf(s.mem[s.root][page / 1024])][page % 1024]);
       f != 0 ==> !Structural(s.mem, s.root, f)
  }

  /** What `vmmngr_free_page` does: the frame of the entry is released, unless it is frame 0, and exactly that page is
      taken out of the translation. */
  ghost predicate PageFreed(s: Space, s': Space, page: nat)
    requires s.root < |s.mem| == |s'.mem| && page < 0x10_0000
    requires FreeInReach(s, page)
  {
    var f := FrameOf(s.mem[FrameOf(s.mem[s.root][page / 1024])][page % 1024]);
    && s'.root == s.root && s'.mem[s.root] == s.mem[s.root]
    && OnePageMapped(s.mem, s'.mem, s.root, page, None)
    && s'.a == (if f == 0 then s.a else Free(s.a, f * PAGE))
    && OthersKept(s.mem, s'.mem, s.root, None)
  }
}
