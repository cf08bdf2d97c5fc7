/** Runs of vmmngr_alloc_page and vmmngr_free_page, with page tables taken from the allocator on the way. */
module PagingRuns {
  import opened Bits
  import opened Options
  import opened AddressSpace
  import opened FrameAllocator
  import opened SpaceEffects
  import opened BootPaging
  import opened Paging

  /** What every method of the memory manager keeps. */
  ghost predicate Kept(s: Space) {
    && Fits(s.a) && 0 in s.a.used
    && Structure(s.mem, s.root, s.a.used) && Reachable(s.mem, s.root)
  }

  /** Live frames are data frames mapped at their windows, and all mappings are the direct one. */
  ghost predicate PagesSound(s: Space, live: set<nat>) {
    && Kept(s)
    && (forall f | f in live ::
          && 0 < f < 0x4_0000 && f in s.a.used && !Structural(s.mem, s.root, f)
          && Walk(s.mem, s.root, WindowPage(f)) == Some(f))
    && (forall q | 0 <= q < 0x10_0000 && Walk(s.mem, s.root, q).Some? :: q == WindowPage(Walk(s.mem, s.root, q).value))
  }

  /** The windows of all frames the allocator may hand out have their tables. */
  ghost predicate WindowsReady(s: Space) {
    && ScanLimit(s.a) <= 0x4_0000 && s.root < |s.mem|
    && forall f: nat | f < ScanLimit(s.a) :: Present(s.mem[s.root][WindowPage(f) / 1024])
  }

  datatype PageOp = Allocated(virt: u32) | Freed(f: nat)

  /** One call as the methods of Paging promise it; a freed page is a live one. */
  ghost predicate PageStep(s: Space, live: set<nat>, op: PageOp, s': Space, live': set<nat>) {
    && s.root < |s.mem| == |s'.mem| && Fits(s.a) && Kept(s')
    && match op
       case Allocated(virt) =>
         && AllocInReach(s) && PageAllocated(s, s', virt)
         && live' == if virt == 0 then live else live + {Alloc(s.a).0 / PAGE}
       case Freed(f) =>
         && f in live && f < 0x4_0000 && FreeInReach(s, WindowPage(f)) && PageFreed(s, s', WindowPage(f))
         && live' == live - {f}
  }

  // ----- single calls

  lemma WalkParts(s: Space, f: nat)
    requires s.root < |s.mem| && f < 0x4_0000 && Walk(s.mem, s.root, WindowPage(f)) == Some(f)
    ensures var q := WindowPage(f);
            && Present(s.mem[s.root][q / 1024])
            && FrameOf(s.mem[s.root][q / 1024]) < |s.mem|
            && FrameOf(s.mem[FrameOf(s.mem[s.root][q / 1024])][q % 1024]) == f
  {
  }

  /** Live pages can always be freed, and without harm to the tables. */
  lemma FreePossible(s: Space, live: set<nat>, f: nat)
    requires PagesSound(s, live) && f in live
    ensures f < 0x4_0000 && FreeInReach(s, WindowPage(f)) && FreeSparesTables(s, WindowPage(f))
  {
    hide Structure, Reachable, Structural;
    WalkParts(s, f);
  }

  /** When every window has its table, a page can always be allocated. */
  lemma AllocPossible(s: Space)
    requires Kept(s) && WindowsReady(s)
    ensures AllocInReach(s)
  {
    hide Structure, Reachable, Alloc;
    if Alloc(s.a).0 != 0 {
      AllocIsFresh(s.a, {});
    }
  }

  /** With one slot filled, the tables are the old ones and the new one. */
  lemma StructuralGrows(mem: seq<Frame>, mem': seq<Frame>, root: nat, d: nat, table: Option<nat>, g: nat)
    requires root < |mem| == |mem'| && d < 1024 && SlotFilled(mem, mem', root, d, table)
    requires Structural(mem', root, g)
    ensures Structural(mem, root, g) || table == Some(g)
  {
    if g != root {
      var i :| 0 <= i < 1024 && Present(mem'[root][i]) && FrameOf(mem'[root][i]) == g;
      if i != d || table == None {
        assert mem'[root][i] == mem[root][i];
      }
    }
  }

  lemma StructuralIsUsed(s: Space)
    requires Kept(s)
    ensures forall g: nat | Structural(s.mem, s.root, g) :: g in s.a.used
  {
  }

  /** The page handed out is in a frame that is neither live nor the directory nor a table, before and after. */
  lemma AllocStepSound(s: Space, live: set<nat>, virt: u32, s': Space, live': set<nat>)
    requires PagesSound(s, live) && PageStep(s, live, Allocated(virt), s', live')
    ensures PagesSound(s', live')
    ensures virt != 0 ==>
              var f := Alloc(s.a).0 / PAGE;
              virt == P2V(f * PAGE) && f !in live && !Structural(s.mem, s.root, f) && !Structural(s'.mem, s'.root, f)
  {
    hide Structure, Reachable, Alloc, Walk, Structural, SlotFilled, OthersKept;
    var (p, a) := Alloc(s.a);
    if p != 0 {
      var f, page := p / PAGE, WindowPage(p / PAGE);
      AllocIsFresh(s.a, {});
      StructuralIsUsed(s);
      var table := if Present(s.mem[s.root][page / 1024]) then None else Some(Alloc(a).0 / PAGE);
      TableIsFresh(s.(a := a), page);
      forall g: nat | Structural(s'.mem, s.root, g) ensures g !in live' {
        StructuralGrows(s.mem, s'.mem, s.root, page / 1024, table, g);
      }
      assert virt == P2V(f * PAGE) && virt != 0;
    }
  }

  /** The frame of a new table was not marked used. */
  lemma TableIsFresh(s: Space, page: nat)
    requires s.root < |s.mem| && Fits(s.a) && 0 in s.a.used && page < 0x10_0000 && TableInReach(s, page)
    ensures !Present(s.mem[s.root][page / 1024]) ==>
              && Alloc(s.a).0 / PAGE !in s.a.used
              && Alloc(s.a).1.used == s.a.used + {Alloc(s.a).0 / PAGE}
    ensures Alloc(s.a).1.maxBlocks == s.a.maxBlocks
  {
    hide Alloc, Window;
    if Alloc(s.a).0 != 0 {
      AllocIsFresh(s.a, {});
    } else {
      AllocFailsIff(s.a);
    }
  }

  lemma FreeStepSound(s: Space, live: set<nat>, f: nat, s': Space, live': set<nat>)
    requires PagesSound(s, live) && PageStep(s, live, Freed(f), s', live')
    ensures PagesSound(s', live')
    ensures Walk(s'.mem, s'.root, WindowPage(f)) == None && f !in s'.a.used
  {
    hide Structure, Reachable, Walk, OthersKept, FreeInReach, PageFreed, Structural;
    FreedEffect(s, f, s');
    SameDirectory(s.mem, s'.mem, s.root);
    assert OnePageMapped(s.mem, s'.mem, s.root, WindowPage(f), None);
  }

  lemma FreedEffect(s: Space, f: nat, s': Space)
    requires s.root < |s.mem| == |s'.mem| && 0 < f < 0x4_0000 && Walk(s.mem, s.root, WindowPage(f)) == Some(f)
    requires FreeInReach(s, WindowPage(f)) && PageFreed(s, s', WindowPage(f))
    ensures s'.root == s.root && s'.mem[s.root] == s.mem[s.root]
    ensures OnePageMapped(s.mem, s'.mem, s.root, WindowPage(f), None)
    ensures s'.a == s.a.(used := s.a.used - {f}, usedBlocks := s'.a.usedBlocks)
  {
    WalkParts(s, f);
    hide Walk, OnePageMapped, OthersKept, FreeInReach;
    assert f * PAGE / BLOCK_SIZE == f;
  }

  lemma SameDirectory(mem: seq<Frame>, mem': seq<Frame>, root: nat)
    requires root < |mem| == |mem'| && mem'[root] == mem[root]
    ensures forall g: nat :: Structural(mem', root, g) <==> Structural(mem, root, g)
  {
  }

  /** No call takes a table away. */
  lemma StaysReady(s: Space, live: set<nat>, op: PageOp, s': Space, live': set<nat>)
    requires PagesSound(s, live) && PageStep(s, live, op, s', live') && WindowsReady(s)
    ensures WindowsReady(s')
  {
    hide Structure, Reachable, Alloc, Walk, Structural, OthersKept;
    match op
    case Allocated(virt) =>
      if Alloc(s.a).0 != 0 {
        AllocIsFresh(s.a, {});
        TableIsFresh(s.(a := Alloc(s.a).1), WindowPage(Alloc(s.a).0 / PAGE));
      }
    case Freed(f) =>
      FreedEffect(s, f, s');
  }

  // ----- whole runs

  ghost predicate PageRun(states: seq<Space>, lives: seq<set<nat>>, ops: seq<PageOp>) {
    && |states| == |lives| == |ops| + 1
    && forall i | 0 <= i < |ops| :: PageStep(states[i], lives[i], ops[i], states[i + 1], lives[i + 1])
  }

  /** Over any run, at every moment the live pages are in distinct data frames mapped at their windows, none of those
      holds the directory or a table however many tables were added, no live frame is handed out again, and the mapping
      stays the direct one. */
  lemma {:induction false} RunStaysSound(states: seq<Space>, lives: seq<set<nat>>, ops: seq<PageOp>, n: nat)
    requires PageRun(states, lives, ops) && n <= |ops|
    requires PagesSound(states[0], lives[0])
    ensures PagesSound(states[n], lives[n])
    ensures WindowsReady(states[0]) ==> WindowsReady(states[n])
    ensures n < |ops| && ops[n].Allocated? && ops[n].virt != 0 ==>
              var f := Alloc(states[n].a).0 / PAGE;
              && ops[n].virt == P2V(f * PAGE) && f !in lives[n] && lives[n + 1] == lives[n] + {f}
              && !Structural(states[n].mem, states[n].root, f)
  {
    hide PagesSound, Alloc, Structural, Kept, PageAllocated, PageFreed, AllocInReach, FreeInReach, WindowsReady;
    if n > 0 {
      RunStaysSound(states, lives, ops, n - 1);
      if WindowsReady(states[n - 1]) {
        StaysReady(states[n - 1], lives[n - 1], ops[n - 1], states[n], lives[n]);
      }
      match ops[n - 1]
      case Allocated(virt) => AllocStepSound(states[n - 1], lives[n - 1], virt, states[n], lives[n]);
      case Freed(f) => FreeStepSound(states[n - 1], lives[n - 1], f, states[n], lives[n]);
    }
    if n < |ops| && ops[n].Allocated? {
      AllocStepSound(states[n], lives[n], ops[n].virt, states[n + 1], lives[n + 1]);
    }
  }

  /** The map that vmmngr_initialize leaves is one from which such runs start; when it covers all managed frames, every
      window has its table. */
  lemma InitialPagesSound(s: Space, n: nat)
    requires Kept(s) && Maps(s.mem, s.root, n, false) && n <= 0x4_0000
    ensures PagesSound(s, {})
    ensures ScanLimit(s.a) <= n ==> WindowsReady(s)
  {
    assert s.root < |s.mem|;
    hide Structure, Reachable;
    forall f: nat | f < n ensures Present(s.mem[s.root][WindowPage(f) / 1024]) {
      assert Walk(s.mem, s.root, WindowPage(f)) == DirectMap(WindowPage(f), n, false) == Some(f);
    }
    forall q | 0 <= q < 0x10_0000 && Walk(s.mem, s.root, q).Some?
      ensures q == WindowPage(Walk(s.mem, s.root, q).value)
    {
      assert Walk(s.mem, s.root, q) == DirectMap(q, n, false);
    }
  }

  // ----- the code's own runs

  lemma ValidIsKept(mmu: Mmu)
    requires mmu.Valid()
    ensures Kept(mmu.Now()) && mmu.cr3 < |mmu.mem|
  {
  }

  lemma AllocIsStep(s: Space, live: set<nat>, virt: u32, s': Space)
    requires s.root < |s.mem| == |s'.mem| && Fits(s.a) && Kept(s')
    requires AllocInReach(s) && PageAllocated(s, s', virt)
    ensures PageStep(s, live, Allocated(virt), s', if virt == 0 then live else live + {Alloc(s.a).0 / PAGE})
  {
    hide Kept, PageMapped, TableInReach, Alloc;
  }

  /** `vmmngr_alloc_page` takes such a step ... */
  method Take(mmu: Mmu, ghost live: set<nat>) returns (virt: u32, ghost live': set<nat>)
    requires mmu.Valid() && AllocInReach(mmu.Now())
    modifies mmu`mem, mmu.frames, mmu.frames.bitmap
    ensures mmu.Valid() && PageStep(old(mmu.Now()), live, Allocated(virt), mmu.Now(), live')
  {
    ValidIsKept(mmu);
    hide Walk, Structure, Reachable, AllocInReach, PageAllocated, Alloc, PageStep;
    ghost var s := mmu.Now();
    assert Fits(s.a);
    virt := mmu.AllocPage();
    ValidIsKept(mmu);
    hide Kept, Fits;
    AllocIsStep(s, live, virt, mmu.Now());
    live' := if virt == 0 then live else live + {Alloc(s.a).0 / PAGE};
  }

  /** ... and so does `vmmngr_free_page` on the entry of a live page. */
  method Give(mmu: Mmu, f: nat, ghost live: set<nat>) returns (ghost live': set<nat>)
    requires mmu.Valid() && PagesSound(mmu.Now(), live) && f in live
    modifies mmu`mem, mmu.frames, mmu.frames.bitmap
    ensures mmu.Valid() && PageStep(old(mmu.Now()), live, Freed(f), mmu.Now(), live')
  {
    ghost var s := mmu.Now();
    FreePossible(s, live, f);
    ValidIsKept(mmu);
    assert Fits(s.a) && Present(s.mem[s.root][WindowPage(f) / 1024]);
    hide Walk, Structure, Reachable, PagesSound, PageFreed, FreeSparesTables, FreeInReach, Translate, Accessible,
         EntryAddress, PageStep, Fits, Kept;
    var virt: u32 := P2V(f * PAGE);
    assert virt / PAGE == WindowPage(f);
    var e := mmu.LookupEntry(virt);
    mmu.FreePage(e, WindowPage(f));
    ValidIsKept(mmu);
    live' := live - {f};
    FreeIsStep(s, live, f, mmu.Now());
  }

  lemma FreeIsStep(s: Space, live: set<nat>, f: nat, s': Space)
    requires s.root < |s.mem| == |s'.mem| && Fits(s.a) && Kept(s')
    requires f in live && f < 0x4_0000 && FreeInReach(s, WindowPage(f)) && PageFreed(s, s', WindowPage(f))
    ensures PageStep(s, live, Freed(f), s', live - {f})
  {
    hide Kept, FreeInReach, PageFreed;
  }

  datatype Request = TakePage | GivePage(f: nat)

  /** The memory manager serving requests, with frees only of pages handed out before: when every window has its table
      it can serve them all, and what it does is a run as above. */
  method ServeAll(mmu: Mmu, requests: seq<Request>)
    returns (live: set<nat>, ghost states: seq<Space>, ghost lives: seq<set<nat>>, ghost ops: seq<PageOp>)
    requires mmu.Valid() && PagesSound(mmu.Now(), {}) && WindowsReady(mmu.Now())
    modifies mmu`mem, mmu.frames, mmu.frames.bitmap
    ensures mmu.Valid() && PagesSound(mmu.Now(), live)
    ensures PageRun(states, lives, ops) && states[0] == old(mmu.Now()) && lives[0] == {}
    ensures states[|ops|] == mmu.Now() && lives[|ops|] == live
  {
    hide PagesSound, WindowsReady, Kept, PageStep, Structure, Reachable, Walk;
    live, states, lives, ops := {}, [mmu.Now()], [{}], [];
    var i: nat := 0;
    while i < |requests|
      invariant i <= |requests|
      invariant mmu.Valid() && PagesSound(mmu.Now(), live) && WindowsReady(mmu.Now())
      invariant PageRun(states, lives, ops) && states[0] == old(mmu.Now()) && lives[0] == {}
      invariant states[|ops|] == mmu.Now() && lives[|ops|] == live
      decreases |requests| - i
    {
      ghost var s := mmu.Now();
      match requests[i] {
        case TakePage =>
          SoundIsKept(s, live);
          AllocPossible(s);
          ghost var live';
          var virt;
          virt, live' := Take(mmu, live);
          AllocStepSound(s, live, virt, mmu.Now(), live');
          StaysReady(s, live, Allocated(virt), mmu.Now(), live');
          RunGrows(states, lives, ops, Allocated(virt), mmu.Now(), live');
          states, lives, ops := states + [mmu.Now()], lives + [live'], ops + [Allocated(virt)];
          LiveAfterTake(s, live, virt, mmu.Now(), live');
          if virt != 0 { live := live + {virt / PAGE - 0xC_0000}; }
        case GivePage(f) =>
          if f in live {
            ghost var live' := Give(mmu, f, live);
            FreeStepSound(s, live, f, mmu.Now(), live');
            StaysReady(s, live, Freed(f), mmu.Now(), live');
            RunGrows(states, lives, ops, Freed(f), mmu.Now(), live');
            states, lives, ops := states + [mmu.Now()], lives + [live'], ops + [Freed(f)];
            LiveAfterGive(s, live, f, mmu.Now(), live');
            live := live - {f};
          }
      }
      i := i + 1;
    }
  }

  lemma SoundIsKept(s: Space, live: set<nat>)
    requires PagesSound(s, live)
    ensures Kept(s)
  {
  }

  lemma LiveAfterTake(s: Space, live: set<nat>, virt: u32, s': Space, live': set<nat>)
    requires PagesSound(s, live) && PageStep(s, live, Allocated(virt), s', live')
    ensures live' == if virt == 0 then live else live + {virt / PAGE - 0xC_0000}
    ensures virt != 0 ==> virt / PAGE >= 0xC_0000
  {
    hide Structure, Reachable, Walk, PageMapped, TableInReach, Alloc;
    var p := Alloc(s.a).0;
    if p != 0 {
      assert virt == p + 0xC000_0000;
    }
  }

  lemma LiveAfterGive(s: Space, live: set<nat>, f: nat, s': Space, live': set<nat>)
    requires PageStep(s, live, Freed(f), s', live')
    ensures live' == live - {f}
  {
  }

  lemma RunGrows(states: seq<Space>, lives: seq<set<nat>>, ops: seq<PageOp>, op: PageOp, s: Space, live: set<nat>)
    requires PageRun(states, lives, ops) && PageStep(states[|ops|], lives[|ops|], op, s, live)
    ensures PageRun(states + [s], lives + [live], ops + [op])
  {
    hide PageStep;
  }
}
