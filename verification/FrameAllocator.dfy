/** The physical frame allocator of mm/memory.c: a bitmap of 32-bit words, scanned first-fit. */
module FrameAllocator {
  import opened Bits

  const BLOCK_SIZE: nat := 4096
  const WORD: nat := 0x1_0000_0000

  /** n frames in a row. */
  function Range(first: nat, n: nat): (r: set<nat>)
    ensures forall f: nat :: f in r <==> first <= f < first + n
  {
    if n == 0 then {} else Range(first, n - 1) + {first + n - 1}
  }

  /** What the bitmap and its counter say: the frames marked used, out of `capacity` bits. */
  datatype Frames = Frames(used: set<nat>, capacity: nat, maxBlocks: nat, usedBlocks: u32)

  function Mask(j: nat): bv32
    requires j < 32
  {
    1 << j
  }

  function Masked(w: bv32, j: nat): bv32
    requires j < 32
  {
    w & Mask(j)
  }

  predicate BitSet(w: bv32, j: nat)
    requires j < 32
  {
    Masked(w, j) != 0
  }

  function Set(w: bv32, j: nat): bv32
    requires j < 32
  {
    w | Mask(j)
  }

  function Cleared(w: bv32, j: nat): bv32
    requires j < 32
  {
    w & !Mask(j)
  }

  /** `mmap_test`. */
  predicate Marked(words: seq<bv32>, frame: nat)
    requires frame < 32 * |words|
  {
    BitSet(words[frame / 32], frame % 32)
  }

  function UsedFrames(words: seq<bv32>): (r: set<nat>)
    ensures forall f | f in r :: f < 32 * |words|
  {
    set f: nat | f < 32 * |words| && Marked(words, f)
  }

  const BITS: seq<bv32> := [
    0x1, 0x2, 0x4, 0x8, 0x10, 0x20, 0x40, 0x80, 0x100, 0x200, 0x400, 0x800, 0x1000, 0x2000, 0x4000, 0x8000,
    0x1_0000, 0x2_0000, 0x4_0000, 0x8_0000, 0x10_0000, 0x20_0000, 0x40_0000, 0x80_0000,
    0x100_0000, 0x200_0000, 0x400_0000, 0x800_0000, 0x1000_0000, 0x2000_0000, 0x4000_0000, 0x8000_0000]

  lemma MaskIs(j: nat)
    requires j < 32
    ensures Mask(j) == BITS[j]
  {
    Masks0(j);
    Masks8(j);
    Masks16(j);
    Masks24(j);
    Masks28(j);
    hide Mask;
  }

  lemma Masks0(j: nat)
    ensures j < 8 ==> Mask(j) == BITS[j]
  {
  }

  lemma Masks8(j: nat)
    ensures 8 <= j < 16 ==> Mask(j) == BITS[j]
  {
  }

  lemma Masks16(j: nat)
    ensures 16 <= j < 24 ==> Mask(j) == BITS[j]
  {
  }

  lemma Masks24(j: nat)
    ensures 24 <= j < 28 ==> Mask(j) == BITS[j]
  {
  }

  lemma Masks28(j: nat)
    ensures 28 <= j < 32 ==> Mask(j) == BITS[j]
  {
  }

  /** A frame is marked when its bit of its bitmap word is set, 32 frames to a word and the lowest bit first. */
  lemma UsedIff(words: seq<bv32>, i: nat, j: nat)
    requires i < |words| && j < 32
    ensures 32 * i + j in UsedFrames(words) <==> words[i] & BITS[j] != 0
  {
    UsedIsMarked(words, i, j);
    BitIs(words[i], j);
    hide UsedFrames, BitSet;
  }

  lemma UsedIsMarked(words: seq<bv32>, i: nat, j: nat)
    requires i < |words| && j < 32
    ensures 32 * i + j in UsedFrames(words) <==> BitSet(words[i], j)
  {
    hide BitSet;
    assert (32 * i + j) / 32 == i && (32 * i + j) % 32 == j;
  }

  lemma BitIs(w: bv32, j: nat)
    requires j < 32
    ensures BitSet(w, j) <==> w & BITS[j] != 0
  {
    MaskIs(j);
    hide Mask;
  }

  /** `mmap_set` and `mmap_unset`. */
  function WithBit(words: seq<bv32>, frame: nat, on: bool): (r: seq<bv32>)
    requires frame < 32 * |words|
    ensures |r| == |words|
  {
    var i, j := frame / 32, frame % 32;
    words[i := if on then Set(words[i], j) else Cleared(words[i], j)]
  }

  lemma SetOthers(w: bv32, j: nat, k: nat)
    requires j < 32 && k < 32 && j != k
    ensures Masked(Set(w, j), k) == Masked(w, k)
  {
  }

  lemma ClearOthers(w: bv32, j: nat, k: nat)
    requires j < 32 && k < 32 && j != k
    ensures Masked(Cleared(w, j), k) == Masked(w, k)
  {
  }

  lemma SetSame(w: bv32, j: nat)
    requires j < 32
    ensures Masked(Set(w, j), j) != 0
  {
  }

  lemma ClearSame(w: bv32, j: nat)
    requires j < 32
    ensures Masked(Cleared(w, j), j) == 0
  {
  }

  /** Setting or clearing one bit adds or removes exactly that frame. */
  lemma OneFrameChanges(words: seq<bv32>, frame: nat, on: bool)
    requires frame < 32 * |words|
    ensures UsedFrames(WithBit(words, frame, on))
         == if on then UsedFrames(words) + {frame} else UsedFrames(words) - {frame}
  {
    hide BitSet, Marked, WithBit;
    forall g: nat | g < 32 * |words|
      ensures Marked(WithBit(words, frame, on), g) <==>
              if on then g == frame || Marked(words, g) else g != frame && Marked(words, g)
    {
      OneBitChanges(words, frame, on, g);
    }
  }

  lemma OneBitChanges(words: seq<bv32>, frame: nat, on: bool, g: nat)
    requires frame < 32 * |words| && g < 32 * |words|
    ensures Marked(WithBit(words, frame, on), g) <==>
            if on then g == frame || Marked(words, g) else g != frame && Marked(words, g)
  {
    hide Masked, Set, Cleared;
    var w, j, k := words[frame / 32], frame % 32, g % 32;
    if g == frame {
      SetSame(w, j);
      ClearSame(w, j);
    } else if g / 32 == frame / 32 {
      assert j != k;
      SetOthers(w, j, k);
      ClearOthers(w, j, k);
    }
  }

  /** First-fit: the least unmarked frame from f on, below the last whole word of the managed range. */
  function FirstFreeFrom(a: Frames, f: nat): (r: int)
    ensures r == -1 || f <= r
    decreases ScanLimit(a) - f
  {
    if f >= ScanLimit(a) then -1 else if f !in a.used then f else FirstFreeFrom(a, f + 1)
  }

  function ScanLimit(a: Frames): nat { a.maxBlocks / 32 * 32 }

  function FirstFree(a: Frames): int { FirstFreeFrom(a, 0) }

  lemma {:induction false} FirstFreeIsLeast(a: Frames, f: nat)
    ensures var r := FirstFreeFrom(a, f);
            && (r == -1 ==> forall g: nat | f <= g < ScanLimit(a) :: g in a.used)
            && (r != -1 ==> r < ScanLimit(a) && r !in a.used && forall g: nat | f <= g < r :: g in a.used)
    ensures forall g: nat :: g < ScanLimit(a) <==> g / 32 < a.maxBlocks / 32
    decreases ScanLimit(a) - f
  {
    if f < ScanLimit(a) && f in a.used {
      FirstFreeIsLeast(a, f + 1);
    }
  }

  /** `alloc_memory_block`: the address handed out, 0 standing for none, and what is marked afterwards. */
  function Alloc(a: Frames): (r: (u32, Frames))
    requires a.maxBlocks < 0x10_0000
  {
    if (a.maxBlocks - a.usedBlocks) % WORD == 0 then (0, a)
    else
      var f := FirstFree(a);
      FirstFreeIsLeast(a, 0);
      if f == -1 then (0, a)
      else (f * BLOCK_SIZE, a.(used := a.used + {f}, usedBlocks := (a.usedBlocks + 1) % WORD))
  }

  /** `free_memory_block`. */
  function Free(a: Frames, p: u32): Frames {
    a.(used := a.used - {p / BLOCK_SIZE}, usedBlocks := (a.usedBlocks - 1) % WORD)
  }

  predicate Fits(a: Frames) {
    && a.maxBlocks < 0x10_0000
    && a.maxBlocks <= a.capacity
    && forall f | f in a.used :: f < a.capacity
  }

  class Allocator {
    const bitmap: array<bv32>
    var maxBlocks: u32
    var usedBlocks: u32

    ghost predicate Valid()
      reads this, bitmap
    {
      Fits(State()) && bitmap.Length * 32 <= WORD
    }

    ghost function State(): Frames
      reads this, bitmap
    {
      Frames(UsedFrames(bitmap[..]), 32 * bitmap.Length, maxBlocks, usedBlocks)
    }

    constructor (words: nat)
      requires words * 32 <= WORD
      ensures fresh(bitmap) && bitmap.Length == words && maxBlocks == 0
    {
      bitmap := new bv32[words];
      maxBlocks, usedBlocks := 0, 0;
    }

    /** Manage `size` KB: the counter says every block is in use, but the fill byte 0x0f marks only the
        low four frames of each eight. */
    method InitMemMngr(size: u32)
      requires size * 1024 % WORD / BLOCK_SIZE <= 32 * bitmap.Length && bitmap.Length * 32 <= WORD
      modifies this, bitmap
      ensures Valid()
      ensures maxBlocks == usedBlocks == size * 1024 % WORD / BLOCK_SIZE
      ensures Filled(UsedFrames(old(bitmap[..])), State().used, maxBlocks / 8, 32 * bitmap.Length)
      ensures maxBlocks == size * 1024 % 0x1_0000_0000 / 4096
      ensures forall f: nat | f < 32 * bitmap.Length ::
                f in State().used <==> if f / 8 < maxBlocks / 8 then f % 8 < 4 else f in UsedFrames(old(bitmap[..]))
    {
      hide UsedFrames;
      FilledNone(UsedFrames(bitmap[..]), 32 * bitmap.Length);
      maxBlocks := size * 1024 % WORD / BLOCK_SIZE;
      usedBlocks := maxBlocks;
      var b := 0;
      while b < maxBlocks / 8
        invariant 0 <= b <= maxBlocks / 8
        invariant maxBlocks == usedBlocks == size * 1024 % WORD / BLOCK_SIZE
        invariant Filled(UsedFrames(old(bitmap[..])), UsedFrames(bitmap[..]), b, 32 * bitmap.Length)
      {
        FilledStep(UsedFrames(old(bitmap[..])), UsedFrames(bitmap[..]), b, 32 * bitmap.Length);
        FillByte(b);
        b := b + 1;
      }
    }

    /** One turn of `memset` with 0x0f: the eight frames of one bitmap byte. */
    method FillByte(b: nat)
      requires 8 * b + 8 <= 32 * bitmap.Length
      modifies bitmap
      ensures UsedFrames(bitmap[..]) ==
              UsedFrames(old(bitmap[..])) + Range(8 * b, 4) - Range(8 * b + 4, 4)
    {
      hide UsedFrames;
      MmapSet(8 * b);
      MmapSet(8 * b + 1);
      MmapSet(8 * b + 2);
      MmapSet(8 * b + 3);
      MmapUnset(8 * b + 4);
      MmapUnset(8 * b + 5);
      MmapUnset(8 * b + 6);
      MmapUnset(8 * b + 7);
    }

    /** Release a region: one frame more than the region has whole blocks, then take frame 0 back. */
    method InitMemoryRegion(base: u32, size: u32)
      requires Valid() && base / BLOCK_SIZE + size / BLOCK_SIZE < 32 * bitmap.Length
      modifies this, bitmap
      ensures Valid()
      ensures var first, n := base / BLOCK_SIZE, size / BLOCK_SIZE + 1;
              State() == old(State()).(
                used := old(State()).used - Range(first, n) + {0},
                usedBlocks := (old(usedBlocks) - n) % WORD)
      ensures forall f: nat ::
                f in State().used <==>
                f == 0 || (f in old(State().used) && !(base / 4096 <= f <= base / 4096 + size / 4096))
      ensures usedBlocks == (old(usedBlocks) - (size / 4096 + 1)) % 0x1_0000_0000
    {
      hide UsedFrames;
      var align := base / BLOCK_SIZE;
      var blocks := size / BLOCK_SIZE;
      ghost var first, last, before := align, align + blocks, old(State()).used;
      while blocks >= 0
        invariant -1 <= blocks && align + blocks == last && first <= align
        invariant maxBlocks == old(maxBlocks)
        invariant UsedFrames(bitmap[..]) == before - Range(first, align - first)
        invariant usedBlocks == (old(usedBlocks) - (align - first)) % WORD
        decreases blocks
      {
        MmapUnset(align);
        assert Range(first, align + 1 - first) == Range(first, align - first) + {align};
        align := align + 1;
        CountDown(old(usedBlocks), align - 1 - first);
        usedBlocks := (usedBlocks - 1) % WORD;
        blocks := blocks - 1;
      }
      MmapSet(0);
    }

    method MmapSet(bit: nat)
      requires bit < 32 * bitmap.Length
      modifies bitmap
      ensures UsedFrames(bitmap[..]) == UsedFrames(old(bitmap[..])) + {bit}
    {
      hide BitSet, UsedFrames, Set, Cleared;
      OneFrameChanges(bitmap[..], bit, true);
      bitmap[bit / 32] := Set(bitmap[bit / 32], bit % 32);
      assert bitmap[..] == WithBit(old(bitmap[..]), bit, true);
    }

    method MmapUnset(bit: nat)
      requires bit < 32 * bitmap.Length
      modifies bitmap
      ensures UsedFrames(bitmap[..]) == UsedFrames(old(bitmap[..])) - {bit}
    {
      hide BitSet, UsedFrames, Set, Cleared;
      OneFrameChanges(bitmap[..], bit, false);
      bitmap[bit / 32] := Cleared(bitmap[bit / 32], bit % 32);
      assert bitmap[..] == WithBit(old(bitmap[..]), bit, false);
    }

    method MmapFirstFree() returns (frame: int)
      requires Valid()
      ensures frame == FirstFree(State())
      ensures frame == -1 <==> forall f: nat | f / 32 < maxBlocks / 32 :: f in State().used
      ensures frame != -1 ==>
                && 0 <= frame && frame / 32 < maxBlocks / 32 && frame !in State().used
                && forall g: nat | g < frame :: g in State().used
    {
      hide UsedFrames, FirstFreeFrom, ScanLimit;
      frame := ScanWords();
      FirstFreeIsLeast(State(), 0);
    }

    /** The two loops of `mmap_first_free`. */
    method ScanWords() returns (frame: int)
      requires Valid()
      ensures frame == FirstFree(State())
    {
      hide UsedFrames, FirstFreeFrom, Mask;
      var i: nat := 0;
      while i < maxBlocks / 32
        invariant 0 <= i <= maxBlocks / 32
        invariant FirstFree(State()) == FirstFreeFrom(State(), 32 * i)
      {
        if bitmap[i] != 0xffff_ffff {
          var j := 0;
          while j < 32
            invariant 0 <= j <= 32
            invariant FirstFree(State()) == FirstFreeFrom(State(), 32 * i + j)
          {
            ScanStep(bitmap[..], i, j, State());
            var bit := Mask(j);
            if bitmap[i] & bit == 0 {
              return i * 4 * 8 + j;
            }
            j := j + 1;
          }
        } else {
          FullWordFrom(bitmap[..], i, State(), 0);
        }
        i := i + 1;
      }
      ScanEnds(State(), 32 * i);
      return -1;
    }

    method AllocMemoryBlock() returns (p: u32)
      requires Valid()
      modifies this, bitmap
      ensures Valid() && (p, State()) == Alloc(old(State()))
    {
      hide UsedFrames, FirstFreeFrom;
      if (maxBlocks - usedBlocks) % WORD == 0 {
        return 0;
      }
      var frame := MmapFirstFree();
      FirstFreeIsLeast(State(), 0);
      if frame == -1 {
        return 0;
      }
      MmapSet(frame);
      p := frame * BLOCK_SIZE % WORD;
      usedBlocks := (usedBlocks + 1) % WORD;
    }

    method FreeMemoryBlock(p: u32)
      requires Valid() && p / BLOCK_SIZE < 32 * bitmap.Length
      modifies this, bitmap
      ensures Valid() && State() == Free(old(State()), p)
      ensures State().used == old(State().used) - {p / 4096}
      ensures usedBlocks == (old(usedBlocks) - 1) % 0x1_0000_0000
    {
      MmapUnset(p / BLOCK_SIZE);
      usedBlocks := (usedBlocks - 1) % WORD;
    }
  }

  /** Looking at bit j of word i decides whether the scan stops there. */
  lemma ScanStep(words: seq<bv32>, i: nat, j: nat, a: Frames)
    requires i < |words| && j < 32 && a.used == UsedFrames(words) && 32 * i + 32 <= ScanLimit(a)
    ensures FirstFreeFrom(a, 32 * i + j) == if BitSet(words[i], j) then FirstFreeFrom(a, 32 * i + j + 1) else 32 * i + j
  {
    hide BitSet;
    assert (32 * i + j) / 32 == i && (32 * i + j) % 32 == j;
  }

  lemma ScanEnds(a: Frames, f: nat)
    requires f >= ScanLimit(a)
    ensures FirstFreeFrom(a, f) == -1
  {
  }

  /** A word of all ones is skipped whole. */
  lemma {:induction false} FullWordFrom(words: seq<bv32>, i: nat, a: Frames, j: nat)
    requires i < |words| && words[i] == 0xffff_ffff && a.used == UsedFrames(words)
    requires 32 * i + 32 <= ScanLimit(a) && j <= 32
    ensures FirstFreeFrom(a, 32 * i + j) == FirstFreeFrom(a, 32 * i + 32)
    decreases 32 - j
  {
    hide UsedFrames, FirstFreeFrom, ScanLimit;
    if j < 32 {
      ScanStep(words, i, j, a);
      AllOnes(j);
      FullWordFrom(words, i, a, j + 1);
    }
  }

  lemma AllOnes(j: nat)
    requires j < 32
    ensures BitSet(0xffff_ffff, j)
  {
  }

  /** The first `bytes` bitmap bytes read 0x0f and the rest are as before. */
  ghost predicate Filled(before: set<nat>, after: set<nat>, bytes: nat, capacity: nat) {
    forall f: nat | f < capacity :: f in after <==> if f / 8 < bytes then f % 8 < 4 else f in before
  }

  lemma FilledNone(before: set<nat>, capacity: nat)
    ensures Filled(before, before, 0, capacity)
  {
  }

  lemma FilledStep(before: set<nat>, after: set<nat>, bytes: nat, capacity: nat)
    requires Filled(before, after, bytes, capacity)
    ensures Filled(before, after + Range(8 * bytes, 4) - Range(8 * bytes + 4, 4), bytes + 1, capacity)
  {
    forall f: nat | f < capacity
      ensures f / 8 == bytes <==> f in Range(8 * bytes, 4) + Range(8 * bytes + 4, 4)
      ensures f / 8 == bytes ==> (f % 8 < 4 <==> f in Range(8 * bytes, 4))
    {
    }
  }

  lemma CountDown(start: u32, n: nat)
    ensures ((start - n) % WORD - 1) % WORD == (start - (n + 1)) % WORD
  {
  }

  // ----- runs

  /** The counter's distance from the number of marked frames. */
  function Drift(a: Frames): u32 { (a.usedBlocks - |a.used|) % WORD }

  /** Live frames are marked, and frame 0 is marked but never live. */
  predicate Sound(a: Frames, live: set<nat>) {
    Fits(a) && 0 in a.used && live <= a.used && 0 !in live
  }

  datatype MemOp = AllocOp | FreeOp(p: u32)

  function After(a: Frames, op: MemOp): Frames
    requires a.maxBlocks < 0x10_0000
  {
    match op
    case AllocOp => Alloc(a).1
    case FreeOp(p) => Free(a, p)
  }

  function LiveAfter(a: Frames, live: set<nat>, op: MemOp): set<nat>
    requires a.maxBlocks < 0x10_0000
  {
    match op
    case AllocOp => if Alloc(a).0 == 0 then live else live + {Alloc(a).0 / BLOCK_SIZE}
    case FreeOp(p) => live - {p / BLOCK_SIZE}
  }

  /** Only live frames are freed. */
  predicate Allowed(live: set<nat>, op: MemOp) { op.FreeOp? ==> op.p / BLOCK_SIZE in live }

  /** First fit over the whole words of the managed range: if the counter does not say full and one of their frames is
      unmarked, the least such frame is handed out, marked and counted; otherwise nothing happens. */
  lemma AllocMeans(a: Frames)
    requires Fits(a)
    ensures var (p, a') := Alloc(a);
            if (a.maxBlocks - a.usedBlocks) % 0x1_0000_0000 != 0
               && exists f: nat :: f / 32 < a.maxBlocks / 32 && f !in a.used
            then
              && p % 4096 == 0 && p / 4096 / 32 < a.maxBlocks / 32 && p / 4096 !in a.used
              && (forall g: nat | g < p / 4096 :: g in a.used)
              && a' == a.(used := a.used + {p / 4096}, usedBlocks := (a.usedBlocks + 1) % 0x1_0000_0000)
            else p == 0 && a' == a
  {
    hide FirstFreeFrom, ScanLimit;
    FirstFreeIsLeast(a, 0);
    if (a.maxBlocks - a.usedBlocks) % 0x1_0000_0000 != 0 && FirstFree(a) != -1 {
      var f: nat := FirstFree(a);
      assert f / 32 < a.maxBlocks / 32 && f !in a.used;
      assert f * 4096 / 4096 == f && f * 4096 % 4096 == 0;
    }
  }

  /** With frame 0 marked, a null result means the counter says full or no scanned frame is free. */
  lemma AllocFailsIff(a: Frames)
    requires Fits(a) && 0 in a.used
    ensures Alloc(a).0 == 0 <==>
            || (a.maxBlocks - a.usedBlocks) % 0x1_0000_0000 == 0
            || forall f: nat | f / 32 < a.maxBlocks / 32 :: f in a.used
    ensures Alloc(a).0 == 0 ==> Alloc(a).1 == a
  {
    AllocMeans(a);
    hide Alloc;
  }

  /** One allocation hands out the least free frame, which is neither live nor frame 0. */
  lemma AllocIsFresh(a: Frames, live: set<nat>)
    requires Sound(a, live) && Alloc(a).0 != 0
    ensures var (p, a') := Alloc(a);
            var f := p / BLOCK_SIZE;
            && p == f * BLOCK_SIZE && 0 < f < ScanLimit(a) && f / 32 < a.maxBlocks / 32
            && f !in a.used && f !in live
            && (forall g: nat | g < f :: g in a.used)
            && a' == a.(used := a.used + {f}, usedBlocks := (a.usedBlocks + 1) % WORD)
  {
    hide FirstFreeFrom;
    FirstFreeIsLeast(a, 0);
  }

  lemma StepSound(a: Frames, live: set<nat>, op: MemOp)
    requires Sound(a, live) && Allowed(live, op)
    ensures Sound(After(a, op), LiveAfter(a, live, op))
    ensures Drift(After(a, op)) == Drift(a)
  {
    hide FirstFreeFrom, Alloc, Drift;
    match op
    case AllocOp =>
      if Alloc(a).0 == 0 {
        AllocFailsIff(a);
      } else {
        AllocIsFresh(a, live);
        MarkKeepsDrift(a, Alloc(a).0 / BLOCK_SIZE);
      }
    case FreeOp(p) =>
      FreeKeepsDriftIff(a, p);
  }

  lemma MarkKeepsDrift(a: Frames, f: nat)
    requires f !in a.used
    ensures Drift(a.(used := a.used + {f}, usedBlocks := (a.usedBlocks + 1) % WORD)) == Drift(a)
  {
    assert |a.used + {f}| == |a.used| + 1;
    DriftMoves(a.usedBlocks, |a.used|, 1);
  }

  lemma DriftMoves(count: u32, marked: nat, d: int)
    requires -1 <= d <= 1
    ensures ((count + d) % WORD - (marked + d)) % WORD == (count - marked) % WORD
  {
  }

  /** Freeing keeps the drift exactly when the frame was marked. */
  lemma FreeKeepsDriftIff(a: Frames, p: u32)
    ensures Drift(Free(a, p)) == Drift(a) <==> p / BLOCK_SIZE in a.used
  {
    if p / BLOCK_SIZE in a.used {
      assert |a.used - {p / BLOCK_SIZE}| == |a.used| - 1;
      DriftMoves(a.usedBlocks, |a.used|, -1);
    } else {
      assert a.used - {p / BLOCK_SIZE} == a.used;
      assert ((a.usedBlocks - 1) % WORD - |a.used|) % WORD != (a.usedBlocks - |a.used|) % WORD by {
        OneLess(a.usedBlocks, |a.used|);
      }
    }
  }

  lemma OneLess(count: u32, marked: nat)
    ensures ((count - 1) % WORD - marked) % WORD != (count - marked) % WORD
  {
    var x := (count - marked) % WORD;
    assert ((count - 1) % WORD - marked) % WORD == (x - 1) % WORD;
  }

  predicate AllowedRun(a: Frames, live: set<nat>, ops: seq<MemOp>)
    requires a.maxBlocks < 0x10_0000
    decreases |ops|
  {
    ops == [] ||
    (Allowed(live, ops[0]) && AllowedRun(After(a, ops[0]), LiveAfter(a, live, ops[0]), ops[1..]))
  }

  /** Every allocation of the run hands out nothing, or the address of a frame that is not live and not 0. */
  predicate FreshRun(a: Frames, live: set<nat>, ops: seq<MemOp>)
    requires a.maxBlocks < 0x10_0000
    decreases |ops|
  {
    ops == [] ||
    (var p := Alloc(a).0;
     && (ops[0] == AllocOp && p != 0 ==> p % BLOCK_SIZE == 0 && p / BLOCK_SIZE !in live + {0})
     && FreshRun(After(a, ops[0]), LiveAfter(a, live, ops[0]), ops[1..]))
  }

  function RunAll(a: Frames, ops: seq<MemOp>): (r: Frames)
    requires a.maxBlocks < 0x10_0000
    decreases |ops|
  {
    if ops == [] then a else RunAll(After(a, ops[0]), ops[1..])
  }

  /** Over any run of allocations and frees of live frames, no live frame is handed out again, frame 0
      never is, and the counter keeps its distance from the number of marked frames. */
  lemma {:induction false} RunIsFresh(a: Frames, live: set<nat>, ops: seq<MemOp>)
    requires Sound(a, live) && AllowedRun(a, live, ops)
    ensures FreshRun(a, live, ops)
    ensures Drift(RunAll(a, ops)) == Drift(a)
    decreases |ops|
  {
    hide Sound, After, Drift, FirstFreeFrom, Alloc, LiveAfter;
    if ops != [] {
      SoundFits(a, live);
      StepSound(a, live, ops[0]);
      if Alloc(a).0 != 0 {
        AllocIsFresh(a, live);
      }
      RunIsFresh(After(a, ops[0]), LiveAfter(a, live, ops[0]), ops[1..]);
    }
  }

  lemma SoundFits(a: Frames, live: set<nat>)
    requires Sound(a, live)
    ensures a.maxBlocks < 0x10_0000
    ensures forall op :: After(a, op).maxBlocks == a.maxBlocks
  {
  }

  /** The counter starts out as the number of marked managed frames only in a bitmap too small to be filled that was all
      marked before: the fill byte marks but half of every eight frames. */
  lemma CounterStartsRightIff(before: set<nat>, a: Frames)
    requires a.maxBlocks == a.usedBlocks && Fits(a)
    requires Filled(before, a.used, a.maxBlocks / 8, a.capacity)
    ensures |a.used * Range(0, a.maxBlocks)| == a.usedBlocks
       <==> a.maxBlocks < 8 && Range(0, a.maxBlocks) <= before
  {
    var n := a.maxBlocks;
    CountRange(n);
    FullSubset(a.used * Range(0, n), Range(0, n));
    if n >= 8 {
      FilledAt(before, a.used, n / 8, a.capacity, 4);
      assert 4 in Range(0, n) && 4 !in a.used;
    } else {
      forall f | f in Range(0, n) ensures f in a.used <==> f in before {
        FilledAt(before, a.used, n / 8, a.capacity, f);
      }
    }
  }

  /** A subset has as many elements as the set only if it is all of it. */
  lemma FullSubset<T>(a: set<T>, b: set<T>)
    requires a <= b
    ensures |a| == |b| <==> a == b
  {
    assert b == a + (b - a);
    assert |b| == |a| + |b - a|;
  }

  lemma FilledAt(before: set<nat>, after: set<nat>, bytes: nat, capacity: nat, f: nat)
    requires Filled(before, after, bytes, capacity) && f < capacity
    ensures f in after <==> if f / 8 < bytes then f % 8 < 4 else f in before
  {
  }

  lemma {:induction false} CountRange(n: nat)
    ensures |Range(0, n)| == n
  {
    if n > 0 {
      CountRange(n - 1);
    }
  }
}
