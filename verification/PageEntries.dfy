/** Page-table and page-directory entries (mm/vmmngr_pte.c, mm/vmmngr_pde.c) and the index macros of
    mm/paging.h, as the C bit operations and as what the hardware reads. */
module PageEntries {
  import opened Bits

  const PRESENT: u32 := 1
  const WRITABLE: u32 := 2
  const USER: u32 := 4
  const FRAME: u32 := 0x7FFF_F000
  const ALL_ONES: u32 := 0xFFFF_FFFF

  function AddAttrib(e: u32, attrib: u32): u32 {
    OrIsWord(e, attrib);
    Or(e, attrib)
  }

  function DelAttrib(e: u32, attrib: u32): u32 { And(e, ALL_ONES - attrib) }

  function SetFrame(e: u32, addr: u32): u32 {
    OrIsWord(And(e, ALL_ONES - FRAME), addr);
    Or(And(e, ALL_ONES - FRAME), addr)
  }

  predicate IsPresent(e: u32) { And(e, PRESENT) != 0 }

  /** `pt_entry_pfn`: bits 12 to 30 only. */
  function Pfn(e: u32): u32 { And(e, FRAME) }

  /** `PAGE_GET_PHYSICAL_ADDRESS`: all bits from 12 on. */
  function PhysicalAddress(e: u32): u32 { And(e, ALL_ONES - 0xFFF) }

  function DirectoryIndex(v: u32): (i: nat)
    ensures i < 1024
  {
    MaskTenBits(v / 0x40_0000);
    And(v / 0x40_0000, 0x3FF)
  }

  function TableIndex(v: u32): (i: nat)
    ensures i < 1024
  {
    MaskTenBits(v / 0x1000);
    And(v / 0x1000, 0x3FF)
  }

  /** What `vmmngr_map_page` leaves in an entry: the frame, then present, writable and user. */
  function Installed(e: u32, addr: u32): u32 {
    AddAttrib(AddAttrib(AddAttrib(SetFrame(e, addr), PRESENT), WRITABLE), USER)
  }

  lemma PowersOfTwo()
    ensures Pow2(1) == 2 && Pow2(10) == 0x400 && Pow2(12) == 0x1000
    ensures Pow2(19) == 0x8_0000 && Pow2(20) == 0x10_0000 && Pow2(32) == 0x1_0000_0000
  {
  }

  lemma MaskTenBits(x: nat)
    ensures And(x, 0x3FF) == x % 0x400
  {
    hide And;
    PowersOfTwo();
    AndLowMask(x, 10);
  }

  lemma {:induction false} OrBound(x: nat, y: nat, n: nat)
    requires x < Pow2(n) && y < Pow2(n)
    ensures Or(x, y) < Pow2(n)
  {
    hide Or;
    if n == 0 {
      OrZero();
    } else {
      OrStep(x, y);
      OrBound(x / 2, y / 2, n - 1);
    }
  }

  lemma OrZero()
    ensures Or(0, 0) == 0
  {
  }

  lemma OrIsWord(x: u32, y: u32)
    ensures Or(x, y) < 0x1_0000_0000
  {
    PowersOfTwo();
    OrBound(x, y, 32);
  }

  /** What an entry means: the present bit and the frame number. */
  lemma EntryMeaning(e: u32)
    ensures IsPresent(e) <==> e % 2 == 1
    ensures PhysicalAddress(e) == e - e % 0x1000
  {
    hide And;
    PowersOfTwo();
    AndLowMask(e, 1);
    AndHighMask(e, 12, 32);
  }

  /** `pt_entry_pfn` takes the bits from 12 to 30: the frame's address exactly when bit 31 is clear. */
  lemma PfnMeaning(e: u32)
    ensures Pfn(e) == e - e % 0x1000 <==> e < 0x8000_0000
  {
    hide And;
    PowersOfTwo();
    assert Pow2(31) == 0x8000_0000;
    if e < 0x8000_0000 {
      AndHighMask(e, 12, 31);
    }
  }

  /** Clearing the present bit keeps everything else. */
  lemma DelPresent(e: u32)
    ensures DelAttrib(e, PRESENT) == e - e % 2
  {
    hide And;
    PowersOfTwo();
    AndHighMask(e, 1, 32);
  }

  lemma IndexMeaning(v: u32)
    ensures DirectoryIndex(v) == v / 0x40_0000 && TableIndex(v) == v / 0x1000 % 1024
    ensures v / 0x1000 == 1024 * DirectoryIndex(v) + TableIndex(v)
  {
    hide And;
    MaskTenBits(v / 0x40_0000);
    MaskTenBits(v / 0x1000);
  }

  /** What `set_frame` keeps of the old entry: bit 31 and the low twelve bits. */
  lemma KeptBits(e: u32)
    ensures And(e, ALL_ONES - FRAME) == e % 0x1000 + (if e >= 0x8000_0000 then 0x8000_0000 else 0)
  {
    hide And;
    PowersOfTwo();
    var k := And(e, 0x8000_0FFF);
    AndSplit(e, 0x8000_0FFF, 12);
    assert High(0x8000_0FFF, 12) == 0x8_0000 && Low(0x8000_0FFF, 12) == 0xFFF;
    AndLowMask(e % 0x1000, 12);
    AndHighMask(e / 0x1000, 19, 20);
    assert k == 0x1000 * High(k, 12) + Low(k, 12);
    assert High(k, 12) == And(e / 0x1000, 0x8_0000) && Low(k, 12) == And(e % 0x1000, 0xFFF);
  }

  /** The frame field after `set_frame` with a page-aligned address: bit 31 of the old entry survives. */
  lemma SetFrameMeaning(e: u32, addr: u32)
    requires addr % 0x1000 == 0
    ensures SetFrame(e, addr) % 0x1000 == e % 0x1000
    ensures SetFrame(e, addr) / 0x1000 ==
            addr / 0x1000 + (if e >= 0x8000_0000 && addr < 0x8000_0000 then 0x8_0000 else 0)
  {
    hide And, Or;
    PowersOfTwo();
    KeptBits(e);
    var k, r := And(e, ALL_ONES - FRAME), SetFrame(e, addr);
    OrSplit(k, addr, 12);
    var t := if e >= 0x8000_0000 then 0x8_0000 else 0;
    assert High(k, 12) == t && Low(k, 12) == e % 0x1000;
    OrWithZero(e % 0x1000);
    TopBitOr(t, addr / 0x1000);
  }

  lemma OrWithZero(x: nat)
    ensures Or(x, 0) == x
  {
  }

  lemma TopBitOr(t: nat, a: nat)
    requires (t == 0 || t == 0x8_0000) && a < 0x10_0000
    ensures Or(t, a) == a + (if t != 0 && a < 0x8_0000 then 0x8_0000 else 0)
  {
    hide Or;
    PowersOfTwo();
    OrCommutes(t, a);
    OrWithZero(a);
    if t != 0 {
      OrSplit(t, a, 19);
      assert High(t, 19) == 1 && Low(t, 19) == 0;
      OrCommutes(0, Low(a, 19));
      OrWithZero(Low(a, 19));
      OneOr(High(a, 19));
      var r := Or(t, a);
      assert r == 0x8_0000 * High(r, 19) + Low(r, 19);
      assert a == 0x8_0000 * High(a, 19) + Low(a, 19);
    }
  }

  lemma OneOr(b: nat)
    requires b < 2
    ensures Or(1, b) == 1
  {
  }

  /** Adding a low attribute changes neither the frame nor, unless it is the present bit itself, presence. */
  lemma AddAttribMeaning(e: u32, attrib: u32)
    requires attrib < 0x1000
    ensures AddAttrib(e, attrib) / 0x1000 == e / 0x1000
    ensures AddAttrib(e, attrib) % 2 == if e % 2 == 1 || attrib % 2 == 1 then 1 else 0
  {
    hide Or;
    PowersOfTwo();
    OrSplit(e, attrib, 12);
    assert High(attrib, 12) == 0;
    OrWithZero(e / 0x1000);
    OrStep(e, attrib);
  }

  /** An installed entry is present, and it names the given frame exactly when bit 31 of the old entry
      was clear or the new address has it set. */
  lemma InstalledMeaning(e: u32, addr: u32)
    requires addr % 0x1000 == 0
    ensures IsPresent(Installed(e, addr))
    ensures PhysicalAddress(Installed(e, addr)) == addr <==> e < 0x8000_0000 || addr >= 0x8000_0000
    ensures e < 0x8000_0000 ==> Installed(e, addr) / 0x1000 == addr / 0x1000
  {
    hide AddAttrib, SetFrame, IsPresent, PhysicalAddress;
    SetFrameMeaning(e, addr);
    var s := SetFrame(e, addr);
    AddAttribMeaning(s, PRESENT);
    AddAttribMeaning(AddAttrib(s, PRESENT), WRITABLE);
    AddAttribMeaning(AddAttrib(AddAttrib(s, PRESENT), WRITABLE), USER);
    EntryMeaning(Installed(e, addr));
  }

  /** Setting flags among the lowest three leaves every other bit alone. */
  lemma AddFlags(e: u32, flags: u32)
    requires flags < 8
    ensures AddAttrib(e, flags) / 8 == e / 8 && AddAttrib(e, flags) % 8 == Or(e % 8, flags)
  {
    hide Or;
    assert Pow2(3) == 8;
    OrSplit(e, flags, 3);
    assert High(flags, 3) == 0 && Low(flags, 3) == flags;
    OrWithZero(e / 8);
  }

  lemma AllFlags(x: nat)
    requires x < 8
    ensures Or(Or(Or(x, 1), 2), 4) == 7
  {
    hide Or;
    var y := Or(x, 1);
    var z := Or(y, 2);
    OrStep(x, 1);
    OrWithZero(x / 2);
    OrStep(y, 2);
    OrStep(y / 2, 1);
    OrWithZero(y / 2 / 2);
    assert z % 2 == 1 && z / 2 % 2 == 1 && z < 8;
    OrStep(z, 4);
    OrStep(z / 2, 2);
    OrStep(z / 2 / 2, 1);
    OrWithZero(z / 2 / 2 / 2);
  }

  lemma Eights(q: nat, low: nat)
    requires low < 0x1000
    ensures (0x1000 * q + low) / 8 * 8 == 0x1000 * q + low / 8 * 8
    ensures (0x1000 * q + low) / 0x1000 == q && (0x1000 * q + low) % 0x1000 == low
  {
    DivModUnique(0x1000 * q + low, 0x1000, q, low);
    DivModUnique(0x1000 * q + low, 8, 0x200 * q + low / 8, low % 8);
  }

  /** The whole word an entry becomes: the new frame, bit 31 if it was set before, the old flags from bit 3 to bit 11,
      and present, writable and user set. */
  lemma InstalledWord(e: u32, addr: u32)
    requires addr % 0x1000 == 0
    ensures Installed(e, addr)
         == addr + (if e >= 0x8000_0000 && addr < 0x8000_0000 then 0x8000_0000 else 0) + e % 0x1000 / 8 * 8 + 7
  {
    hide AddAttrib, SetFrame, Or;
    SetFrameMeaning(e, addr);
    var s := SetFrame(e, addr);
    AddFlags(s, 1);
    AddFlags(AddAttrib(s, 1), 2);
    AddFlags(AddAttrib(AddAttrib(s, 1), 2), 4);
    AllFlags(s % 8);
    assert Installed(e, addr) == s / 8 * 8 + 7;
    InstalledParts(s, e, addr);
  }

  lemma InstalledParts(s: u32, e: u32, addr: u32)
    requires addr % 0x1000 == 0 && s % 0x1000 == e % 0x1000
    requires s / 0x1000 == addr / 0x1000 + (if e >= 0x8000_0000 && addr < 0x8000_0000 then 0x8_0000 else 0)
    ensures s / 8 * 8
         == addr + (if e >= 0x8000_0000 && addr < 0x8000_0000 then 0x8000_0000 else 0) + e % 0x1000 / 8 * 8
  {
    Eights(s / 0x1000, s % 0x1000);
    assert addr == 0x1000 * (addr / 0x1000);
  }
}
