/** The file allocation table of FAT12: 12-bit entries packed two to three bytes, little-endian,
    accessed through an unaligned 16-bit word exactly as fs/fs.c does. */
module FatTable {
  import opened Bits

  const FREE: u16 := 0x000
  const EOF_MIN: u16 := 0xFF8
  const EOF: u16 := 0xFFF

  /** A table big enough for every cluster number below EOF_MIN: at least twelve sectors. */
  type Fat = f: seq<byte> | |f| >= 12 * 512 witness seq(12 * 512, _ => 0)

  function Offset(cluster: nat): nat { cluster + cluster / 2 }

  predicate InTable(fat: seq<byte>, cluster: nat) { Offset(cluster) + 1 < |fat| }

  /** The 16-bit little-endian word at a byte offset. */
  function Word(fat: seq<byte>, o: nat): u16
    requires o + 1 < |fat|
  {
    var low: int, high: int := fat[o], fat[o + 1];
    low + 256 * high
  }

  function PutWord(fat: seq<byte>, o: nat, w: u16): (r: seq<byte>)
    requires o + 1 < |fat|
    ensures |r| == |fat| && Word(r, o) == w
  {
    fat[o := w % 256][o + 1 := w / 256]
  }

  /** What `get_next_cluster` computes. */
  function Entry(fat: seq<byte>, cluster: nat): (v: u16)
    requires InTable(fat, cluster)
    ensures v < 0x1000
  {
    var w := Word(fat, Offset(cluster));
    if cluster % 2 == 1 then w / 16
    else AndLow12(w); And(w, 0x0FFF)
  }

  /** What `set_cluster_value` leaves in the table: a read-modify-write of one word. */
  function WithEntry(fat: seq<byte>, cluster: nat, value: u16): (r: seq<byte>)
    requires InTable(fat, cluster)
    ensures |r| == |fat|
  {
    PutWord(fat, Offset(cluster), Packed(Word(fat, Offset(cluster)), cluster % 2 == 1, value))
  }

  function Packed(w: u16, odd: bool, value: u16): (r: u16)
    ensures odd ==> r % 16 == w % 16 && r / 16 == value % 0x1000
    ensures !odd ==> r / 0x1000 == w / 0x1000 && r % 0x1000 == value % 0x1000
  {
    Fields(w, value);
    if odd then
      PackedOdd(w, value);
      Or(And(w, 0x000F), value * 16 % 0x1_0000)
    else
      PackedEven(w, value);
      Or(And(w, 0xF000), And(value, 0x0FFF))
  }

  lemma Fields(w: u16, value: u16)
    ensures var r := w % 16 + value % 0x1000 * 16;
            r < 0x1_0000 && r % 16 == w % 16 && r / 16 == value % 0x1000
    ensures var r := w - w % 0x1000 + value % 0x1000;
            r < 0x1_0000 && r / 0x1000 == w / 0x1000 && r % 0x1000 == value % 0x1000
  {
  }

  lemma ShiftLeft4(value: u16)
    ensures value * 16 % 0x1_0000 == value % 0x1000 * 16
  {
  }

  lemma PackedOdd(w: u16, value: u16)
    ensures Or(And(w, 0x000F), value * 16 % 0x1_0000) == w % 16 + value % 0x1000 * 16
  {
    hide And, Or;
    var low, high := And(w, 0x000F), value * 16 % 0x1_0000;
    AndLow4(w);
    ShiftLeft4(value);
    OrCommutes(low, high);
    OrKeepsLow4(high, low);
  }

  lemma PackedEven(w: u16, value: u16)
    ensures Or(And(w, 0xF000), And(value, 0x0FFF)) == w - w % 0x1000 + value % 0x1000
  {
    hide And, Or;
    AndTop4(w);
    AndLow12(value);
    OrKeepsLow12(w - w % 0x1000, value % 0x1000);
  }

  lemma AndLow4(w: u16)
    ensures And(w, 0x000F) == w % 16
  {
    hide And;
    AndLowMask(w, 4);
    assert Pow2(4) == 16;
  }

  lemma AndLow12(w: u16)
    ensures And(w, 0x0FFF) == w % 0x1000
  {
    hide And;
    AndLowMask(w, 12);
    assert Pow2(12) == 0x1000;
  }

  lemma AndTop4(w: u16)
    ensures And(w, 0xF000) == w - w % 0x1000
  {
    hide And;
    assert Pow2(12) == 0x1000 && Pow2(16) == 0x1_0000;
    AndHighMask(w, 12, 16);
  }

  lemma OrKeepsLow4(high: nat, low: nat)
    requires high % 16 == 0 && low < 16
    ensures Or(high, low) == high + low
  {
    hide Or;
    assert Pow2(4) == 16;
    OrDisjoint(high, low, 4);
  }

  lemma OrKeepsLow12(high: nat, low: nat)
    requires high % 0x1000 == 0 && low < 0x1000
    ensures Or(high, low) == high + low
  {
    hide Or;
    assert Pow2(12) == 0x1000;
    OrDisjoint(high, low, 12);
  }

  /** Setting an entry then reading it gives the low twelve bits of the value. */
  lemma SetThenGet(fat: seq<byte>, cluster: nat, value: u16)
    requires InTable(fat, cluster)
    ensures Entry(WithEntry(fat, cluster, value), cluster) == value % 0x1000
  {
    hide And, Or, Packed;
    AndLow12(Word(WithEntry(fat, cluster, value), Offset(cluster)));
  }

  /** An entry in terms of arithmetic on its word. */
  lemma EntryValue(fat: seq<byte>, cluster: nat)
    requires InTable(fat, cluster)
    ensures Entry(fat, cluster) == ValueIn(Word(fat, Offset(cluster)), cluster % 2 == 1)
  {
    hide And;
    AndLow12(Word(fat, Offset(cluster)));
  }

  function ValueIn(w: u16, odd: bool): u16 { if odd then w / 16 else w % 0x1000 }

  /** Which part of the two bytes at an entry's offset a write to that entry keeps. */
  lemma WriteKeeps(fat: seq<byte>, cluster: nat, value: u16)
    requires InTable(fat, cluster)
    ensures var o, r := Offset(cluster), WithEntry(fat, cluster, value);
            && (forall i | 0 <= i < |fat| && i != o && i != o + 1 :: r[i] == fat[i])
            && (cluster % 2 == 1 ==> r[o] % 16 == fat[o] % 16)
            && (cluster % 2 == 0 ==> r[o + 1] / 16 == fat[o + 1] / 16)
  {
    hide And, Or, Packed;
    var o := Offset(cluster);
    var w := Word(fat, o);
    var p := Packed(w, cluster % 2 == 1, value);
    if cluster % 2 == 1 {
      LowNibble(p, w);
    } else {
      HighNibble(p, w);
    }
  }

  /** Every other entry is unchanged, although neighbours share a byte. */
  lemma SetKeepsOthers(fat: seq<byte>, cluster: nat, value: u16, other: nat)
    requires InTable(fat, cluster) && InTable(fat, other) && other != cluster
    ensures Entry(WithEntry(fat, cluster, value), other) == Entry(fat, other)
  {
    hide And, Or, Packed, Entry, WithEntry;
    var r := WithEntry(fat, cluster, value);
    WriteKeeps(fat, cluster, value);
    EntryValue(fat, other);
    EntryValue(r, other);
    SameValue(fat, r, cluster, other);
  }

  lemma SameValue(fat: seq<byte>, r: seq<byte>, cluster: nat, other: nat)
    requires InTable(fat, cluster) && InTable(fat, other) && other != cluster && |r| == |fat|
    requires forall i | 0 <= i < |fat| && i != Offset(cluster) && i != Offset(cluster) + 1 :: r[i] == fat[i]
    requires cluster % 2 == 1 ==> r[Offset(cluster)] % 16 == fat[Offset(cluster)] % 16
    requires cluster % 2 == 0 ==> r[Offset(cluster) + 1] / 16 == fat[Offset(cluster) + 1] / 16
    ensures ValueIn(Word(r, Offset(other)), other % 2 == 1) == ValueIn(Word(fat, Offset(other)), other % 2 == 1)
  {
    var o, p := Offset(cluster), Offset(other);
    if cluster / 2 != other / 2 {
      Apart(cluster, other);
      assert r[p] == fat[p] && r[p + 1] == fat[p + 1];
    } else if cluster % 2 == 1 {
      assert p + 1 == o && r[p] == fat[p];
      SharedHigh(r[p], r[o], fat[o]);
    } else {
      assert p == o + 1 && r[p + 1] == fat[p + 1];
      SharedLow(r[p], fat[p], fat[p + 1]);
    }
  }

  lemma LowNibble(w: u16, v: u16)
    requires w % 16 == v % 16
    ensures (w % 256) % 16 == (v % 256) % 16
  {
  }

  lemma HighNibble(w: u16, v: u16)
    requires w / 0x1000 == v / 0x1000
    ensures (w / 256) / 16 == (v / 256) / 16
  {
  }

  lemma SharedHigh(low: byte, a: byte, b: byte)
    requires a % 16 == b % 16
    ensures (low as int + 256 * a as int) % 0x1000 == (low as int + 256 * b as int) % 0x1000
  {
  }

  lemma SharedLow(a: byte, b: byte, high: byte)
    requires a / 16 == b / 16
    ensures (a as int + 256 * high as int) / 16 == (b as int + 256 * high as int) / 16
  {
    assert (a as int + 256 * high as int) / 16 == a / 16 + 16 * high as int;
  }

  lemma Apart(c: nat, d: nat)
    requires c / 2 != d / 2
    ensures Offset(d) + 1 < Offset(c) || Offset(c) + 1 < Offset(d)
  {
  }

  /** Writing back the value an entry already has changes no byte. */
  lemma SetSame(fat: seq<byte>, cluster: nat, value: u16)
    requires InTable(fat, cluster) && Entry(fat, cluster) == value % 0x1000
    ensures WithEntry(fat, cluster, value) == fat
  {
    hide And, Or, Packed;
    AndLow12(Word(fat, Offset(cluster)));
  }

  /** Of two writes to the same entry only the last one shows, in every byte. */
  lemma SetTwice(fat: seq<byte>, cluster: nat, first: u16, second: u16)
    requires InTable(fat, cluster)
    ensures WithEntry(WithEntry(fat, cluster, first), cluster, second) == WithEntry(fat, cluster, second)
  {
    hide And, Or, Packed;
    var o := Offset(cluster);
    var w, w1 := Word(fat, o), Word(WithEntry(fat, cluster, first), o);
    var odd := cluster % 2 == 1;
    assert Packed(w1, odd, second) == Packed(w, odd, second);
  }
}
