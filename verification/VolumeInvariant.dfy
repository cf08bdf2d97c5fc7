/** The invariant of a well-formed volume, and how directory slots, table entries and data sectors
    fare under the two operations that change the disk. */
module VolumeInvariant {
  import opened Bits
  import opened Options
  import opened FatTable
  import opened Chains
  import opened DosNames
  import opened Volume

  // ----- directory

  /** After the end marker every slot is one, and no two live slots share a name. */
  ghost predicate GoodDirectory(m: MountInfo, slots: seq<DirSlot>) {
    && (forall i, j | 0 <= i < j < |slots| :: IsEnd(slots[i]) ==> IsEnd(slots[j]))
    && (forall i, j | 0 <= i < j < |slots| && Live(m, slots[i]) && Live(m, slots[j]) ::
          NameOf(slots[i]) != NameOf(slots[j]))
  }

  lemma {:induction false} LookupFromFinds(m: MountInfo, slots: seq<DirSlot>, name: DosName, k: nat)
    requires k <= |slots|
    requires forall i, j | 0 <= i < j < |slots| :: IsEnd(slots[i]) ==> IsEnd(slots[j])
    ensures LookupFrom(m, slots, name, k).None? ==>
              forall j | k <= j < |slots| && Live(m, slots[j]) :: NameOf(slots[j]) != name
    decreases |slots| - k
  {
    if k < |slots| && !IsEnd(slots[k]) {
      LookupFromFinds(m, slots, name, k + 1);
    }
  }

  /** In a good directory a search finds the one live slot of that name, wherever it is. */
  lemma LookupFinds(m: MountInfo, slots: seq<DirSlot>, name: DosName, k: nat)
    requires GoodDirectory(m, slots)
    ensures Lookup(m, slots, name) == Some(k) <==>
            k < |slots| && Live(m, slots[k]) && NameOf(slots[k]) == name
  {
    LookupFromFinds(m, slots, name, 0);
  }

  /** Filling the first free slot keeps the directory good exactly when the name was not there. */
  lemma FillSlot(m: MountInfo, slots: seq<DirSlot>, k: nat, slot: DirSlot)
    requires GoodDirectory(m, slots) && FreeSlot(m, slots) == Some(k) && !IsEnd(slot)
    ensures GoodDirectory(m, slots[k := slot]) <==> IsDeleted(m, slot) || Lookup(m, slots, NameOf(slot)).None?
  {
    FreeSlotIsFirst(m, slots, 0);
    LookupFromFinds(m, slots, NameOf(slot), 0);
    var after := slots[k := slot];
    assert forall i, j | 0 <= i < j < |after| :: IsEnd(after[i]) ==> IsEnd(after[j]);
    if Live(m, slot) && Lookup(m, slots, NameOf(slot)).Some? {
      var d := Lookup(m, slots, NameOf(slot)).value;
      assert d != k && Live(m, after[d]) && Live(m, after[k]);
      var i, j := if d < k then d else k, if d < k then k else d;
      assert NameOf(after[i]) == NameOf(after[j]);
    }
  }

  // ----- chains

  /** The clusters of a file, none for an empty one. */
  function ChainOf(fat: Fat, first: u16): (cs: seq<u16>)
    ensures Links(cs)
  {
    if first == 0 then [] else FullChain(fat, first)
  }

  predicate GoodFile(fat: Fat, slot: DirSlot) {
    (FirstOf(slot) == 0 && SizeOf(slot) == 0) || GoodChain(fat, FirstOf(slot))
  }

  predicate Disjoint(cs: seq<u16>, ds: seq<u16>) { forall e | e in cs :: e !in ds }

  ghost predicate GoodChains(m: MountInfo, fat: Fat, slots: seq<DirSlot>) {
    && (forall i | 0 <= i < |slots| && Live(m, slots[i]) :: GoodFile(fat, slots[i]))
    && (forall i, j | 0 <= i < j < |slots| && Live(m, slots[i]) && Live(m, slots[j]) ::
          Disjoint(ChainOf(fat, FirstOf(slots[i])), ChainOf(fat, FirstOf(slots[j]))))
  }

  /** Data clusters only, in chain order. */
  lemma ChainOfGoodFile(fat: Fat, slot: DirSlot)
    requires GoodFile(fat, slot)
    ensures var cs := ChainOf(fat, FirstOf(slot));
            Distinct(cs) && forall e | e in cs :: 2 <= e && Entry(fat, e) != FREE
  {
    if FirstOf(slot) != 0 {
      TerminatesIsDistinct(fat, FirstOf(slot), LIMIT);
      forall e | e in FullChain(fat, FirstOf(slot)) ensures Entry(fat, e) != FREE {
        GoodChainNotFree(fat, FirstOf(slot), e);
      }
    }
  }

  /** Allocating a free cluster leaves every good chain as it was ... */
  lemma AllocationKeepsFile(fat: Fat, c: u16, slot: DirSlot)
    requires FreeCluster(fat, c) && GoodFile(fat, slot)
    ensures GoodFile(WithEntry(fat, c, EOF), slot)
    ensures ChainOf(WithEntry(fat, c, EOF), FirstOf(slot)) == ChainOf(fat, FirstOf(slot))
    ensures c !in ChainOf(fat, FirstOf(slot))
  {
    hide WithEntry, Entry;
    ChainOfGoodFile(fat, slot);
    var first := FirstOf(slot);
    if first != 0 {
      forall e | e in FullChain(fat, first) ensures Entry(WithEntry(fat, c, EOF), e) == Entry(fat, e) {
        SetKeepsOthers(fat, c, EOF, e);
      }
      ChainFrame(fat, WithEntry(fat, c, EOF), first, LIMIT);
    }
  }

  /** ... and makes a chain of just that cluster. */
  lemma AllocationMakesChain(fat: Fat, c: u16)
    requires FreeCluster(fat, c)
    ensures GoodChain(WithEntry(fat, c, EOF), c)
    ensures ChainOf(WithEntry(fat, c, EOF), c) == [c]
  {
    hide WithEntry, Entry;
    var fat' := WithEntry(fat, c, EOF);
    SetThenGet(fat, c, EOF);
    assert Chain(fat', EOF, LIMIT - 1) == [] && After(fat', EOF, LIMIT - 1) == EOF;
  }

  // ----- data sectors

  /** Data clusters lie beyond the mirrors and the root directory. */
  predicate DataClusters(cs: seq<u16>) { forall e | e in cs :: 2 <= e < EOF_MIN }

  /** Two disks with the same data area. */
  ghost predicate SameData(m: MountInfo, disk: seq<Sector>, disk': seq<Sector>) {
    |disk'| == |disk| && forall s | m.dataStart <= s < |disk| :: disk'[s] == disk[s]
  }

  lemma {:induction false} GatherSameData(m: MountInfo, disk: seq<Sector>, disk': seq<Sector>, cs: seq<u16>)
    requires ValidMount(m, |disk|) && Links(cs) && DataClusters(cs) && SameData(m, disk, disk')
    ensures Gather(m, disk', cs) == Gather(m, disk, cs)
  {
    if cs != [] {
      assert cs[0] in cs;
      assert forall e | e in cs[1..] :: e in cs;
      LbaInRange(m, |disk|, cs[0]);
      GatherSameData(m, disk, disk', cs[1..]);
    }
  }

  /** Writing one sector leaves the bytes along every other cluster alone. */
  lemma {:induction false} GatherUpdate(m: MountInfo, disk: seq<Sector>, c: u16, s: Sector, cs: seq<u16>)
    requires ValidMount(m, |disk|) && Links(cs) && c < EOF_MIN && c !in cs
    ensures 0 <= Lba(m, c) < |disk|
    ensures Gather(m, disk[Lba(m, c) := s], cs) == Gather(m, disk, cs)
  {
    LbaInRange(m, |disk|, c);
    if cs != [] {
      LbaInRange(m, |disk|, cs[0]);
      LbaInjective(m, cs[0], c);
      GatherUpdate(m, disk, c, s, cs[1..]);
    }
  }

  lemma {:induction false} GatherStoreApart(m: MountInfo, disk: seq<Sector>, cs: seq<u16>, data: seq<byte>,
      ds: seq<u16>)
    requires ValidMount(m, |disk|) && Links(cs) && Links(ds) && Disjoint(cs, ds)
    ensures Gather(m, Store(m, disk, cs, data), ds) == Gather(m, disk, ds)
    decreases |cs|
  {
    if cs != [] && data != [] {
      var c, k := cs[0], Min(512, |data|);
      assert c in cs;
      GatherUpdate(m, disk, c, FilledSector(data[..k]), ds);
      GatherStoreApart(m, disk[Lba(m, c) := FilledSector(data[..k])], cs[1..], data[k..], ds);
    }
  }

  /** A write touches no sector but those of the clusters it goes along. */
  lemma {:induction false} StoreKeepsSector(m: MountInfo, disk: seq<Sector>, cs: seq<u16>, data: seq<byte>, s: nat)
    requires ValidMount(m, |disk|) && Links(cs) && s < |disk|
    requires forall i | 0 <= i < |cs| :: Lba(m, cs[i]) != s
    ensures Store(m, disk, cs, data)[s] == disk[s]
    decreases |cs|
  {
    if cs != [] && data != [] {
      var c, k := cs[0], Min(512, |data|);
      LbaInRange(m, |disk|, c);
      assert Lba(m, c) != s;
      StoreKeepsSector(m, disk[Lba(m, c) := FilledSector(data[..k])], cs[1..], data[k..], s);
    }
  }

  /** File contents after a write: the data, zeros to the end of its last sector, then the old bytes. */
  function Overlay(raw: seq<byte>, data: seq<byte>): (r: seq<byte>)
    ensures |r| == |raw|
  {
    var n := Min(|data|, |raw|);
    seq(|raw|, i requires 0 <= i < |raw| =>
      if i < n then data[i] else if i < 512 * SectorCount(n) then 0 else raw[i])
  }

  lemma OverlayStep(first: Sector, rest: seq<byte>, data: seq<byte>)
    requires data != [] && |rest| % 512 == 0
    ensures var k := Min(512, |data|);
            Overlay(first + rest, data) == FilledSector(data[..k]) + Overlay(rest, data[k..])
  {
    var k := Min(512, |data|);
    var n, n' := Min(|data|, 512 + |rest|), Min(|data| - k, |rest|);
    assert SectorCount(n) == 1 + SectorCount(n');
  }

  lemma {:induction false} GatherStore(m: MountInfo, disk: seq<Sector>, cs: seq<u16>, data: seq<byte>)
    requires ValidMount(m, |disk|) && Links(cs) && Distinct(cs)
    ensures Gather(m, Store(m, disk, cs, data), cs) == Overlay(Gather(m, disk, cs), data)
    decreases |cs|
  {
    hide Store, Gather, Overlay, FilledSector, ValidMount, Lba, SectorOf;
    if data == [] || cs == [] {
      NothingStored(m, disk, cs, data);
    } else {
      var c, ds, k := cs[0], cs[1..], Min(512, |data|);
      StoreUnfold(m, disk, cs, data);
      var disk1 := disk[Lba(m, c) := FilledSector(data[..k])];
      var disk2 := Store(m, disk1, ds, data[k..]);
      GatherStore(m, disk1, ds, data[k..]);
      GatherUpdate(m, disk, c, FilledSector(data[..k]), ds);
      StoreKeepsCluster(m, disk1, ds, data[k..], c);
      OverlayStep(SectorOf(m, disk, c), Gather(m, disk, ds), data);
      GatherCons(m, disk, cs);
      GatherCons(m, disk2, cs);
    }
  }

  lemma NothingStored(m: MountInfo, disk: seq<Sector>, cs: seq<u16>, data: seq<byte>)
    requires ValidMount(m, |disk|) && Links(cs) && (data == [] || cs == [])
    ensures Gather(m, Store(m, disk, cs, data), cs) == Overlay(Gather(m, disk, cs), data)
  {
    hide Gather, Overlay;
    OverlayNothing(Gather(m, disk, cs), data);
  }

  lemma OverlayNothing(raw: seq<byte>, data: seq<byte>)
    requires data == [] || raw == []
    ensures Overlay(raw, data) == raw
  {
    assert Min(|data|, |raw|) == 0 && SectorCount(0) == 0;
  }

  lemma GatherCons(m: MountInfo, disk: seq<Sector>, cs: seq<u16>)
    requires ValidMount(m, |disk|) && Links(cs) && cs != []
    ensures Gather(m, disk, cs) == SectorOf(m, disk, cs[0]) + Gather(m, disk, cs[1..])
  {
  }

  lemma StoreKeepsCluster(m: MountInfo, disk: seq<Sector>, cs: seq<u16>, data: seq<byte>, c: u16)
    requires ValidMount(m, |disk|) && Links(cs) && c < EOF_MIN && c !in cs
    ensures 0 <= Lba(m, c) < |disk|
    ensures SectorOf(m, Store(m, disk, cs, data), c) == disk[Lba(m, c)]
  {
    hide Store;
    LbaInRange(m, |disk|, c);
    forall i | 0 <= i < |cs| ensures Lba(m, cs[i]) != Lba(m, c) { LbaInjective(m, cs[i], c); }
    StoreKeepsSector(m, disk, cs, data, Lba(m, c));
  }

  /** Clusters beyond the end of the data are not written. */
  lemma {:induction false} StorePrefix(m: MountInfo, disk: seq<Sector>, cs: seq<u16>, data: seq<byte>)
    requires ValidMount(m, |disk|) && Links(cs)
    ensures Store(m, disk, cs[..Min(SectorCount(|data|), |cs|)], data) == Store(m, disk, cs, data)
    decreases |cs|
  {
    var n := Min(SectorCount(|data|), |cs|);
    if cs != [] && data != [] {
      var k := Min(512, |data|);
      LbaInRange(m, |disk|, cs[0]);
      assert SectorCount(|data|) == 1 + SectorCount(|data| - k);
      assert cs[..n][1..] == cs[1..][..n - 1];
      StorePrefix(m, disk[Lba(m, cs[0]) := FilledSector(data[..k])], cs[1..], data[k..]);
    }
  }

  lemma {:induction false} GatherSlice(m: MountInfo, disk: seq<Sector>, cs: seq<u16>, i: nat, j: nat)
    requires ValidMount(m, |disk|) && Links(cs) && i <= j <= |cs|
    ensures Gather(m, disk, cs[i..j]) == Gather(m, disk, cs)[512 * i..512 * j]
    decreases |cs|
  {
    hide SectorOf;
    if i == j {
      assert cs[i..j] == [];
    } else if i == 0 {
      GatherSlice(m, disk, cs[1..], 0, j - 1);
      assert cs[0..j][1..] == cs[1..][0..j - 1];
    } else {
      GatherSlice(m, disk, cs[1..], i - 1, j - 1);
      assert cs[i..j] == cs[1..][i - 1..j - 1];
    }
  }

  // ----- the whole invariant

  ghost predicate WellFormed(m: MountInfo, v: View) {
    && Mounted(m, v)
    && GoodDirectory(m, RootDir(m, v.disk))
    && GoodChains(m, v.fat, RootDir(m, v.disk))
    && FirstMirror(m, v)
  }
}
