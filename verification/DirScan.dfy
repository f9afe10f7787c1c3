/** Scanning a directory: its 32-byte entries on the disk, and the record of each that the
    search for a name and for room works on (fat_fillDirentryInfo, iop/usb_mass/fat_write.c). */
module DirScan {
  import opened Arith
  import opened Bytes
  import opened FatRecords
  import opened FatChains
  import opened FatFileView
  import opened FatVolume
  import opened DirSlots
  import opened ShortNames
  import LongNames
  import SectorCache

  const DIRENTRY_COUNT := 1024

  /** Entries that n clusters hold. */
  function EntryCount(b: Bpb, n: nat): nat {
    Times(Times(n, b.clusterSize), b.sectorSize / ENTRY)
  }

  lemma EntriesFill(b: Bpb, n: nat)
    requires b.sectorSize % ENTRY == 0
    ensures Capacity(b, n) == ENTRY * EntryCount(b, n)
  {
    TimesScale(Times(n, b.clusterSize), b.sectorSize / ENTRY);
    assert b.sectorSize == ENTRY * (b.sectorSize / ENTRY);
  }

  /** Entry j of the directory cs. */
  ghost function EntryAt(b: Bpb, flat: seq<Sector>, cs: seq<nat>, j: nat): (e: seq<Byte>)
    requires IsFile(b, flat, cs) && j < EntryCount(b, |cs|)
    ensures |e| == ENTRY
  {
    EntriesFill(b, |cs|);
    seq<Byte>(ENTRY, x requires 0 <= x < ENTRY => FileByte(b, flat, cs, ENTRY * j + x))
  }

  /** Entry m of a sector. */
  function SectorEntry(sec: Sector, m: nat): (e: seq<Byte>)
    requires ENTRY * m + ENTRY <= |sec|
    ensures |e| == ENTRY
  {
    sec[ENTRY * m..ENTRY * m + ENTRY]
  }

  /** The entries of the directory's sector i are its entries from i times the number per sector on. */
  lemma SectorEntryIs(b: Bpb, flat: seq<Sector>, cs: seq<nat>, i: nat, m: nat)
    requires IsFile(b, flat, cs) && i < Times(|cs|, b.clusterSize) && m < b.sectorSize / ENTRY
    ensures Quot(i, b.clusterSize) < |cs| && cs[Quot(i, b.clusterSize)] >= 2 && FileSector(b, cs, i) < |flat|
    ensures Times(i, b.sectorSize / ENTRY) + m < EntryCount(b, |cs|) && ENTRY * m + ENTRY <= |flat[FileSector(b, cs, i)]|
    ensures EntryAt(b, flat, cs, Times(i, b.sectorSize / ENTRY) + m) == SectorEntry(flat[FileSector(b, cs, i)], m)
  {
    hide Times, Quot, Rem, Distinct;
    var per := b.sectorSize / ENTRY;
    assert b.sectorSize == ENTRY * per;
    QuotBelow(i, |cs|, b.clusterSize);
    TimesApart(i, Times(|cs|, b.clusterSize), per);
    TimesScale(i, per);
    EntriesFill(b, |cs|);
    var j := Times(i, per) + m;
    var e, f := EntryAt(b, flat, cs, j), SectorEntry(flat[FileSector(b, cs, i)], m);
    forall x | 0 <= x < ENTRY
      ensures e[x] == f[x]
    {
      QuotRemOf(i, ENTRY * m + x, b.sectorSize);
      assert e[x] == FileByte(b, flat, cs, ENTRY * j + x);
    }
  }

  /** What the scan makes of an entry. The entry that ends the directory counts as free. */
  function ItemOf(e: seq<Byte>): (it: Item)
    requires |e| == ENTRY
    ensures it.Short? ==> |it.name| == 8 && |it.ext| == 3
  {
    match LongNames.Kind(e)
    case 0 => Deleted
    case 1 => if e[11] / 8 % 2 == 1 then Label else Short(e[..8], e[8..11])
    case 2 => Long
    case _ => Deleted
  }

  /** The bytes that tell entries apart: the mark 0xE5 and the end, the attributes of a long-name entry
      with the bytes that are zero in it, the bit of a volume label. */
  lemma ItemIs(e: seq<Byte>)
    requires |e| == ENTRY
    ensures ItemOf(e) == Deleted <==> (e[0] == 0 && e[1] == 0) || e[0] == 0xE5
    ensures ItemOf(e) == Long <==> ItemOf(e) != Deleted && e[11] == 0x0F && e[12] == 0 && e[26] == 0
    ensures ItemOf(e) == Label <==> ItemOf(e) != Deleted && ItemOf(e) != Long && e[11] as int / 8 % 2 == 1
    ensures ItemOf(e).Short? ==> ItemOf(e) == Short(e[..8], e[8..11])
  {
  }

  /** A record is empty exactly when its entry holds no part of a name and no label. */
  lemma EmptyIsFree(items: seq<Item>, mask: seq<Byte>, i: nat, e: seq<Byte>)
    requires i < |items| && |e| == ENTRY && items[i] == ItemOf(e)
    ensures Empty(RecordOf(items, mask, i)) <==> LongNames.Kind(e) == 0 || LongNames.Kind(e) == 3
  {
    hide ItemNumber;
  }

  /** The items are those of the first entries of the directory; none but the last can be its end. */
  ghost predicate Reads(b: Bpb, flat: seq<Sector>, cs: seq<nat>, items: seq<Item>) {
    && IsFile(b, flat, cs) && |items| <= DIRENTRY_COUNT && |items| <= EntryCount(b, |cs|)
    && (forall j :: 0 <= j < |items| ==> items[j] == ItemOf(EntryAt(b, flat, cs, j)))
    && (forall j :: 0 <= j < |items| - 1 ==> LongNames.Kind(EntryAt(b, flat, cs, j)) != 0)
  }

  /** The scan is complete: it came to the end of the directory, or has no more records. */
  ghost predicate Scanned(b: Bpb, flat: seq<Sector>, cs: seq<nat>, items: seq<Item>) {
    && Reads(b, flat, cs, items) && |items| > 0
    && (|items| == DIRENTRY_COUNT || |items| == EntryCount(b, |cs|) || LongNames.Kind(EntryAt(b, flat, cs, |items| - 1)) == 0)
  }

  /** The inner loop of fat_fillDirentryInfo over the entries of one sector. */
  method ScanSector(sec: Sector, per: nat, items0: seq<Item>) returns (items: seq<Item>, cont: bool)
    requires |sec| == ENTRY * per && |items0| <= DIRENTRY_COUNT
    ensures items0 <= items && |items| <= |items0| + per && |items| <= DIRENTRY_COUNT
    ensures forall m :: 0 <= m < |items| - |items0| ==> items[|items0| + m] == ItemOf(SectorEntry(sec, m))
    ensures forall m :: 0 <= m < |items| - |items0| && (cont || m < |items| - |items0| - 1) ==>
              LongNames.Kind(SectorEntry(sec, m)) != 0
    ensures cont ==> |items| == DIRENTRY_COUNT || |items| == |items0| + per
    ensures !cont ==> |items| > |items0| && LongNames.Kind(SectorEntry(sec, |items| - |items0| - 1)) == 0
  {
    hide LongNames.Kind;
    items, cont := items0, true;
    var m := 0;
    while cont && m < per && |items| < DIRENTRY_COUNT
      invariant 0 <= m <= per && items0 <= items && |items| == |items0| + m <= DIRENTRY_COUNT
      invariant forall k :: 0 <= k < m ==> items[|items0| + k] == ItemOf(SectorEntry(sec, k))
      invariant forall k :: 0 <= k < m && (cont || k < m - 1) ==> LongNames.Kind(SectorEntry(sec, k)) != 0
      invariant !cont ==> m > 0 && LongNames.Kind(SectorEntry(sec, m - 1)) == 0
    {
      var e := sec[ENTRY * m..ENTRY * m + ENTRY];
      assert e == SectorEntry(sec, m);
      cont := LongNames.Kind(e) != 0;
      items := items + [ItemOf(e)];
      m := m + 1;
    }
  }

  /** One more sector has been scanned. */
  lemma SectorRead(b: Bpb, flat: seq<Sector>, cs: seq<nat>, items0: seq<Item>, items: seq<Item>, cont: bool, i: nat, sec: Sector)
    requires Reads(b, flat, cs, items0) && i < Times(|cs|, b.clusterSize)
    requires forall j :: 0 <= j < |items0| ==> LongNames.Kind(EntryAt(b, flat, cs, j)) != 0
    requires var per := b.sectorSize / ENTRY; |items0| == if Times(i, per) < DIRENTRY_COUNT then Times(i, per) else DIRENTRY_COUNT
    requires SectorIsAt(b, flat, cs, i, sec) && |sec| == ENTRY * (b.sectorSize / ENTRY)
    requires items0 <= items && |items| <= |items0| + b.sectorSize / ENTRY && |items| <= DIRENTRY_COUNT
    requires forall m :: 0 <= m < |items| - |items0| ==> items[|items0| + m] == ItemOf(SectorEntry(sec, m))
    requires forall m :: 0 <= m < |items| - |items0| && (cont || m < |items| - |items0| - 1) ==>
               LongNames.Kind(SectorEntry(sec, m)) != 0
    requires !cont ==> |items| > |items0| && LongNames.Kind(SectorEntry(sec, |items| - |items0| - 1)) == 0
    ensures Reads(b, flat, cs, items)
    ensures cont ==> forall j :: 0 <= j < |items| ==> LongNames.Kind(EntryAt(b, flat, cs, j)) != 0
    ensures !cont ==> |items| > 0 && LongNames.Kind(EntryAt(b, flat, cs, |items| - 1)) == 0
  {
    hide LongNames.Kind, ItemOf, Times, Quot, Rem, SectorEntry, IsFile;
    var per, n := b.sectorSize / ENTRY, |items0|;
    TimesApart(i, Times(|cs|, b.clusterSize), per);
    assert |items| > n ==> |items| <= EntryCount(b, |cs|);
    forall j | n <= j < |items|
      ensures items[j] == ItemOf(EntryAt(b, flat, cs, j))
      ensures cont || j < |items| - 1 ==> LongNames.Kind(EntryAt(b, flat, cs, j)) != 0
      ensures !cont && j == |items| - 1 ==> LongNames.Kind(EntryAt(b, flat, cs, j)) == 0
    {
      var m := j - n;
      SectorEntryIs(b, flat, cs, i, m);
      assert items[n + m] == ItemOf(SectorEntry(sec, m));
    }
  }

  /** sec is the content of the directory's sector i. */
  ghost predicate SectorIsAt(b: Bpb, flat: seq<Sector>, cs: seq<nat>, i: nat, sec: Sector) {
    && b.sectorSize >= 32 && b.clusterSize >= 1 && Quot(i, b.clusterSize) < |cs| && cs[Quot(i, b.clusterSize)] >= 2
    && FileSector(b, cs, i) < |flat| && flat[FileSector(b, cs, i)] == sec
  }

  /** fat_fillDirentryInfo up to its records, for a name that is not there: the entries of the
      directory in order, up to its end or 1024 of them. */
  method ScanDirectory(vol: Volume, startCluster: nat, ghost cs: seq<nat>) returns (items: seq<Item>)
    requires vol.Valid() && IsChain(vol.T(), vol.bpb.EndMark(), cs) && IsFile(vol.bpb, vol.cache.flat, cs)
    requires |cs| < MAX_DIR_CLUSTER && cs[0] == startCluster
    requires vol.lastChainCluster == startCluster ==> vol.HoldsChunk(cs, 0, vol.lastChainResult)
    modifies vol`lastChainCluster, vol`lastChainResult, vol.cbuf, vol.cache.Repr()
    ensures vol.Valid() && vol.cache.flat == old(vol.cache.flat) && Scanned(vol.bpb, vol.cache.flat, cs, items)
    ensures vol.lastChainCluster == startCluster && vol.HoldsChunk(cs, 0, vol.lastChainResult)
  {
    hide SectorCache.Cache.Valid, Times, Quot, Rem, Table, Distinct, InData, LongNames.Kind, ItemOf, EntryAt, SectorEntry;
    var b := vol.bpb;
    var per := b.sectorSize / ENTRY;
    assert b.sectorSize == ENTRY * per;
    ghost var f := vol.cache.flat;
    var chainSize := vol.GetClusterChain(startCluster, true, cs, 0);
    assert vol.cbuf[..chainSize] == cs;
    forall k | 0 <= k < |cs|
      ensures cs[k] >= 2
    {
      InDataAt(b, |f|, cs, k);
    }
    var startSector: int := ClusterSector(b, startCluster);
    var dirSector := Times(chainSize, b.clusterSize);
    FirstSector(b, cs);
    TimesZero(per);
    AtLeastOne(b, |cs|);
    items := [];
    var i, cont := 0, true;
    while i < dirSector && cont
      invariant vol.Valid() && vol.cache.flat == f && 0 <= i <= dirSector && vol.HoldsChunk(cs, 0, vol.lastChainResult)
      invariant vol.lastChainCluster == startCluster
      invariant Reads(b, f, cs, items)
      invariant cont ==> forall j :: 0 <= j < |items| ==> LongNames.Kind(EntryAt(b, f, cs, j)) != 0
      invariant cont ==> |items| == if Times(i, per) < DIRENTRY_COUNT then Times(i, per) else DIRENTRY_COUNT
      invariant !cont ==> |items| > 0 && LongNames.Kind(EntryAt(b, f, cs, |items| - 1)) == 0
      invariant cont && i < dirSector ==> SectorIs(b, cs, startSector, i)
      decreases dirSector - i
    {
      SectorInside(b, f, cs, startSector, i);
      var p := vol.cache.ReadSector(startSector + i);
      ghost var items0 := items;
      var sec := vol.cache.sectorBuf[p];
      items, cont := ScanSector(sec, per, items);
      SectorRead(b, f, cs, items0, items, cont, i, sec);
      startSector := NextSector(vol, startSector, i, chainSize, cs);
      NextRow(i, per);
      i := i + 1;
    }
  }

  lemma AtLeastOne(b: Bpb, n: nat)
    requires n > 0 && b.clusterSize >= 1 && b.sectorSize >= ENTRY
    ensures Times(n, b.clusterSize) > 0 && EntryCount(b, n) > 0
  {
    hide Times;
    TimesApart(0, n, b.clusterSize);
    TimesApart(0, Times(n, b.clusterSize), b.sectorSize / ENTRY);
  }

  lemma SectorInside(b: Bpb, f: seq<Sector>, cs: seq<nat>, startSector: int, i: nat)
    requires IsFile(b, f, cs) && SectorIs(b, cs, startSector, i)
    ensures 0 <= startSector + i < |f| && SectorIsAt(b, f, cs, i, f[startSector + i]) && |f[startSector + i]| == b.sectorSize
  {
    hide Times, Quot, Rem, Distinct;
    InDataAt(b, |f|, cs, Quot(i, b.clusterSize));
  }

  // ----- live entries -----

  /** Entry j is in use: no entry up to it ends the directory, and it is not deleted. */
  ghost predicate Live(b: Bpb, flat: seq<Sector>, cs: seq<nat>, j: nat) {
    && IsFile(b, flat, cs) && j < EntryCount(b, |cs|) && LongNames.Kind(EntryAt(b, flat, cs, j)) != 3
    && forall k :: 0 <= k <= j ==> LongNames.Kind(EntryAt(b, flat, cs, k)) != 0
  }

  /** A range with no live record holds a live entry only behind the last record there is room for. */
  lemma SafeRange(b: Bpb, flat: seq<Sector>, cs: seq<nat>, items: seq<Item>, mask: seq<Byte>, record: seq<Byte>, at: nat, n: nat, j: nat)
    requires Scanned(b, flat, cs, items) && record == Records(items, mask) && NothingLive(record, at, n)
    requires at <= j < at + n && Live(b, flat, cs, j)
    ensures |items| == DIRENTRY_COUNT <= j
  {
    hide LongNames.Kind, ItemOf, RecordOf, EntryAt, IsFile, EntryCount;
    if j < |items| {
      assert record[j] == RecordOf(items, mask, j) && Empty(record[j]);
      EmptyIsFree(items, mask, j, EntryAt(b, flat, cs, j));
    }
  }
}
