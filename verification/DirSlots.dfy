/** Finding room for directory entries and storing them (iop/usb_mass/fat_write.c). */
module DirSlots {
  import opened Arith
  import opened Bytes
  import opened FatRecords
  import opened FatChains
  import opened FatFileView
  import opened FatVolume
  import SectorCache

  const ENTRY := 32

  /** A record of a deleted entry, or of the end of the directory. */
  predicate Empty(r: Byte) {
    r % 4 == 0
  }

  /** No live entry lies in [at, at+n): what is not empty there is past the last record. */
  ghost predicate NothingLive(entry: seq<Byte>, at: nat, n: nat) {
    forall k :: at <= k < at + n && k < |entry| ==> Empty(entry[k])
  }

  /** A slot: a run of empty records between occupied ones, or from the start on. */
  ghost predicate Slot(entry: seq<Byte>, a: nat, b: nat) {
    && a < b < |entry| && (forall k :: a <= k < b ==> Empty(entry[k])) && !Empty(entry[b])
    && (a == 0 || !Empty(entry[a - 1]))
  }

  /** A slot of exactly this size. */
  ghost predicate Tight(entry: seq<Byte>, size: nat, a: nat) {
    Slot(entry, a, a + size)
  }

  /** A larger one. */
  ghost predicate Loose(entry: seq<Byte>, size: nat, a: nat, b: nat) {
    Slot(entry, a, b) && b - a > size
  }

  ghost predicate HasSlot(entry: seq<Byte>, size: nat) {
    (exists a: nat :: Tight(entry, size, a)) || exists a: nat, b: nat :: Loose(entry, size, a, b)
  }

  /** The first tight slot; without one the end of the first loose slot; without that the last
      record if it is empty, or behind it. */
  ghost predicate Chosen(entry: seq<Byte>, size: nat, index: nat)
    requires |entry| > 0
  {
    if exists a: nat :: Tight(entry, size, a) then
      Tight(entry, size, index) && forall a: nat :: 0 <= a < index ==> !Tight(entry, size, a)
    else if exists a: nat, b: nat :: Loose(entry, size, a, b) then
      LooseAt(entry, size, index)
    else index == if Empty(entry[|entry| - 1]) then |entry| - 1 else |entry|
  }

  /** No loose slot ends before b. */
  ghost predicate FirstLoose(entry: seq<Byte>, size: nat, b: nat) {
    forall a: nat, c: nat :: Loose(entry, size, a, c) ==> c >= b
  }

  /** index is the place in the first loose slot. */
  ghost predicate LooseAt(entry: seq<Byte>, size: nat, index: nat) {
    exists a: nat, b: nat :: Loose(entry, size, a, b) && index == b - size && FirstLoose(entry, size, b)
  }

  lemma SlotUnique(entry: seq<Byte>, a: nat, c: nat, b: nat)
    requires Slot(entry, a, b) && Slot(entry, c, b)
    ensures a == c
  {
  }

  /** What is chosen holds nothing live, and lies before the last record exactly when there is a slot. */
  lemma ChosenIsFree(entry: seq<Byte>, size: nat, index: nat)
    requires |entry| > 0 && size > 0 && Chosen(entry, size, index)
    ensures index <= |entry| && NothingLive(entry, index, size)
    ensures HasSlot(entry, size) ==> index + size < |entry|
    ensures !HasSlot(entry, size) ==> index == if Empty(entry[|entry| - 1]) then |entry| - 1 else |entry|
  {
  }

  /** The search after the first i records. */
  ghost predicate Searched(entry: seq<Byte>, size: nat, i: nat, slotStart: int, slotSize: nat, tight: int, loose: int) {
    && i <= |entry|
    && (slotStart < 0 ==> slotSize == 0 && (i == 0 || !Empty(entry[i - 1])))
    && (slotStart >= 0 ==> slotStart + slotSize == i && slotSize > 0 && (forall k :: slotStart <= k < i ==> Empty(entry[k]))
                           && (slotStart == 0 || !Empty(entry[slotStart - 1])))
    && (tight < 0 ==> forall a: nat :: Tight(entry, size, a) ==> a + size >= i)
    && (tight >= 0 ==> Tight(entry, size, tight) && forall a: nat :: 0 <= a < tight ==> !Tight(entry, size, a))
    && (loose < 0 ==> FirstLoose(entry, size, i))
    && (loose >= 0 ==> LooseAt(entry, size, loose))
  }

  lemma SearchedEmpty(entry: seq<Byte>, size: nat, i: nat, slotStart: int, slotSize: nat, tight: int, loose: int)
    requires Searched(entry, size, i, slotStart, slotSize, tight, loose) && i < |entry| && Empty(entry[i]) && size > 0
    ensures Searched(entry, size, i + 1, if slotStart >= 0 then slotStart else i, slotSize + 1, tight, loose)
  {
    hide LooseAt;
    assert forall a: nat :: Tight(entry, size, a) ==> a + size != i;
    assert forall a: nat, c: nat :: Loose(entry, size, a, c) ==> c != i;
  }

  lemma SearchedOccupied(entry: seq<Byte>, size: nat, i: nat, slotStart: int, slotSize: nat, tight: int, loose: int)
    requires Searched(entry, size, i, slotStart, slotSize, tight, loose) && i < |entry| && !Empty(entry[i]) && size > 0
    ensures Searched(entry, size, i + 1, -1, 0, if tight < 0 && slotSize == size then slotStart else tight,
                     if loose < 0 && slotSize > size then slotStart + slotSize - size else loose)
  {
    forall a: nat | Slot(entry, a, i)
      ensures a == slotStart
    {
      if slotStart >= 0 {
        SlotUnique(entry, a, slotStart, i);
      }
    }
    assert slotStart >= 0 ==> Slot(entry, slotStart, i);
    if loose < 0 && slotSize > size {
      assert Loose(entry, size, slotStart, i);
    }
    assert forall a: nat :: Tight(entry, size, a) && a + size == i ==> a == slotStart;
    assert forall a: nat, c: nat :: Loose(entry, size, a, c) && c == i ==> a == slotStart;
  }

  lemma SearchDone(entry: seq<Byte>, size: nat, i: nat, slotStart: int, slotSize: nat, tight: int, loose: int)
    requires Searched(entry, size, i, slotStart, slotSize, tight, loose) && |entry| > 0 && size > 0
    requires i == |entry| || (tight >= 0 && loose >= 0)
    ensures Chosen(entry, size, if tight >= 0 then tight else if loose >= 0 then loose
                                else if Empty(entry[|entry| - 1]) then |entry| - 1 else |entry|)
  {
  }

  /** getDirentryStoreOffset: a tight slot, else a loose one, else the end of the directory.
      The range it returns holds no live entry. */
  method StoreOffset(entry: seq<Byte>, size: nat) returns (index: nat)
    requires |entry| > 0 && size > 0
    ensures Chosen(entry, size, index)
    ensures index <= |entry| && NothingLive(entry, index, size)
  {
    hide Searched, Chosen, NothingLive;
    var slotStart, slotSize, tightIndex, looseIndex := -1, 0, -1, -1;
    var cont := true;
    var i := 0;
    SearchStarts(entry, size);
    while i < |entry| && cont
      invariant 0 <= i <= |entry| && Searched(entry, size, i, slotStart, slotSize, tightIndex, looseIndex)
      invariant !cont ==> tightIndex >= 0 && looseIndex >= 0
      decreases |entry| - i
    {
      if entry[i] % 4 == 0 {
        SearchedEmpty(entry, size, i, slotStart, slotSize, tightIndex, looseIndex);
        if slotStart >= 0 {
          slotSize := slotSize + 1;
        } else {
          StartsFresh(entry, size, i, slotStart, slotSize, tightIndex, looseIndex);
          slotStart, slotSize := i, 1;
        }
      } else {
        SearchedOccupied(entry, size, i, slotStart, slotSize, tightIndex, looseIndex);
        if tightIndex < 0 && slotSize == size {
          tightIndex := slotStart;
        }
        if looseIndex < 0 && slotSize > size {
          looseIndex := slotStart + slotSize - size;
        }
        if tightIndex >= 0 && looseIndex >= 0 {
          cont := false;
        }
        slotStart, slotSize := -1, 0;
      }
      i := i + 1;
    }
    SearchDone(entry, size, i, slotStart, slotSize, tightIndex, looseIndex);
    index := if tightIndex >= 0 then tightIndex else if looseIndex >= 0 then looseIndex
             else if entry[|entry| - 1] % 4 == 0 then |entry| - 1 else |entry|;
    ChosenIsFree(entry, size, index);
  }

  lemma SearchStarts(entry: seq<Byte>, size: nat)
    requires size > 0
    ensures Searched(entry, size, 0, -1, 0, -1, -1)
  {
  }

  lemma StartsFresh(entry: seq<Byte>, size: nat, i: nat, slotStart: int, slotSize: nat, tight: int, loose: int)
    requires Searched(entry, size, i, slotStart, slotSize, tight, loose) && slotStart < 0
    ensures slotSize == 0
  {
  }

  /** Sectors that n entries need. */
  function SectorsFor(n: nat, perSector: nat): nat
    requires perSector > 0
  {
    if Rem(n, perSector) > 0 then Quot(n, perSector) + 1 else Quot(n, perSector)
  }

  /** The decision of enlargeDirentryClusterSpace: append a cluster or not. */
  predicate Enlarges(entryCount: nat, entryIndex: nat, size: nat, perSector: nat, dirSectors: nat)
    requires perSector > 0
  {
    entryIndex + size > entryCount && SectorsFor(entryIndex + size, perSector) > dirSectors
  }

  /** One cluster more is always enough for the entries of one name (at most 10 long-name
      entries and a short one), and without it they fit already. */
  lemma OneClusterSuffices(entryCount: nat, entryIndex: nat, size: nat, perSector: nat, dirSectors: nat, clusterSize: nat)
    requires perSector >= 16 && size <= 11 && clusterSize >= 1
    requires entryIndex <= entryCount <= Times(dirSectors, perSector)
    ensures entryIndex + size <=
            Times(dirSectors + (if Enlarges(entryCount, entryIndex, size, perSector, dirSectors) then clusterSize else 0), perSector)
  {
    hide Times, Quot, Rem;
    var n := entryIndex + size;
    QuotRem(n, perSector);
    if Enlarges(entryCount, entryIndex, size, perSector, dirSectors) {
      TimesApart(dirSectors, dirSectors + clusterSize, perSector);
    } else if n > entryCount {
      if Rem(n, perSector) > 0 {
        TimesApart(Quot(n, perSector), dirSectors, perSector);
      } else {
        TimesMonotone(Quot(n, perSector), dirSectors, perSector);
      }
    }
  }

  // ----- storing the entries -----

  lemma {:induction false} TimesScale(n: nat, l: nat)
    ensures Times(n, ENTRY * l) == ENTRY * Times(n, l)
  {
    if n > 0 {
      TimesScale(n - 1, l);
    }
  }

  /** Entries of a sector that lie before entry x of the directory. */
  function Upto(x: nat, j: nat, perSector: nat): (r: nat)
    ensures r <= perSector
  {
    if x <= j then 0 else if x - j < perSector then x - j else perSector
  }

  /** The inner loop of saveDirentry: overwrite the entries of this sector that are in the range. */
  method PatchSector(sec: Sector, j0: nat, entryIndex: nat, end: nat, dbuf: seq<Byte>, perSector: nat)
    returns (patched: Sector, writeFlag: bool, last: int)
    requires |sec| == ENTRY * perSector && entryIndex < end && |dbuf| >= ENTRY * (end - entryIndex)
    ensures var lo, hi := Upto(entryIndex, j0, perSector), Upto(end, j0, perSector);
      && lo <= hi && (writeFlag <==> lo < hi)
      && (lo < hi ==>
            && j0 + lo >= entryIndex
            && patched == sec[..ENTRY * lo] + dbuf[ENTRY * (j0 + lo - entryIndex)..ENTRY * (j0 + hi - entryIndex)] + sec[ENTRY * hi..])
      && (lo == hi ==> patched == sec)
    ensures last == if j0 < end <= j0 + perSector then ENTRY * (end - 1 - j0) else -1
  {
    ghost var lo, hi := Upto(entryIndex, j0, perSector), Upto(end, j0, perSector);
    patched, writeFlag, last := sec, false, -1;
    var m, j := 0, j0;
    while m < perSector
      invariant 0 <= m <= perSector && j == j0 + m && |patched| == |sec|
      invariant forall k :: 0 <= k < |sec| ==>
                  patched[k] == if ENTRY * lo <= k < ENTRY * hi && k < ENTRY * m then dbuf[k + ENTRY * (j0 - entryIndex)] else sec[k]
      invariant writeFlag <==> lo < hi && lo < m
      invariant last == if j0 < end <= j0 + m then ENTRY * (end - 1 - j0) else -1
    {
      if entryIndex <= j < end {
        patched := patched[..ENTRY * m] + dbuf[ENTRY * (j - entryIndex)..ENTRY * (j - entryIndex) + ENTRY] + patched[ENTRY * m + ENTRY..];
        writeFlag := true;
        if j == end - 1 {
          last := ENTRY * m;
        }
      }
      m, j := m + 1, j + 1;
    }
  }

  /** Entries of the range that lie before entry j. */
  function Done(j: nat, entryIndex: nat, end: nat): (n: nat)
    requires entryIndex < end
    ensures n <= end - entryIndex
  {
    if j <= entryIndex then 0 else if j < end then j - entryIndex else end - entryIndex
  }

  /** What has been stored before entry j. */
  ghost predicate StoredBefore(b: Bpb, f: seq<Sector>, g: seq<Sector>, cs: seq<nat>, dbuf: seq<Byte>, entryIndex: nat, end: nat,
                               j: nat)
    requires entryIndex < end && |dbuf| >= ENTRY * (end - entryIndex)
  {
    Written(b, f, g, cs, ENTRY * entryIndex, dbuf[..ENTRY * Done(j, entryIndex, end)])
  }

  /** One round of the sector loop of saveDirentry. */
  method SaveSector(vol: Volume, theSector: nat, dbuf: seq<Byte>, entryIndex: nat, end: nat, j0: nat, ghost f: seq<Sector>,
                    ghost cs: seq<nat>, ghost k: nat, ghost i: nat)
    returns (j: nat, last: int)
    requires vol.Valid() && k < |cs| && cs[k] >= 2 && i < vol.bpb.clusterSize
    requires theSector == ClusterSector(vol.bpb, cs[k]) + i
    requires entryIndex < end && |dbuf| >= ENTRY * (end - entryIndex)
    requires j0 == Times(Times(k, vol.bpb.clusterSize) + i, vol.bpb.sectorSize / ENTRY)
    requires StoredBefore(vol.bpb, f, vol.cache.flat, cs, dbuf, entryIndex, end, j0)
    modifies vol.cache.Repr()
    ensures vol.Valid() && j == j0 + vol.bpb.sectorSize / ENTRY
    ensures StoredBefore(vol.bpb, f, vol.cache.flat, cs, dbuf, entryIndex, end, j)
    ensures last == if j0 < end <= j then ENTRY * (end - 1 - j0) else -1
  {
    hide SectorCache.Cache.Valid, Times, Written, Plain;
    ghost var g := vol.cache.flat;
    var perSector := vol.bpb.sectorSize / ENTRY;
    assert vol.bpb.sectorSize == ENTRY * perSector;
    SectorOnDisk(vol.bpb, f, vol.cache.flat, cs, dbuf, entryIndex, end, j0, k, i);
    var p := vol.cache.ReadSector(theSector);
    var sec := vol.cache.sectorBuf[p];
    var patched, writeFlag;
    patched, writeFlag, last := PatchSector(sec, j0, entryIndex, end, dbuf, perSector);
    StoreSector(vol.bpb, f, vol.cache.flat, cs, dbuf, entryIndex, end, j0, k, i);
    if writeFlag {
      var _ := vol.cache.Store(p, theSector, patched);
    }
    j := j0 + perSector;
    StillOnDisk(vol.bpb, f, vol.cache.flat, cs, dbuf, entryIndex, end, j);
    if writeFlag {
      DataKeepsPlain(vol.bpb, g, theSector, patched);
    }
  }

  lemma SectorOnDisk(b: Bpb, f: seq<Sector>, g: seq<Sector>, cs: seq<nat>, dbuf: seq<Byte>, entryIndex: nat, end: nat, j: nat,
                     k: nat, i: nat)
    requires entryIndex < end && |dbuf| >= ENTRY * (end - entryIndex) && StoredBefore(b, f, g, cs, dbuf, entryIndex, end, j)
    requires k < |cs| && cs[k] >= 2 && i < b.clusterSize
    ensures b.sectorSize >= 32 && ClusterSector(b, cs[k]) + i < |g| && |g[ClusterSector(b, cs[k]) + i]| == b.sectorSize
  {
  }

  lemma StillOnDisk(b: Bpb, f: seq<Sector>, g: seq<Sector>, cs: seq<nat>, dbuf: seq<Byte>, entryIndex: nat, end: nat, j: nat)
    requires entryIndex < end && |dbuf| >= ENTRY * (end - entryIndex) && StoredBefore(b, f, g, cs, dbuf, entryIndex, end, j)
    ensures OnDisk(b, g)
  {
  }

  /** Storing the entries of one sector extends what has been stored. */
  lemma StoreSector(b: Bpb, f: seq<Sector>, g: seq<Sector>, cs: seq<nat>, dbuf: seq<Byte>, entryIndex: nat, end: nat, j0: nat,
                    k: nat, i: nat)
    requires entryIndex < end && |dbuf| >= ENTRY * (end - entryIndex) && StoredBefore(b, f, g, cs, dbuf, entryIndex, end, j0)
    requires k < |cs| && cs[k] >= 2 && i < b.clusterSize && b.sectorSize % ENTRY == 0 && b.sectorSize >= 32
    requires j0 == Times(Times(k, b.clusterSize) + i, b.sectorSize / ENTRY)
    ensures ClusterSector(b, cs[k]) + i < |g| && |g[ClusterSector(b, cs[k]) + i]| == b.sectorSize
    ensures var perSector := b.sectorSize / ENTRY; var s := ClusterSector(b, cs[k]) + i;
      var lo, hi := Upto(entryIndex, j0, perSector), Upto(end, j0, perSector);
      && (lo < hi ==>
            StoredBefore(b, f, g[s := g[s][..ENTRY * lo] + dbuf[ENTRY * (j0 + lo - entryIndex)..ENTRY * (j0 + hi - entryIndex)] + g[s][ENTRY * hi..]],
                         cs, dbuf, entryIndex, end, j0 + perSector))
      && (lo == hi ==> StoredBefore(b, f, g, cs, dbuf, entryIndex, end, j0 + perSector))
  {
    hide Times, Written;
    var perSector := b.sectorSize / ENTRY;
    assert b.sectorSize == ENTRY * perSector;
    var lo, hi := Upto(entryIndex, j0, perSector), Upto(end, j0, perSector);
    SectorOnDisk(b, f, g, cs, dbuf, entryIndex, end, j0, k, i);
    TimesScale(Times(k, b.clusterSize) + i, perSector);
    if lo < hi {
      var from, to := ENTRY * (j0 + lo - entryIndex), ENTRY * (j0 + hi - entryIndex);
      assert from == ENTRY * Done(j0, entryIndex, end) && to == ENTRY * Done(j0 + perSector, entryIndex, end);
      WriteOneSector(b, f, g, cs, ENTRY * entryIndex, dbuf[..from], k, i, ENTRY * lo, dbuf[from..to]);
      assert dbuf[..from] + dbuf[from..to] == dbuf[..to];
    } else {
      assert Done(j0, entryIndex, end) == Done(j0 + perSector, entryIndex, end);
    }
  }

  lemma InDataAt(b: Bpb, size: nat, cs: seq<nat>, k: nat)
    requires b.sectorSize >= 32 && InData(b, size, cs) && k < |cs|
    ensures cs[k] >= 2
  {
  }

  lemma NothingStored(b: Bpb, f: seq<Sector>, cs: seq<nat>, dbuf: seq<Byte>, entryIndex: nat, end: nat)
    requires IsFile(b, f, cs) && entryIndex < end && |dbuf| >= ENTRY * (end - entryIndex) && b.sectorSize % ENTRY == 0
    requires end <= Times(Times(|cs|, b.clusterSize), b.sectorSize / ENTRY)
    ensures StoredBefore(b, f, f, cs, dbuf, entryIndex, end, 0)
  {
    hide Times, IsFile;
    TimesScale(Times(|cs|, b.clusterSize), b.sectorSize / ENTRY);
    assert b.sectorSize == ENTRY * (b.sectorSize / ENTRY);
    assert dbuf[..0] == [];
    WrittenNothing(b, f, cs, ENTRY * entryIndex);
  }

  /** retSector and retOffset are the place of the last entry before `end`, in sector `at` of the directory. */
  ghost predicate LastAt(b: Bpb, cs: seq<nat>, at: nat, end: nat, retSector: nat, retOffset: nat) {
    && b.sectorSize >= 32 && b.clusterSize >= 1 && end > 0
    && Quot(at, b.clusterSize) < |cs| && cs[Quot(at, b.clusterSize)] >= 2
    && retSector == ClusterSector(b, cs[Quot(at, b.clusterSize)]) + Rem(at, b.clusterSize)
    && ENTRY * (end - 1) == Times(at, b.sectorSize) + retOffset && retOffset < b.sectorSize
  }

  /** Sector i of the directory. */
  ghost predicate SectorIs(b: Bpb, cs: seq<nat>, startSector: int, i: nat) {
    && b.sectorSize >= 32 && b.clusterSize >= 1
    && Quot(i, b.clusterSize) < |cs| && cs[Quot(i, b.clusterSize)] >= 2
    && startSector + i == ClusterSector(b, cs[Quot(i, b.clusterSize)]) + Rem(i, b.clusterSize)
  }

  /** At the end of a cluster, the base for the sectors of the next one. Behind the last cluster
      of the chain the value is not used. */
  method NextSector(vol: Volume, startSector: int, i: nat, chainSize: nat, ghost cs: seq<nat>) returns (next: int)
    requires vol.bpb.sectorSize >= 32 && vol.bpb.clusterSize >= 1 && vol.cbuf.Length == MAX_DIR_CLUSTER
    requires |cs| == chainSize < MAX_DIR_CLUSTER && vol.cbuf[..chainSize] == cs && forall k :: 0 <= k < |cs| ==> cs[k] >= 2
    requires SectorIs(vol.bpb, cs, startSector, i)
    ensures i + 1 < Times(chainSize, vol.bpb.clusterSize) ==> SectorIs(vol.bpb, cs, next, i + 1)
  {
    hide Times, Quot, Rem;
    var spc := vol.bpb.clusterSize;
    next := startSector;
    NextOf(i, spc);
    QuotBelow(i + 1, chainSize, spc);
    if Rem(i, spc) == spc - 1 {
      var c := vol.cbuf[Quot(i, spc) + 1];
      next := (if c >= 2 then ClusterSector(vol.bpb, c) else 0) - (i + 1);
      assert Quot(i, spc) + 1 < chainSize ==> vol.cbuf[..chainSize][Quot(i, spc) + 1] == c;
    }
  }

  lemma NextOf(i: nat, l: nat)
    requires l > 0
    ensures Rem(i, l) < l - 1 ==> Quot(i + 1, l) == Quot(i, l) && Rem(i + 1, l) == Rem(i, l) + 1
    ensures Rem(i, l) == l - 1 ==> Quot(i + 1, l) == Quot(i, l) + 1 && Rem(i + 1, l) == 0
  {
    hide Quot, Rem;
    QuotRem(i, l);
    if Rem(i, l) < l - 1 {
      QuotRemOf(Quot(i, l), Rem(i, l) + 1, l);
    } else {
      QuotRemOf(Quot(i, l) + 1, 0, l);
    }
  }

  lemma FirstSector(b: Bpb, cs: seq<nat>)
    requires b.sectorSize >= 32 && b.clusterSize >= 1 && |cs| > 0 && cs[0] >= 2
    ensures SectorIs(b, cs, ClusterSector(b, cs[0]), 0)
  {
  }

  /** saveDirentry in a directory made of clusters: exactly the entries from entryIndex on are
      replaced, also across sectors and clusters, and the place of the last one is returned. */
  method SaveDirentry(vol: Volume, startCluster: nat, dbuf: seq<Byte>, entrySize: nat, entryIndex: nat, ghost cs: seq<nat>)
    returns (j: nat, retSector: nat, retOffset: nat, ghost at: nat)
    requires vol.Valid() && IsChain(vol.T(), vol.bpb.EndMark(), cs) && IsFile(vol.bpb, vol.cache.flat, cs)
    requires |cs| < MAX_DIR_CLUSTER && cs[0] == startCluster
    requires vol.lastChainCluster == startCluster ==> vol.HoldsChunk(cs, 0, vol.lastChainResult)
    requires entrySize > 0 && |dbuf| == ENTRY * entrySize
    requires entryIndex + entrySize <= Times(Times(|cs|, vol.bpb.clusterSize), vol.bpb.sectorSize / ENTRY)
    modifies vol`lastChainCluster, vol`lastChainResult, vol.cbuf, vol.cache.Repr()
    ensures vol.Valid() && j >= entryIndex + entrySize
    ensures Written(vol.bpb, old(vol.cache.flat), vol.cache.flat, cs, ENTRY * entryIndex, dbuf)
    ensures at < Times(|cs|, vol.bpb.clusterSize) && LastAt(vol.bpb, cs, at, entryIndex + entrySize, retSector, retOffset)
    ensures vol.lastChainCluster == startCluster && vol.HoldsChunk(cs, 0, vol.lastChainResult)
  {
    hide SectorCache.Cache.Valid, Times, Quot, Rem, Table, Written, Distinct, InData;
    var b := vol.bpb;
    var perSector := b.sectorSize / ENTRY;
    assert b.sectorSize == ENTRY * perSector;
    var end := entryIndex + entrySize;
    ghost var f := vol.cache.flat;
    var chainSize := vol.GetClusterChain(startCluster, true, cs, 0);
    assert vol.cbuf[..chainSize] == cs;
    forall k | 0 <= k < |cs|
      ensures cs[k] >= 2
    {
      InDataAt(b, |f|, cs, k);
    }
    var startSector: int := ClusterSector(b, startCluster);
    var dirSector := Times(chainSize, b.clusterSize);
    NothingStored(b, f, cs, dbuf, entryIndex, end);
    FirstSector(b, cs);
    TimesZero(perSector);
    j, retSector, retOffset := 0, 0, 0;
    var i := 0;
    var cont := true;
    at := 0;
    while i < dirSector && cont
      invariant vol.Valid() && 0 <= i <= dirSector && vol.HoldsChunk(cs, 0, vol.lastChainResult) && j == Times(i, perSector)
      invariant vol.lastChainCluster == startCluster
      invariant StoredBefore(b, f, vol.cache.flat, cs, dbuf, entryIndex, end, j)
      invariant i < dirSector ==> SectorIs(b, cs, startSector, i)
      invariant cont <==> j < end
      invariant j >= end ==> at < dirSector && LastAt(b, cs, at, end, retSector, retOffset)
      decreases dirSector - i
    {
      var theSector := startSector + i;
      QuotRem(i, b.clusterSize);
      TimesScale(i, perSector);
      NextRow(i, perSector);
      var j0 := j;
      var last;
      j, last := SaveSector(vol, theSector, dbuf, entryIndex, end, j0, f, cs, Quot(i, b.clusterSize), Rem(i, b.clusterSize));
      if last >= 0 {
        retSector, retOffset := theSector, last;
        at := i;
      }
      startSector := NextSector(vol, startSector, i, chainSize, cs);
      if j >= end {
        cont := false;
      }
      i := i + 1;
    }
    assert dbuf[..ENTRY * entrySize] == dbuf;
    assert i == dirSector ==> j == Times(dirSector, perSector);
  }

  lemma TimesZero(l: nat)
    ensures Times(0, l) == 0
  {
  }

  lemma NextRow(i: nat, l: nat)
    ensures Times(i + 1, l) == Times(i, l) + l
  {
  }
}
