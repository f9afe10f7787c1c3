/** Creating a directory entry: scan, number, find room, enlarge, store (fat_modifyDirSpace and
    enlargeDirentryClusterSpace, iop/usb_mass/fat_write.c). */
module DirCreate {
  import opened Arith
  import opened Bytes
  import opened FatRecords
  import opened FatChains
  import opened FatFileView
  import opened FatVolume
  import opened FatFile
  import opened DirSlots
  import opened DirScan
  import opened DirClear
  import ShortNames
  import LongNames
  import FatHandle
  import CacheInvariant
  import SectorCache

  // ----- a directory that can be worked on -----

  /** The directory's clusters, with a memo that serves it, and an allocator in order. */
  ghost predicate DirReady(vol: Volume, startCluster: nat, cs: seq<nat>)
    reads vol, vol.clStack, vol.cbuf, vol.cache, vol.cache.rec, vol.cache.sectorBuf
  {
    && vol.Valid() && IsChain(vol.T(), vol.bpb.EndMark(), cs) && InData(vol.bpb, |vol.cache.flat|, cs)
    && |cs| < MAX_DIR_CLUSTER && cs[0] == startCluster && FatHandle.CanAllocate(vol)
    && (vol.lastChainCluster == startCluster ==> vol.HoldsChunk(cs, 0, vol.lastChainResult))
  }

  /** The directory cs of disk f is the front of the directory ds of disk g, and the rest is blank. */
  ghost predicate Extended(b: Bpb, f: seq<Sector>, cs: seq<nat>, g: seq<Sector>, ds: seq<nat>) {
    && IsFile(b, f, cs) && IsFile(b, g, ds) && cs <= ds && |f| == |g| && Capacity(b, |cs|) <= Capacity(b, |ds|)
    && (forall p :: 0 <= p < Capacity(b, |cs|) ==> FileByte(b, g, ds, p) == FileByte(b, f, cs, p))
    && (forall p :: Capacity(b, |cs|) <= p < Capacity(b, |ds|) ==> FileByte(b, g, ds, p) == 0)
  }

  lemma ExtendedByNone(b: Bpb, f: seq<Sector>, cs: seq<nat>, g: seq<Sector>)
    requires IsFile(b, f, cs) && SameOutsideFat(b, f, g) && OnDisk(b, g)
    ensures Extended(b, f, cs, g, cs)
  {
    hide Times, FileByte;
    forall p | 0 <= p < Capacity(b, |cs|)
      ensures FileByte(b, g, cs, p) == FileByte(b, f, cs, p)
    {
      TableChangeKeepsFile(b, f, g, cs, cs, p);
    }
  }

  lemma ExtendedTable(b: Bpb, f: seq<Sector>, cs: seq<nat>, g: seq<Sector>, ds: seq<nat>, h: seq<Sector>)
    requires Extended(b, f, cs, g, ds) && SameOutsideFat(b, g, h) && OnDisk(b, h)
    ensures Extended(b, f, cs, h, ds)
  {
    hide Times, FileByte;
    forall p | 0 <= p < Capacity(b, |ds|)
      ensures FileByte(b, h, ds, p) == FileByte(b, g, ds, p)
    {
      TableChangeKeepsFile(b, g, h, ds, ds, p);
    }
  }

  /** Tables that were not touched read the same. */
  lemma TableKept(b: Bpb, f: seq<Sector>, g: seq<Sector>, m: nat)
    requires OnDisk(b, f) && OnDisk(b, g) && |f| == |g| && m < b.fatCount
    requires forall s :: 0 <= s < |f| && s < b.FatStart(b.fatCount) ==> g[s] == f[s]
    ensures Table(b, g, m) == Table(b, f, m)
  {
    hide Times, Quot, Rem;
    forall c | 0 <= c < b.Entries()
      ensures RecordAt(b, g, m, c) == RecordAt(b, f, m, c)
    {
      CopyInside(b, |f|, m, FatSector(b, c));
    }
  }

  // ----- enlarging -----

  /** Disk g is disk f but for the sectors of cluster c, which are blank. */
  ghost predicate ClearedCluster(b: Bpb, f: seq<Sector>, g: seq<Sector>, c: nat) {
    && OnDisk(b, f) && OnDisk(b, g) && |f| == |g| && c >= 2 && ClusterSector(b, c) + b.clusterSize <= |f|
    && (forall s :: 0 <= s < |f| ==>
          g[s] == if ClusterSector(b, c) <= s < ClusterSector(b, c) + b.clusterSize then Blank(b.sectorSize) else f[s])
  }

  /** A blank cluster at the end of the chain extends the directory. */
  lemma ExtendedByOne(b: Bpb, f: seq<Sector>, f1: seq<Sector>, g: seq<Sector>, cs: seq<nat>, c: nat)
    requires IsFile(b, f, cs) && IsFile(b, g, cs + [c]) && SameOutsideFat(b, f, f1) && ClearedCluster(b, f1, g, c)
    ensures Extended(b, f, cs, g, cs + [c])
  {
    hide Times, Quot, Rem, FileByte;
    var ds := cs + [c];
    CapacityGrows(b, |cs|, |ds|);
    forall p | 0 <= p < Capacity(b, |ds|)
      ensures p < Capacity(b, |cs|) ==> FileByte(b, g, ds, p) == FileByte(b, f, cs, p)
      ensures p >= Capacity(b, |cs|) ==> FileByte(b, g, ds, p) == 0
    {
      ExtendedByte(b, f, f1, g, cs, c, p);
    }
  }

  lemma ExtendedByte(b: Bpb, f: seq<Sector>, f1: seq<Sector>, g: seq<Sector>, cs: seq<nat>, c: nat, p: nat)
    requires IsFile(b, f, cs) && IsFile(b, g, cs + [c]) && SameOutsideFat(b, f, f1) && ClearedCluster(b, f1, g, c)
    requires p < Capacity(b, |cs| + 1)
    ensures p < Capacity(b, |cs|) ==> FileByte(b, g, cs + [c], p) == FileByte(b, f, cs, p)
    ensures p >= Capacity(b, |cs|) ==> FileByte(b, g, cs + [c], p) == 0
  {
    hide Times, Quot, Rem, Distinct, InData, SameOutsideFat, ClearedCluster;
    var ds, q := cs + [c], Quot(p, b.sectorSize);
    QuotBelow(p, Times(|ds|, b.clusterSize), b.sectorSize);
    QuotBelow(p, Times(|cs|, b.clusterSize), b.sectorSize);
    QuotBelow(q, |ds|, b.clusterSize);
    QuotBelow(q, |cs|, b.clusterSize);
    QuotRem(q, b.clusterSize);
    var k := Quot(q, b.clusterSize);
    ClusterInside(b, |g|, ds, k);
    if k < |cs| {
      FrontSector(b, f, f1, g, cs, c, k, Rem(q, b.clusterSize));
    } else {
      BlankSector(b, f1, g, c, Rem(q, b.clusterSize));
    }
  }

  lemma FrontSector(b: Bpb, f: seq<Sector>, f1: seq<Sector>, g: seq<Sector>, cs: seq<nat>, c: nat, k: nat, i: nat)
    requires IsFile(b, f, cs) && IsFile(b, g, cs + [c]) && SameOutsideFat(b, f, f1) && ClearedCluster(b, f1, g, c)
    requires k < |cs| && i < b.clusterSize
    ensures cs[k] >= 2 && ClusterSector(b, cs[k]) + i < |f| == |g| && (cs + [c])[k] == cs[k]
    ensures g[ClusterSector(b, cs[k]) + i] == f[ClusterSector(b, cs[k]) + i]
  {
    hide Times, Distinct;
    var ds := cs + [c];
    assert ds[k] == cs[k] && ds[|cs|] == c;
    var s := ClusterSector(b, cs[k]) + i;
    if ClusterSector(b, c) <= s < ClusterSector(b, c) + b.clusterSize {
      SectorsApart(b, g, ds, k, i, |cs|, s - ClusterSector(b, c));
    }
    assert s >= b.DataStart() >= b.FatStart(b.fatCount);
  }

  lemma BlankSector(b: Bpb, f: seq<Sector>, g: seq<Sector>, c: nat, i: nat)
    requires ClearedCluster(b, f, g, c) && i < b.clusterSize
    ensures ClusterSector(b, c) + i < |g| && g[ClusterSector(b, c) + i] == Blank(b.sectorSize)
  {
  }

  /** Outside the tables only sectors of the clusters ds differ. */
  ghost predicate OthersKept(b: Bpb, f: seq<Sector>, g: seq<Sector>, ds: seq<nat>) {
    && |f| == |g| && b.sectorSize >= 32
    && (forall s :: 0 <= s < |f| && !(b.FatStart(0) <= s < b.FatStart(b.fatCount)) && !Owns(b, ds, s) ==> g[s] == f[s])
  }

  lemma SectorsForFits(n: nat, per: nat, d: nat)
    requires per > 0
    ensures SectorsFor(n, per) <= d <==> n <= Times(d, per)
  {
    hide Times, Quot, Rem;
    QuotRem(n, per);
    if Quot(n, per) < d {
      TimesApart(Quot(n, per), d, per);
    } else if d < Quot(n, per) {
      TimesApart(d, Quot(n, per), per);
    }
  }

  /** Clearing cluster c changed nothing else. */
  ghost predicate Spared(b: Bpb, l: nat, c: nat, head: Fate, tail: Fate)
    requires b.sectorSize >= 32 && c >= 2
  {
    (head.Kept? && tail.Kept?) || WholeSlots(l, ClusterSector(b, c), b.clusterSize)
  }

  lemma SparedIsCleared(b: Bpb, f: seq<Sector>, g: seq<Sector>, l: nat, c: nat, head: Fate, tail: Fate)
    requires OnDisk(b, f) && OnDisk(b, g) && l > 0 && c >= 2 && ClusterSector(b, c) + b.clusterSize <= |f|
    requires Cleared(f, g, l, ClusterSector(b, c), b.clusterSize, b.sectorSize, head, tail) && Spared(b, l, c, head, tail)
    ensures ClearedCluster(b, f, g, c)
  {
    hide Times, Block, Blank, ClusterSector;
    var start, n := ClusterSector(b, c), b.clusterSize;
    NoNeighbours(l, start, n);
    SameSlot(l, start, start + n - 1);
    forall s | 0 <= s < |f|
      ensures g[s] == if start <= s < start + n then Blank(b.sectorSize) else f[s]
    {
      if Near(l, start, n, s) && !(start <= s < start + n) {
        if s < start {
          SameSlot(l, s, start);
        } else {
          SameSlot(l, start + n - 1, s);
        }
      }
    }
  }

  /** Clear the new cluster. */
  method ZeroCluster(vol: Volume, c: nat) returns (ghost head: Fate, ghost tail: Fate)
    requires vol.Valid() && c >= 2 && ClusterSector(vol.bpb, c) + vol.bpb.clusterSize <= |vol.cache.flat|
    modifies vol.cache.Repr()
    ensures vol.Shaped() && vol.cache.indexLimit > 0
    ensures Cleared(old(vol.cache.flat), vol.cache.flat, vol.cache.indexLimit, ClusterSector(vol.bpb, c), vol.bpb.clusterSize,
                    vol.bpb.sectorSize, head, tail)
    ensures Spared(vol.bpb, vol.cache.indexLimit, c, head, tail) ==>
              vol.Valid() && ClearedCluster(vol.bpb, old(vol.cache.flat), vol.cache.flat, c)
  {
    hide Times, Cleared, Plain, WholeSlots, CacheInvariant.State.Inv, CacheInvariant.DirtySum;
    ghost var mid;
    head, tail, mid := ClearSectors(vol.cache, ClusterSector(vol.bpb, c), vol.bpb.clusterSize);
    ClearedSize(old(vol.cache.flat), vol.cache.flat, vol.cache.indexLimit, ClusterSector(vol.bpb, c), vol.bpb.clusterSize, vol.bpb.sectorSize,
                head, tail);
    if Spared(vol.bpb, vol.cache.indexLimit, c, head, tail) {
      SparedIsCleared(vol.bpb, old(vol.cache.flat), vol.cache.flat, vol.cache.indexLimit, c, head, tail);
      ClearedPlain(vol.bpb, old(vol.cache.flat), vol.cache.flat, c);
    }
  }

  lemma ClearedPlain(b: Bpb, f: seq<Sector>, g: seq<Sector>, c: nat)
    requires ClearedCluster(b, f, g, c) && Plain(b, f)
    ensures Plain(b, g)
  {
    hide Times, Plain;
    assert ClusterSector(b, c) >= b.DataStart() >= b.FatStart(b.fatCount);
    TimesMonotone(1, b.fatCount, b.fatSize);
    PlainStays(b, f, g);
  }

  lemma ClearedSize(f: seq<Sector>, g: seq<Sector>, l: nat, start: nat, n: nat, size: nat, head: Fate, tail: Fate)
    requires l > 0 && n > 0 && Cleared(f, g, l, start, n, size, head, tail)
    ensures |f| == |g|
  {
  }

  /** The allocation part of enlargeDirentryClusterSpace. f1 is the disk with the cluster linked
      but not yet cleared. If clearing it replaces nothing else, the directory is longer by a blank
      cluster and everything else is as it was. */
  method AddCluster(vol: Volume, currentCluster: nat, ghost startCluster: nat, ghost cs: seq<nat>)
    returns (ret: int, ghost ds: seq<nat>, ghost f1: seq<Sector>, ghost head: Fate, ghost tail: Fate)
    requires DirReady(vol, startCluster, cs) && |cs| + 1 < MAX_DIR_CLUSTER && currentCluster == cs[|cs| - 1]
    modifies vol`lastChainCluster, vol`clStackIndex, vol`clStackLast, vol.clStack, vol.cache.Repr()
    ensures vol.Shaped() && (ret == 1 || ret == -ENOSPC) && (ret < 0 <==> |old(vol.Reserve())| == 0)
    ensures ret < 0 ==> && ds == cs && DirReady(vol, startCluster, cs) && vol.cache.flat == old(vol.cache.flat)
                        && vol.Reserve() == old(vol.Reserve())
    ensures ret == 1 ==> && Added(vol, old(vol.cache.flat), f1, vol.cache.flat, cs, ds, head, tail)
                         && ds[|cs|] in old(vol.Reserve())
    ensures ret == 1 && Spared(vol.bpb, vol.cache.indexLimit, ds[|cs|], head, tail) ==>
              && DirReady(vol, startCluster, ds) && Extended(vol.bpb, old(vol.cache.flat), cs, vol.cache.flat, ds)
              && Grown(old(vol.T()), vol.T(), vol.bpb.EndMark(), cs, |cs| - 1, ds)
              && OthersKept(vol.bpb, old(vol.cache.flat), vol.cache.flat, ds)
              && vol.Reserve() == old(vol.Reserve()) - {ds[|cs|]}
  {
    hide SectorCache.Cache.Valid, Times, Table, FreeStack, Popped, RawAt, Grown, IsChain, InData, Exhausted, FreeInData, Owns,
         ClearedCluster, Extended, TakenTable, Supply, Cleared, OthersKept, Spared;
    ghost var f, t, b, r := vol.cache.flat, vol.T(), vol.bpb, vol.Reserve();
    f1, head, tail := f, Kept, Kept;
    ChainInside(t, b.EndMark(), cs);
    ghost var k: nat := |cs| - 1;
    NotGrown(t, b.EndMark(), cs, k);
    EndInUse(t, t, b.EndMark(), cs, k, cs, k);
    NoSupply(b, f, vol.Stack(), vol.clStackLast);
    var newCluster := vol.GetFreeCluster(currentCluster);
    vol.lastChainCluster := 0;
    ds := cs;
    if newCluster == 0 {
      return -ENOSPC, ds, f1, head, tail;
    }
    f1 := vol.cache.flat;
    ghost var u := vol.T();
    FreeIsData(b, |f|, t, t, newCluster, cs, k);
    assert cs[..k + 1] == cs;
    ds := cs + [newCluster];
    LastIn(b, |f|, ds);
    head, tail := ZeroCluster(vol, newCluster);
    ret := 1;
    if Spared(b, vol.cache.indexLimit, newCluster, head, tail) {
      ChainIsFile(b, f, t, cs);
      TakenIsLinked(t, cs[k], newCluster, b.LastRecord(), b.Modulus());
      GrownOnce(t, t, b.EndMark(), cs, k, cs, newCluster, b.LastRecord());
      ClearedKeeps(b, f1, vol.cache.flat, newCluster);
      FatHandle.GrownKeepsFreeInData(b, |f|, t, u, cs, k, ds);
      ChainIsFile(b, vol.cache.flat, u, ds);
      ExtendedByOne(b, f, f1, vol.cache.flat, cs, newCluster);
      ClearedOthers(b, f, f1, vol.cache.flat, ds, newCluster);
      ClearedSupply(b, f1, vol.cache.flat, newCluster, vol.Stack(), vol.clStackLast);
    }
  }

  /** A cluster has been linked behind the directory and cleared. */
  ghost predicate Added(vol: Volume, f: seq<Sector>, f1: seq<Sector>, g: seq<Sector>, cs: seq<nat>, ds: seq<nat>, head: Fate, tail: Fate) {
    && |cs| > 0 && |ds| == |cs| + 1 && cs <= ds && ds[|cs|] >= 2 && vol.cache.indexLimit > 0 && vol.bpb.sectorSize >= 32
    && vol.bpb.clusterSize > 0
    && vol.TakenOnDisk(f, f1, cs[|cs| - 1], ds[|cs|])
    && Cleared(f1, g, vol.cache.indexLimit, ClusterSector(vol.bpb, ds[|cs|]), vol.bpb.clusterSize, vol.bpb.sectorSize, head, tail)
  }

  lemma ClearedSupply(b: Bpb, f: seq<Sector>, g: seq<Sector>, c: nat, st: seq<nat>, last: nat)
    requires ClearedCluster(b, f, g, c)
    ensures Supply(b, g, st, last) == Supply(b, f, st, last)
  {
    hide Times, Supply;
    assert ClusterSector(b, c) >= b.DataStart() >= b.FatStart(b.fatCount);
    SameSupply(b, f, g, st, last);
  }

  lemma LastIn(b: Bpb, size: nat, ds: seq<nat>)
    requires b.sectorSize >= 32 && InData(b, size, ds) && |ds| > 0
    ensures ds[|ds| - 1] >= 2 && ClusterSector(b, ds[|ds| - 1]) + b.clusterSize <= size
  {
  }

  lemma ClearedKeeps(b: Bpb, f: seq<Sector>, g: seq<Sector>, c: nat)
    requires ClearedCluster(b, f, g, c)
    ensures |f| == |g| && forall m :: 0 <= m < b.fatCount ==> Table(b, g, m) == Table(b, f, m)
  {
    hide Times;
    assert ClusterSector(b, c) >= b.DataStart() >= b.FatStart(b.fatCount);
    forall m | 0 <= m < b.fatCount
      ensures Table(b, g, m) == Table(b, f, m)
    {
      TableKept(b, f, g, m);
    }
  }

  lemma ClearedOthers(b: Bpb, f: seq<Sector>, f1: seq<Sector>, g: seq<Sector>, ds: seq<nat>, c: nat)
    requires SameOutsideFat(b, f, f1) && ClearedCluster(b, f1, g, c) && |ds| > 0 && ds[|ds| - 1] == c
    ensures OthersKept(b, f, g, ds)
  {
    hide Times;
    forall s | 0 <= s < |f| && !Owns(b, ds, s)
      ensures g[s] == f1[s]
    {
      assert !(ClusterSector(b, ds[|ds| - 1]) <= s < ClusterSector(b, ds[|ds| - 1]) + b.clusterSize);
    }
  }

  /** enlargeDirentryClusterSpace: a cluster is added if and only if the entries do not fit. */
  method Enlarge(vol: Volume, startCluster: nat, entryCount: nat, entryIndex: nat, size: nat, ghost cs: seq<nat>)
    returns (ret: int, ghost ds: seq<nat>, ghost f1: seq<Sector>, ghost head: Fate, ghost tail: Fate)
    requires DirReady(vol, startCluster, cs) && |cs| + 1 < MAX_DIR_CLUSTER
    requires 0 < size <= 11 && entryIndex <= entryCount <= EntryCount(vol.bpb, |cs|)
    modifies vol`lastChainCluster, vol`lastChainResult, vol`clStackIndex, vol`clStackLast, vol.cbuf, vol.clStack, vol.cache.Repr()
    ensures vol.Shaped() && (ret == 0 || ret == 1 || ret == -ENOSPC)
    ensures ret == 0 <==> entryIndex + size <= EntryCount(vol.bpb, |cs|)
    ensures ret < 0 <==> entryIndex + size > EntryCount(vol.bpb, |cs|) && |old(vol.Reserve())| == 0
    ensures ret <= 0 ==> && ds == cs && DirReady(vol, startCluster, cs) && vol.cache.flat == old(vol.cache.flat)
                         && vol.Reserve() == old(vol.Reserve())
    ensures ret == 1 ==> && Added(vol, old(vol.cache.flat), f1, vol.cache.flat, cs, ds, head, tail)
                         && ds[|cs|] in old(vol.Reserve()) && entryIndex + size <= EntryCount(vol.bpb, |ds|)
    ensures ret == 1 && Spared(vol.bpb, vol.cache.indexLimit, ds[|cs|], head, tail) ==>
              && DirReady(vol, startCluster, ds) && Extended(vol.bpb, old(vol.cache.flat), cs, vol.cache.flat, ds)
              && Grown(old(vol.T()), vol.T(), vol.bpb.EndMark(), cs, |cs| - 1, ds)
              && OthersKept(vol.bpb, old(vol.cache.flat), vol.cache.flat, ds)
              && vol.Reserve() == old(vol.Reserve()) - {ds[|cs|]}
  {
    hide SectorCache.Cache.Valid, Times, Quot, Rem, Table, FreeStack, Grown, IsChain, InData, Exhausted, FreeInData, Owns,
         Extended, SectorsFor, Supply, Cleared, OthersKept, Spared;
    ret, ds, f1, head, tail := 0, cs, vol.cache.flat, Kept, Kept;
    ghost var t := vol.T();
    ChainInside(t, vol.bpb.EndMark(), cs);
    var i := entryIndex + size;
    if i <= entryCount {
      return;
    }
    var per := vol.bpb.sectorSize / ENTRY;
    var maxSector := SectorsFor(i, per);
    var chainSize := vol.GetClusterChain(startCluster, true, cs, 0);
    assert vol.T() == t;
    var dirSector := Times(chainSize, vol.bpb.clusterSize);
    SectorsForFits(i, per, dirSector);
    if maxSector <= dirSector {
      return;
    }
    OneClusterSuffices(entryCount, entryIndex, size, per, dirSector, vol.bpb.clusterSize);
    TimesAdds(|cs|, 1, vol.bpb.clusterSize);
    TimesOne(vol.bpb.clusterSize);
    var currentCluster := vol.cbuf[chainSize - 1];
    assert currentCluster == vol.cbuf[..chainSize][chainSize - 1];
    ret, ds, f1, head, tail := AddCluster(vol, currentCluster, startCluster, cs);
  }

  // ----- creating the entries -----

  /** What the tables keep: chains that do not share the end of cs are still chains. */
  ghost predicate ChainsKept(t: seq<nat>, u: seq<nat>, endMark: nat, cs: seq<nat>) {
    |cs| > 0 && forall es :: IsChain(t, endMark, es) && cs[|cs| - 1] !in es ==> IsChain(u, endMark, es)
  }

  lemma GrownKeepsChains(t: seq<nat>, u: seq<nat>, endMark: nat, cs: seq<nat>, ds: seq<nat>)
    requires |cs| > 0 && Grown(t, u, endMark, cs, |cs| - 1, ds)
    ensures ChainsKept(t, u, endMark, cs)
  {
  }

  /** fat_getFreeCluster for the new file. */
  method NewFile(vol: Volume, ghost startCluster: nat, ghost ds: seq<nat>) returns (newCluster: nat)
    requires DirReady(vol, startCluster, ds)
    modifies vol`clStackIndex, vol`clStackLast, vol.clStack, vol.cache.Repr()
    ensures DirReady(vol, startCluster, ds) && SameOutsideFat(vol.bpb, old(vol.cache.flat), vol.cache.flat)
    ensures newCluster == 0 <==> |old(vol.Reserve())| == 0
    ensures newCluster == 0 ==> vol.cache.flat == old(vol.cache.flat) && vol.Reserve() == old(vol.Reserve())
    ensures newCluster != 0 ==> newCluster in old(vol.Reserve()) && vol.Reserve() == old(vol.Reserve()) - {newCluster}
    ensures newCluster != 0 ==> 2 <= newCluster < vol.bpb.EndMark() && IsChain(vol.T(), vol.bpb.EndMark(), [newCluster])
    ensures forall es :: IsChain(old(vol.T()), vol.bpb.EndMark(), es) ==>
              IsChain(vol.T(), vol.bpb.EndMark(), es) && (newCluster != 0 ==> newCluster !in es)
  {
    hide SectorCache.Cache.Valid, Times, Table, FreeStack, Popped, RawAt, IsChain, InData, Exhausted, FreeInData, TakenTable, Supply;
    ghost var f, t, b := vol.cache.flat, vol.T(), vol.bpb;
    NoSupply(b, f, vol.Stack(), vol.clStackLast);
    newCluster := vol.GetFreeCluster(0);
    if newCluster != 0 {
      TakenIsLinked(t, 0, newCluster, b.LastRecord(), b.Modulus());
      CreateExtends(t, b.EndMark(), newCluster, b.LastRecord(), [newCluster]);
      forall es | IsChain(t, b.EndMark(), es)
        ensures IsChain(vol.T(), b.EndMark(), es) && newCluster !in es
      {
        CreateExtends(t, b.EndMark(), newCluster, b.LastRecord(), es);
        FreeOffChain(t, b.EndMark(), es, newCluster);
      }
      TakenFree(b, |f|, t, newCluster, b.LastRecord());
    }
  }

  lemma TakenFree(b: Bpb, size: nat, t: seq<nat>, c: nat, last: nat)
    requires b.sectorSize >= 32 && FreeInData(b, size, t) && c < |t| && last > 0
    ensures FreeInData(b, size, t[c := last])
  {
    hide Times;
  }

  /** Directory ds of disk g is directory cs of disk f with the entries in dbuf stored from entry
      `at` on; clusters that were added are blank but for them. */
  ghost predicate Stored(b: Bpb, f: seq<Sector>, cs: seq<nat>, g: seq<Sector>, ds: seq<nat>, at: nat, n: nat, dbuf: seq<Byte>) {
    && IsFile(b, f, cs) && IsFile(b, g, ds) && |dbuf| >= ENTRY * n && at + n <= EntryCount(b, |ds|)
    && EntryCount(b, |cs|) <= EntryCount(b, |ds|)
    && (forall j :: at <= j < at + n ==> EntryAt(b, g, ds, j) == LongNames.EntryOf(dbuf, j - at))
    && (forall j :: 0 <= j < EntryCount(b, |cs|) && !(at <= j < at + n) ==> EntryAt(b, g, ds, j) == EntryAt(b, f, cs, j))
    && (forall j :: EntryCount(b, |cs|) <= j < EntryCount(b, |ds|) && !(at <= j < at + n) ==> EntryAt(b, g, ds, j) == Blank(ENTRY))
  }

  lemma FileSized(b: Bpb, f: seq<Sector>, cs: seq<nat>)
    requires IsFile(b, f, cs)
    ensures b.sectorSize % ENTRY == 0
  {
  }

  lemma StoredEntries(b: Bpb, f: seq<Sector>, cs: seq<nat>, g: seq<Sector>, h: seq<Sector>, ds: seq<nat>, at: nat, n: nat,
                      dbuf: seq<Byte>, buffer: seq<Byte>)
    requires Extended(b, f, cs, g, ds) && Written(b, g, h, ds, ENTRY * at, dbuf)
    requires |buffer| >= ENTRY * n && dbuf == buffer[..ENTRY * n]
    ensures Stored(b, f, cs, h, ds, at, n, buffer)
  {
    hide Times, FileByte, EntryCount, Capacity, IsFile;
    FileSized(b, f, cs);
    EntriesFill(b, |cs|);
    EntriesFill(b, |ds|);
    forall j | 0 <= j < EntryCount(b, |ds|)
      ensures at <= j < at + n ==> EntryAt(b, h, ds, j) == LongNames.EntryOf(buffer, j - at)
      ensures j < EntryCount(b, |cs|) && !(at <= j < at + n) ==> EntryAt(b, h, ds, j) == EntryAt(b, f, cs, j)
      ensures j >= EntryCount(b, |cs|) && !(at <= j < at + n) ==> EntryAt(b, h, ds, j) == Blank(ENTRY)
    {
      StoredEntry(b, f, cs, g, h, ds, at, n, dbuf, buffer, j);
    }
  }

  lemma StoredEntry(b: Bpb, f: seq<Sector>, cs: seq<nat>, g: seq<Sector>, h: seq<Sector>, ds: seq<nat>, at: nat, n: nat,
                    dbuf: seq<Byte>, buffer: seq<Byte>, j: nat)
    requires Extended(b, f, cs, g, ds) && Written(b, g, h, ds, ENTRY * at, dbuf) && j < EntryCount(b, |ds|)
    requires |buffer| >= ENTRY * n && dbuf == buffer[..ENTRY * n]
    ensures at <= j < at + n ==> EntryAt(b, h, ds, j) == LongNames.EntryOf(buffer, j - at)
    ensures j < EntryCount(b, |cs|) && !(at <= j < at + n) ==> EntryAt(b, h, ds, j) == EntryAt(b, f, cs, j)
    ensures j >= EntryCount(b, |cs|) && !(at <= j < at + n) ==> EntryAt(b, h, ds, j) == Blank(ENTRY)
  {
    hide Times, FileByte, EntryCount, Capacity, IsFile;
    FileSized(b, f, cs);
    EntriesFill(b, |cs|);
    EntriesFill(b, |ds|);
    var e := EntryAt(b, h, ds, j);
    forall x | 0 <= x < ENTRY
      ensures at <= j < at + n ==> e[x] == buffer[ENTRY * (j - at) + x]
      ensures j < EntryCount(b, |cs|) && !(at <= j < at + n) ==> e[x] == FileByte(b, f, cs, ENTRY * j + x)
      ensures j >= EntryCount(b, |cs|) && !(at <= j < at + n) ==> e[x] == 0
    {
      assert e[x] == FileByte(b, h, ds, ENTRY * j + x);
    }
  }

  const EFAULT := 14

  /** There is an end mark with n entries of room behind it. */
  ghost predicate Roomy(b: Bpb, flat: seq<Sector>, cs: seq<nat>, n: nat)
    requires IsFile(b, flat, cs)
  {
    exists e :: 0 <= e < EntryCount(b, |cs|) && e + 1 + n <= EntryCount(b, |cs|) && LongNames.Kind(EntryAt(b, flat, cs, e)) == 0
  }

  lemma RoomForAll(b: Bpb, flat: seq<Sector>, cs: seq<nat>, items: seq<ShortNames.Item>, n: nat)
    requires Scanned(b, flat, cs, items) && Roomy(b, flat, cs, n)
    ensures |items| + n <= EntryCount(b, |cs|)
  {
    hide LongNames.Kind, EntryAt, EntryCount, IsFile;
  }

  /** The name of the new entry: the mask of a name that fits, else a number that is free unless
      the numbering fails. */
  ghost predicate Named(lname: seq<Byte>, items: seq<ShortNames.Item>, sname: seq<Byte>) {
    && |lname| > 0 && lname[0] != 46
    && if ShortNames.Lossless(lname) then sname == ShortNames.Mask(lname, 32)
       else (ShortNames.Present(items, sname) <==> ShortNames.Clashes(items, ShortNames.Mask(lname, 95)))
  }

  /** The short name: setShortNameSequence if the name had to be squeezed. */
  method ShortName(lname: seq<Byte>, compress: bool, mask: seq<Byte>, items: seq<ShortNames.Item>, record: seq<Byte>)
    returns (sname: seq<Byte>)
    requires |lname| > 0 && lname[0] != 46 && mask == ShortNames.Mask(lname, if compress then 95 else 32)
    requires compress <==> !ShortNames.Lossless(lname)
    requires ShortNames.Recorded(items, mask, record) && forall i :: 0 <= i < |items| ==> ShortNames.GoodItem(items[i])
    ensures |sname| == 11 && sname[0] == mask[0] && Named(lname, items, sname)
  {
    hide ShortNames.Recorded, ShortNames.Occurs, ShortNames.NumberOf, ShortNames.Numbered, ShortNames.Decoded, ShortNames.Mask,
         ShortNames.Lossless, ShortNames.Present, ShortNames.Clashes;
    sname := mask;
    if compress {
      var k := ShortNames.ChooseSequence(record);
      sname := ShortNames.Numbered(mask, k);
      ShortNames.NumberedReads(mask, k);
      ShortNames.ClashExactly(items, mask, record, k);
    }
  }

  lemma GoodItems(b: Bpb, flat: seq<Sector>, cs: seq<nat>, items: seq<ShortNames.Item>)
    requires Scanned(b, flat, cs, items)
    ensures 0 < |items| <= EntryCount(b, |cs|) && forall i :: 0 <= i < |items| ==> ShortNames.GoodItem(items[i])
  {
    hide EntryAt, EntryCount, IsFile, LongNames.Kind;
  }

  lemma FewParts(lname: seq<Byte>)
    requires LongNames.GoodName(lname)
    ensures 2 <= LongNames.Parts(lname) + 1 <= 11
  {
  }

  /** The mask of a name: padded with spaces if it is lossless, else with underscores. */
  function MaskOf(lname: seq<Byte>): (m: seq<Byte>)
    ensures |m| == 11
  {
    ShortNames.Mask(lname, if ShortNames.Lossless(lname) then 32 else 95)
  }

  /** Every large number of a scanned name has a long-name entry before it. */
  ghost predicate AllPlaced(items: seq<ShortNames.Item>, mask: seq<Byte>) {
    forall i :: 0 <= i < |items| ==> ShortNames.Placed(items, mask, i)
  }

  /** The records of the scanned entries. */
  ghost function RecordsOf(items: seq<ShortNames.Item>, lname: seq<Byte>): (r: seq<Byte>)
    ensures |r| == |items|
  {
    ShortNames.Records(items, MaskOf(lname))
  }

  /** The analysis part of fat_modifyDirSpace: the short name, and where the entries will go. It
      fails exactly for a name that begins with a dot, and for a directory in which a large number
      has no long-name entry before it. */
  method PlanEntry(vol: Volume, startCluster: nat, lname: seq<Byte>, ghost cs: seq<nat>)
    returns (ret: int, sname: seq<Byte>, index: nat, entryCount: nat, ghost items: seq<ShortNames.Item>)
    requires DirReady(vol, startCluster, cs) && IsFile(vol.bpb, vol.cache.flat, cs) && LongNames.GoodName(lname)
    modifies vol`lastChainCluster, vol`lastChainResult, vol.cbuf, vol.cache.Repr()
    ensures DirReady(vol, startCluster, cs) && vol.cache.flat == old(vol.cache.flat)
    ensures ret == -ShortNames.EINVAL || ret == -EFAULT || ret == 0
    ensures ret == -ShortNames.EINVAL <==> lname[0] == 46
    ensures lname[0] != 46 ==> && Scanned(vol.bpb, vol.cache.flat, cs, items)
                               && (ret == -EFAULT <==> !AllPlaced(items, MaskOf(lname)))
    ensures ret == 0 ==>
              && |sname| == 11 && sname[0] == MaskOf(lname)[0] && Named(lname, items, sname)
              && index <= entryCount == |items| <= EntryCount(vol.bpb, |cs|) && |items| > 0
              && Chosen(RecordsOf(items, lname), LongNames.Parts(lname) + 1, index)
  {
    hide SectorCache.Cache.Valid, Table, IsChain, InData, FreeStack, FreeInData, IsFile, Scanned, EntryCount, Live, Named, NothingLive,
         ShortNames.Mask, ShortNames.Lossless, ShortNames.Recorded, ShortNames.Placed, ShortNames.GoodItem, Chosen;
    sname, index, entryCount, items := [], 0, 0, [];
    var mask;
    ret, mask := ShortNames.CreateShortNameMask(lname);
    if ret < 0 {
      return;
    }
    var compress := ret == 1;
    ghost var f := vol.cache.flat;
    var its := ScanDirectory(vol, startCluster, cs);
    items := its;
    assert vol.T() == old(vol.T());
    GoodItems(vol.bpb, f, cs, its);
    var ok, record := ShortNames.FillRecords(its, mask);
    if !ok {
      ret := -EFAULT;
      return;
    }
    entryCount := |its|;
    RecordsMatch(its, mask, record);
    sname := ShortName(lname, compress, mask, its, record);
    index := StoreOffset(record, LongNames.Parts(lname) + 1);
    ret := 0;
  }

  lemma RecordsMatch(items: seq<ShortNames.Item>, mask: seq<Byte>, record: seq<Byte>)
    requires ShortNames.Recorded(items, mask, record)
    ensures record == ShortNames.Records(items, mask) && AllPlaced(items, mask)
  {
  }

  /** The entries of a new file, as they are built. */
  ghost predicate IsEntries(buffer: seq<Byte>, lname: seq<Byte>, sname: seq<Byte>, directory: bool, cluster: nat) {
    var n := LongNames.Parts(lname) + 1;
    && n >= 2 && |buffer| >= ENTRY * n && |sname| == 11
    && (forall i :: 0 <= i < n - 1 ==>
          LongNames.IsLfn(LongNames.EntryOf(buffer, i), lname, n - 2 - i, n - 2, LongNames.Checksum(sname, 11)))
    && LongNames.IsSfn(LongNames.EntryOf(buffer, n - 1), sname, directory, cluster)
  }

  /** createDirentry and saveDirentry. */
  method StoreEntry(vol: Volume, startCluster: nat, lname: seq<Byte>, sname: seq<Byte>, directory: bool, cluster: nat, index: nat,
                    clock: seq<Byte>, tbuf: array<Byte>, ghost f: seq<Sector>, ghost cs: seq<nat>, ghost ds: seq<nat>)
    returns (retSector: nat, retOffset: nat)
    requires DirReady(vol, startCluster, ds) && Extended(vol.bpb, f, cs, vol.cache.flat, ds)
    requires LongNames.GoodName(lname) && |clock| == 4 && |sname| == 11 && cluster < 0x1_0000_0000
    requires (tbuf as object) !in vol.Repr() && tbuf.Length >= ENTRY * 11
    requires index + LongNames.Parts(lname) + 1 <= EntryCount(vol.bpb, |ds|)
    modifies tbuf, vol`lastChainCluster, vol`lastChainResult, vol.cbuf, vol.cache.Repr()
    ensures DirReady(vol, startCluster, ds) && vol.T() == old(vol.T())
    ensures Stored(vol.bpb, f, cs, vol.cache.flat, ds, index, LongNames.Parts(lname) + 1, tbuf[..])
    ensures IsEntries(tbuf[..], lname, sname, directory, cluster)
    ensures OthersKept(vol.bpb, old(vol.cache.flat), vol.cache.flat, ds)
  {
    hide SectorCache.Cache.Valid, Table, IsChain, InData, FreeStack, FreeInData, Extended, EntryCount, Written, Stored, Times, Owns,
         LongNames.IsLfn, LongNames.IsSfn, LongNames.EntryOf, LongNames.Checksum, LastAt;
    FewParts(lname);
    ghost var g, t := vol.cache.flat, vol.T();
    ChainIsFile(vol.bpb, g, t, ds);
    var n, _ := LongNames.CreateDirentry(lname, sname, directory, cluster, tbuf, clock);
    var dbuf := tbuf[..ENTRY * n];
    assert dbuf == tbuf[..][..ENTRY * n];
    EntriesThere(vol.bpb, |ds|, index, n);
    var _, s, o, _ := SaveDirentry(vol, startCluster, dbuf, n, index, ds);
    retSector, retOffset := s, o;
    StoredEntries(vol.bpb, f, cs, g, vol.cache.flat, ds, index, n, dbuf, tbuf[..]);
    WrittenKeepsTable(vol.bpb, g, vol.cache.flat, ds, ENTRY * index, dbuf, 0);
    WrittenOthers(vol.bpb, g, vol.cache.flat, ds, ENTRY * index, dbuf);
  }

  lemma EntriesThere(b: Bpb, m: nat, index: nat, n: nat)
    requires index + n <= EntryCount(b, m)
    ensures index + n <= Times(Times(m, b.clusterSize), b.sectorSize / ENTRY)
  {
  }

  lemma WrittenOthers(b: Bpb, f: seq<Sector>, g: seq<Sector>, ds: seq<nat>, pos: nat, data: seq<Byte>)
    requires Written(b, f, g, ds, pos, data)
    ensures OthersKept(b, f, g, ds) && |f| == |g|
  {
    hide Times, FileByte, Owns;
  }

  /** Clearing any cluster that can be handed out replaces nothing else. */
  ghost predicate SafeToClear(vol: Volume)
    requires OnDisk(vol.bpb, vol.cache.flat) && vol.clStackIndex <= vol.clStack.Length
    reads vol, vol.clStack, vol.cache
  {
    forall c :: c in vol.Reserve() ==>
      c >= 2 && WholeSlots(vol.cache.indexLimit, ClusterSector(vol.bpb, c), vol.bpb.clusterSize)
  }

  /** What becomes of a new name, by where its entries go and how many clusters can be handed out:
      the result, and the number of clusters added to the directory. */
  function Outcome(fits: bool, reserve: nat): (int, nat) {
    if fits then (if reserve == 0 then -EFAULT else 1, 0)
    else if reserve == 0 then (-ENOSPC, 0)
    else if reserve == 1 then (-EFAULT, 1)
    else (1, 1)
  }

  /** The storing part of fat_modifyDirSpace. */
  method CommitEntry(vol: Volume, startCluster: nat, lname: seq<Byte>, name: seq<Byte>, directory: bool, entryCount: nat, index: nat,
                     clock: seq<Byte>, tbuf: array<Byte>, ghost cs: seq<nat>)
    returns (ret: int, retSector: nat, retOffset: nat, ghost ds: seq<nat>, ghost newCluster: nat)
    requires DirReady(vol, startCluster, cs) && |cs| + 1 < MAX_DIR_CLUSTER && IsFile(vol.bpb, vol.cache.flat, cs)
    requires LongNames.GoodName(lname) && |clock| == 4 && |name| == 11 && index <= entryCount <= EntryCount(vol.bpb, |cs|)
    requires (tbuf as object) !in vol.Repr() && tbuf.Length >= ENTRY * 11
    requires SafeToClear(vol) || index + LongNames.Parts(lname) + 1 <= EntryCount(vol.bpb, |cs|)
    modifies tbuf, vol`lastChainCluster, vol`lastChainResult, vol`clStackIndex, vol`clStackLast, vol.cbuf, vol.clStack,
      vol.cache.Repr()
    ensures DirReady(vol, startCluster, ds) && OthersKept(vol.bpb, old(vol.cache.flat), vol.cache.flat, ds)
    ensures ChainsKept(old(vol.T()), vol.T(), vol.bpb.EndMark(), cs)
    ensures (ret, |ds| - |cs|) == Outcome(index + LongNames.Parts(lname) + 1 <= EntryCount(vol.bpb, |cs|), |old(vol.Reserve())|)
    ensures ret < 0 ==> Extended(vol.bpb, old(vol.cache.flat), cs, vol.cache.flat, ds)
    ensures ret < 0 && |ds| == |cs| ==> ds == cs && vol.cache.flat == old(vol.cache.flat)
    ensures ret == 1 ==>
              && Stored(vol.bpb, old(vol.cache.flat), cs, vol.cache.flat, ds, index, LongNames.Parts(lname) + 1, tbuf[..])
              && IsEntries(tbuf[..], lname, name, directory, newCluster)
              && IsChain(vol.T(), vol.bpb.EndMark(), [newCluster])
  {
    hide SectorCache.Cache.Valid, Table, IsChain, InData, FreeStack, FreeInData, Extended, EntryCount, Stored, Times, IsEntries,
         OthersKept, IsFile, Grown, Exhausted, ChainsKept, LongNames.Parts, Supply, Cleared, Volume.TakenOnDisk, WholeSlots;
    retSector, retOffset, newCluster := 0, 0, 0;
    ghost var f, t, r := vol.cache.flat, vol.T(), vol.Reserve();
    NothingYet(vol.bpb, f, t, cs);
    ChainInside(t, vol.bpb.EndMark(), cs);
    FewParts(lname);
    ghost var f1, head, tail;
    ret, ds, f1, head, tail := Enlarge(vol, startCluster, entryCount, index, LongNames.Parts(lname) + 1, cs);
    if ret < 0 {
      return;
    }
    if ret == 1 {
      OneLess(r, ds[|cs|]);
      GrownKeepsChains(t, vol.T(), vol.bpb.EndMark(), cs, ds);
    }
    ghost var g, u := vol.cache.flat, vol.T();
    var cluster := NewFile(vol, startCluster, ds);
    newCluster := cluster;
    ExtendedTable(vol.bpb, f, cs, g, ds, vol.cache.flat);
    OthersTable(vol.bpb, f, g, vol.cache.flat, ds);
    ChainsTwice(t, u, vol.T(), vol.bpb.EndMark(), cs);
    if cluster == 0 {
      ret := -EFAULT;
      return;
    }
    ghost var h := vol.cache.flat;
    retSector, retOffset := StoreEntry(vol, startCluster, lname, name, directory, cluster, index, clock, tbuf, f, cs, ds);
    OthersTwice(vol.bpb, f, h, vol.cache.flat, ds);
    ret := 1;
  }

  /** fat_modifyDirSpace for a new name: exactly the entries of the new name are stored. When it
      fails is exact, and so is when the entries go over live ones. */
  method CreateEntry(vol: Volume, startCluster: nat, lname: seq<Byte>, directory: bool, clock: seq<Byte>, tbuf: array<Byte>,
                     ghost cs: seq<nat>)
    returns (ret: int, retSector: nat, retOffset: nat, ghost ds: seq<nat>, ghost at: nat, ghost sname: seq<Byte>,
             ghost newCluster: nat, ghost items: seq<ShortNames.Item>)
    requires DirReady(vol, startCluster, cs) && |cs| + 1 < MAX_DIR_CLUSTER && IsFile(vol.bpb, vol.cache.flat, cs)
    requires LongNames.GoodName(lname) && |clock| == 4
    requires (tbuf as object) !in vol.Repr() && tbuf.Length >= ENTRY * 11
    requires SafeToClear(vol) || Roomy(vol.bpb, vol.cache.flat, cs, LongNames.Parts(lname) + 1)
    modifies tbuf, vol`lastChainCluster, vol`lastChainResult, vol`clStackIndex, vol`clStackLast, vol.cbuf, vol.clStack,
      vol.cache.Repr()
    ensures DirReady(vol, startCluster, ds) && OthersKept(vol.bpb, old(vol.cache.flat), vol.cache.flat, ds)
    ensures ChainsKept(old(vol.T()), vol.T(), vol.bpb.EndMark(), cs)
    ensures lname[0] == 46 ==> ret == -ShortNames.EINVAL && ds == cs && vol.cache.flat == old(vol.cache.flat)
    ensures lname[0] != 46 ==> Scanned(vol.bpb, old(vol.cache.flat), cs, items)
    ensures lname[0] != 46 && !AllPlaced(items, MaskOf(lname)) ==>
              ret == -EFAULT && ds == cs && vol.cache.flat == old(vol.cache.flat)
    ensures lname[0] != 46 && AllPlaced(items, MaskOf(lname)) ==>
              && |items| > 0 && Chosen(RecordsOf(items, lname), LongNames.Parts(lname) + 1, at)
              && (ret, |ds| - |cs|) == Outcome(at + LongNames.Parts(lname) + 1 <= EntryCount(vol.bpb, |cs|), |old(vol.Reserve())|)
    ensures ret < 0 ==> Extended(vol.bpb, old(vol.cache.flat), cs, vol.cache.flat, ds)
    ensures ret == 1 ==>
              var n := LongNames.Parts(lname) + 1;
              && Stored(vol.bpb, old(vol.cache.flat), cs, vol.cache.flat, ds, at, n, tbuf[..])
              && IsEntries(tbuf[..], lname, sname, directory, newCluster) && sname[0] == MaskOf(lname)[0]
              && IsChain(vol.T(), vol.bpb.EndMark(), [newCluster]) && Named(lname, items, sname)
              && ((exists j :: at <= j < at + n && Live(vol.bpb, old(vol.cache.flat), cs, j)) <==>
                  LosesLive(vol.bpb, old(vol.cache.flat), cs, RecordsOf(items, lname), n))
  {
    hide SectorCache.Cache.Valid, Table, IsChain, InData, FreeStack, FreeInData, Extended, EntryCount, Stored, Times, IsEntries,
         Scanned, Named, Live, OthersKept, Roomy, IsFile, ChainsKept, LongNames.Parts, Supply, Chosen, AllPlaced, LosesLive,
         MaskOf, RecordsOf, WholeSlots, Outcome;
    retSector, retOffset, ds, at, newCluster := 0, 0, cs, 0, 0;
    ghost var f, t := vol.cache.flat, vol.T();
    NothingYet(vol.bpb, f, t, cs);
    var name, index, entryCount;
    ret, name, index, entryCount, items := PlanEntry(vol, startCluster, lname, cs);
    sname, at := name, index;
    if ret < 0 {
      return;
    }
    assert vol.Reserve() == old(vol.Reserve());
    assert old(SafeToClear(vol)) ==> SafeToClear(vol);
    if Roomy(vol.bpb, f, cs, LongNames.Parts(lname) + 1) {
      RoomForAll(vol.bpb, f, cs, items, LongNames.Parts(lname) + 1);
    }
    LiveInRange(vol.bpb, f, cs, items, lname, index, LongNames.Parts(lname) + 1);
    ret, retSector, retOffset, ds, newCluster :=
      CommitEntry(vol, startCluster, lname, name, directory, entryCount, index, clock, tbuf, cs);
    OutcomeIs(index + LongNames.Parts(lname) + 1 <= EntryCount(vol.bpb, |cs|), |old(vol.Reserve())|);
  }

  lemma OutcomeIs(fits: bool, reserve: nat)
    ensures Outcome(fits, reserve).0 in {1, -EFAULT, -ENOSPC}
  {
  }

  lemma OneLess(r: set<nat>, c: nat)
    requires c in r
    ensures |r - {c}| == |r| - 1
  {
  }

  lemma NothingYet(b: Bpb, f: seq<Sector>, t: seq<nat>, cs: seq<nat>)
    requires IsFile(b, f, cs) && IsChain(t, b.EndMark(), cs)
    ensures Extended(b, f, cs, f, cs) && OthersKept(b, f, f, cs) && ChainsKept(t, t, b.EndMark(), cs)
  {
    hide Times, FileByte, Owns;
    ExtendedByNone(b, f, cs, f);
  }

  lemma OthersTable(b: Bpb, f: seq<Sector>, g: seq<Sector>, h: seq<Sector>, ds: seq<nat>)
    requires OthersKept(b, f, g, ds) && SameOutsideFat(b, g, h)
    ensures OthersKept(b, f, h, ds)
  {
    hide Times, Owns;
  }

  lemma OthersTwice(b: Bpb, f: seq<Sector>, g: seq<Sector>, h: seq<Sector>, ds: seq<nat>)
    requires OthersKept(b, f, g, ds) && OthersKept(b, g, h, ds)
    ensures OthersKept(b, f, h, ds)
  {
    hide Times, Owns;
  }

  lemma ChainsTwice(t: seq<nat>, u: seq<nat>, v: seq<nat>, endMark: nat, cs: seq<nat>)
    requires ChainsKept(t, u, endMark, cs) && forall es :: IsChain(u, endMark, es) ==> IsChain(v, endMark, es)
    ensures ChainsKept(t, v, endMark, cs)
  {
    hide IsChain;
  }

  // ----- live entries -----

  /** When the entries of a new name go over live ones: the records are used up, no slot among them
      is large enough, and a live entry lies right behind them. */
  ghost predicate LosesLive(b: Bpb, flat: seq<Sector>, cs: seq<nat>, record: seq<Byte>, n: nat) {
    && |record| == DIRENTRY_COUNT && !HasSlot(record, n)
    && exists j :: DIRENTRY_COUNT <= j < n + (if Empty(record[DIRENTRY_COUNT - 1]) then DIRENTRY_COUNT - 1 else DIRENTRY_COUNT)
                   && Live(b, flat, cs, j)
  }

  /** The range chosen holds a live entry exactly in the directories where that is so. */
  lemma LiveInRange(b: Bpb, flat: seq<Sector>, cs: seq<nat>, items: seq<ShortNames.Item>, lname: seq<Byte>, at: nat, n: nat)
    requires Scanned(b, flat, cs, items) && n > 0 && |items| > 0 && Chosen(RecordsOf(items, lname), n, at)
    ensures (exists j :: at <= j < at + n && Live(b, flat, cs, j)) <==> LosesLive(b, flat, cs, RecordsOf(items, lname), n)
  {
    hide EntryAt, IsFile, EntryCount, LongNames.Kind, ShortNames.RecordOf, ItemOf, Chosen, HasSlot, Empty, Live, MaskOf;
    var record := RecordsOf(items, lname);
    ChosenIsFree(record, n, at);
    forall j | at <= j < at + n && Live(b, flat, cs, j)
      ensures |items| == DIRENTRY_COUNT <= j
    {
      SafeRange(b, flat, cs, items, MaskOf(lname), record, at, n, j);
    }
  }

  /** Where that is not so, every live entry is still there, byte for byte. */
  lemma LiveStays(b: Bpb, f: seq<Sector>, cs: seq<nat>, g: seq<Sector>, ds: seq<nat>, at: nat, n: nat, dbuf: seq<Byte>,
                  items: seq<ShortNames.Item>, lname: seq<Byte>, j: nat)
    requires Stored(b, f, cs, g, ds, at, n, dbuf) && Scanned(b, f, cs, items) && n > 0 && |items| > 0
    requires Chosen(RecordsOf(items, lname), n, at) && !LosesLive(b, f, cs, RecordsOf(items, lname), n) && Live(b, f, cs, j)
    ensures j < EntryCount(b, |ds|) && EntryAt(b, g, ds, j) == EntryAt(b, f, cs, j)
  {
    LiveInRange(b, f, cs, items, lname, at, n);
    hide EntryAt, IsFile, EntryCount, LongNames.Kind, Chosen, LosesLive, Scanned;
  }

  /** A directory whose first 1025 entries are all live is one of those. */
  lemma OverwritesLive(b: Bpb, flat: seq<Sector>, cs: seq<nat>, items: seq<ShortNames.Item>, lname: seq<Byte>, n: nat)
    requires Scanned(b, flat, cs, items) && n > 0 && forall j :: 0 <= j <= DIRENTRY_COUNT ==> Live(b, flat, cs, j)
    ensures LosesLive(b, flat, cs, RecordsOf(items, lname), n)
  {
    hide EntryAt, IsFile, EntryCount, LongNames.Kind, ShortNames.RecordOf, ItemOf, MaskOf;
    var record := RecordsOf(items, lname);
    assert Live(b, flat, cs, DIRENTRY_COUNT) && Live(b, flat, cs, |items| - 1);
    forall i | 0 <= i < |record|
      ensures !Empty(record[i])
    {
      assert Live(b, flat, cs, i) && record[i] == ShortNames.RecordOf(items, MaskOf(lname), i);
      EmptyIsFree(items, MaskOf(lname), i, EntryAt(b, flat, cs, i));
    }
    assert |items| == DIRENTRY_COUNT;
    NoSlot(record, n);
  }

  lemma NoSlot(record: seq<Byte>, n: nat)
    requires n > 0 && forall i :: 0 <= i < |record| ==> !Empty(record[i])
    ensures !HasSlot(record, n)
  {
    assert forall a: nat, b: nat :: Slot(record, a, b) ==> Empty(record[a]);
  }
}
