/** Files on a FAT16/FAT32 volume: the seek index, reading and writing
    (iop/usb_mass/fat_driver.c, fat_write.c). */
module FatFile {
  import opened Arith
  import opened Bytes
  import opened FatRecords
  import opened FatChains
  import opened FatFileView
  import opened FatVolume
  import SectorCache

  const DIR_CHAIN_SIZE := 32

  datatype ChainPoint = ChainPoint(cluster: nat, index: nat)

  /** The in-memory record of an open file. */
  class FatDir {
    var size: nat
    var lastCluster: nat
    const chain: array<ChainPoint>

    ghost function Repr(): set<object> {
      {this, chain}
    }

    constructor (firstCluster: nat, fileSize: nat)
      ensures size == fileSize && fresh(chain) && chain.Length == DIR_CHAIN_SIZE
      ensures forall i :: 0 <= i < DIR_CHAIN_SIZE ==> chain[i] == ChainPoint(firstCluster, 0)
    {
      size := fileSize;
      lastCluster := 0;
      chain := new ChainPoint[DIR_CHAIN_SIZE](_ => ChainPoint(firstCluster, 0));
    }
  }

  /** The first n seek points are true (cluster, index) pairs of cs, in order. */
  ghost predicate PointsOk(points: seq<ChainPoint>, cs: seq<nat>, n: nat) {
    && 1 <= n <= |points|
    && points[0].index == 0
    && (forall j :: 0 <= j < n ==> points[j].index < |cs| && points[j].cluster == cs[points[j].index])
    && (forall i, j :: 0 <= i <= j < n ==> points[i].index <= points[j].index)
  }

  /** A longer chain keeps the seek points true. */
  lemma PointsSurviveGrowth(points: seq<ChainPoint>, cs: seq<nat>, more: seq<nat>, n: nat)
    requires PointsOk(points, cs, n)
    ensures PointsOk(points, cs + more, n)
  {
  }

  /** p is the seek point at or before pos that is nearest to it. */
  ghost predicate IsSeekPoint(points: seq<ChainPoint>, clusterBytes: nat, pos: nat, p: ChainPoint) {
    && p in points && Times(p.index, clusterBytes) <= pos
    && forall j :: 0 <= j < |points| && Times(points[j].index, clusterBytes) <= pos ==> points[j].index <= p.index
  }

  /** The memo can serve a walk that starts at element k of the chain. */
  ghost predicate MemoServes(vol: Volume, cs: seq<nat>, k: nat)
    requires vol.cbuf.Length == MAX_DIR_CLUSTER
    reads vol, vol.cbuf
  {
    k < |cs| && (vol.lastChainCluster == cs[k] ==> vol.HoldsChunk(cs, k, vol.lastChainResult))
  }

  /** The memo can serve a call that seeks pos. */
  ghost predicate SeekServes(vol: Volume, points: seq<ChainPoint>, cs: seq<nat>, pos: nat)
    requires vol.cbuf.Length == MAX_DIR_CLUSTER
    reads vol, vol.cbuf
  {
    forall p :: IsSeekPoint(points, ClusterBytes(vol.bpb), pos, p) ==> MemoServes(vol, cs, p.index)
  }

  /** The nearest seek point is unique, so serving it is serving the seek. */
  lemma ServesItsPoint(vol: Volume, points: seq<ChainPoint>, cs: seq<nat>, pos: nat, q: ChainPoint)
    requires IsSeekPoint(points, ClusterBytes(vol.bpb), pos, q) && vol.cbuf.Length == MAX_DIR_CLUSTER
    requires MemoServes(vol, cs, q.index)
    ensures SeekServes(vol, points, cs, pos)
  {
    hide Times;
    forall p | IsSeekPoint(points, ClusterBytes(vol.bpb), pos, p)
      ensures p.index == q.index
    {
      var i :| 0 <= i < |points| && points[i] == p;
      var j :| 0 <= j < |points| && points[j] == q;
      assert points[i].index <= q.index && points[j].index <= p.index;
    }
  }

  /** A coherent memo serves every seek. */
  lemma CoherentServesSeeks(vol: Volume, points: seq<ChainPoint>, cs: seq<nat>, pos: nat)
    requires PointsOk(points, cs, |points|) && vol.cbuf.Length == MAX_DIR_CLUSTER && vol.Coherent(cs)
    ensures SeekServes(vol, points, cs, pos)
  {
    hide Times;
  }

  /** A grown file finds its memo invalidated; a file that did not grow finds it as it was. */
  lemma MemoAfterGrowth(vol: Volume, points: seq<ChainPoint>, cs: seq<nat>, ds: seq<nat>, added: nat, pos: nat)
    requires PointsOk(points, ds, |points|) && vol.cbuf.Length == MAX_DIR_CLUSTER
    requires forall i :: 0 <= i < |ds| ==> ds[i] >= 2
    requires added > 0 ==> vol.lastChainCluster == 0
    requires added == 0 ==> ds == cs && SeekServes(vol, points, cs, pos)
    ensures SeekServes(vol, points, ds, pos)
  {
    hide Times;
  }

  // ----- seeking -----

  /** fat_getClusterAtFilePos: a seek point at or before filePos. */
  method GetClusterAtFilePos(b: Bpb, dir: FatDir, filePos: nat, ghost cs: seq<nat>)
    returns (cluster: nat, clusterPos: nat, ghost idx: nat)
    requires dir.chain.Length == DIR_CHAIN_SIZE && PointsOk(dir.chain[..], cs, DIR_CHAIN_SIZE)
    ensures idx < |cs| && cluster == cs[idx] && clusterPos == Times(idx, ClusterBytes(b)) <= filePos
    ensures IsSeekPoint(dir.chain[..], ClusterBytes(b), filePos, ChainPoint(cluster, idx))
  {
    var blockSize := ClusterBytes(b);
    var j := DIR_CHAIN_SIZE - 1;
    var i := 0;
    while i < DIR_CHAIN_SIZE - 1
      invariant 0 <= i <= DIR_CHAIN_SIZE - 1 && j == DIR_CHAIN_SIZE - 1
      invariant Times(dir.chain[i].index, blockSize) <= filePos
    {
      if Times(dir.chain[i].index, blockSize) <= filePos && filePos < Times(dir.chain[i + 1].index, blockSize) {
        j := i;
        break;
      }
      i := i + 1;
    }
    cluster := dir.chain[j].cluster;
    idx := dir.chain[j].index;
    clusterPos := Times(dir.chain[j].index, blockSize);
    assert dir.chain[..][j] == ChainPoint(cluster, idx);
    forall l | 0 <= l < DIR_CHAIN_SIZE && Times(dir.chain[l].index, blockSize) <= filePos
      ensures dir.chain[l].index <= idx
    {
      assert dir.chain[..][l] == dir.chain[l] && dir.chain[..][j] == dir.chain[j];
      if l > j {
        assert dir.chain[..][j + 1].index <= dir.chain[..][l].index;
        TimesMonotone(dir.chain[j + 1].index, dir.chain[l].index, blockSize);
      } else {
        assert dir.chain[..][l].index <= dir.chain[..][j].index;
      }
    }
  }

  /** The skip computed from a seek point lands on the right cluster, sector and byte. */
  lemma SeekLands(b: Bpb, filePos: nat, idx: nat)
    requires b.sectorSize > 0 && b.clusterSize > 0 && Times(idx, ClusterBytes(b)) <= filePos
    ensures var q := Quot(filePos - Times(idx, ClusterBytes(b)), b.sectorSize);
      filePos == Times(Times(idx + Quot(q, b.clusterSize), b.clusterSize) + Rem(q, b.clusterSize), b.sectorSize)
                 + Rem(filePos, b.sectorSize)
  {
    hide Times, Quot, Rem;
    var ss, spc := b.sectorSize, b.clusterSize;
    var d := filePos - Times(idx, ClusterBytes(b));
    var q := Quot(d, ss);
    QuotRem(d, ss);
    QuotRem(q, spc);
    TimesTwice(idx, spc, ss);
    TimesAdds(Times(idx, spc), q, ss);
    TimesAdds(idx, Quot(q, spc), spc);
    QuotRemOf(Times(idx, spc) + q, Rem(d, ss), ss);
  }

  // ----- building the seek index -----

  /** The inner while of fat_setFatDirChain: every seek point that the first index+1
      clusters reach, and that has no value yet, gets this cluster. */
  method SetPoints(dir: FatDir, cluster: nat, index: nat, fileSize: nat, blockSize: nat, j0: nat, ghost cs: seq<nat>)
    returns (j: nat)
    requires dir.chain.Length == DIR_CHAIN_SIZE && 1 <= j0 <= DIR_CHAIN_SIZE
    requires index < |cs| && cs[index] == cluster && PointsOk(dir.chain[..], cs, j0)
    requires dir.chain[j0 - 1].index <= index
    modifies dir.chain
    ensures j0 <= j <= DIR_CHAIN_SIZE && PointsOk(dir.chain[..], cs, j) && dir.chain[j - 1].index <= index
    ensures dir.chain[0] == old(dir.chain[0])
    ensures j < DIR_CHAIN_SIZE ==> fileSize < Times(j, blockSize)
    ensures forall i :: j0 <= i < j ==> Times(i, blockSize) <= fileSize && dir.chain[i] == ChainPoint(cluster, index)
    ensures forall i :: 0 <= i < j0 ==> dir.chain[i] == old(dir.chain[i])
  {
    hide Times;
    j := j0;
    while fileSize >= Times(j, blockSize) && j < DIR_CHAIN_SIZE
      invariant j0 <= j <= DIR_CHAIN_SIZE && PointsOk(dir.chain[..], cs, j) && dir.chain[j - 1].index <= index
      invariant dir.chain[0] == old(dir.chain[0])
      invariant forall i :: j0 <= i < j ==> Times(i, blockSize) <= fileSize && dir.chain[i] == ChainPoint(cluster, index)
      invariant forall i :: 0 <= i < j0 ==> dir.chain[i] == old(dir.chain[i])
      decreases DIR_CHAIN_SIZE - j
    {
      ghost var before := dir.chain[..];
      dir.chain[j] := ChainPoint(cluster, index);
      assert dir.chain[..] == before[j := ChainPoint(cluster, index)];
      PointsExtend(before, cs, j, ChainPoint(cluster, index));
      j := j + 1;
    }
  }

  lemma PointsExtend(points: seq<ChainPoint>, cs: seq<nat>, n: nat, p: ChainPoint)
    requires PointsOk(points, cs, n) && n < |points|
    requires p.index < |cs| && p.cluster == cs[p.index] && points[n - 1].index <= p.index
    ensures PointsOk(points[n := p], cs, n + 1)
  {
    forall i | 0 <= i < n
      ensures points[i].index <= p.index
    {
      assert points[i].index <= points[n - 1].index;
    }
  }

  /** Which cluster a seek point names: the first one whose end reaches j blocks. */
  ghost predicate PointsExact(points: seq<ChainPoint>, n: nat, blockSize: nat, clusterBytes: nat) {
    forall j :: 1 <= j < n && j < |points| ==>
      Times(j, blockSize) <= Times(points[j].index + 1, clusterBytes)
      && (points[j].index > 0 ==> Times(points[j].index, clusterBytes) < Times(j, blockSize))
  }

  lemma PointsExactStep(before: seq<ChainPoint>, after: seq<ChainPoint>, j0: nat, j: nat, index: nat,
                        blockSize: nat, clusterBytes: nat)
    requires PointsExact(before, j0, blockSize, clusterBytes)
    requires 1 <= j0 <= j <= |after| == |before|
    requires index > 0 && j0 < |before| ==> Times(index, clusterBytes) < Times(j0, blockSize)
    requires forall i :: 0 <= i < j0 ==> after[i] == before[i]
    requires forall i :: j0 <= i < j ==> Times(i, blockSize) <= Times(index + 1, clusterBytes) && after[i].index == index
    ensures PointsExact(after, j, blockSize, clusterBytes)
  {
    hide Times;
    forall i | j0 <= i < j
      ensures Times(j0, blockSize) <= Times(i, blockSize)
    {
      TimesMonotone(j0, i, blockSize);
    }
  }

  /** After `index` clusters, the first j seek points are set, and no other is due. */
  ghost predicate Indexed(points: seq<ChainPoint>, cs: seq<nat>, j: nat, index: nat, blockSize: nat, clusterBytes: nat) {
    && PointsOk(points, cs, j) && PointsExact(points, j, blockSize, clusterBytes)
    && points[j - 1].index <= index
    && (index > 0 && j < |points| ==> Times(index, clusterBytes) < Times(j, blockSize))
  }

  lemma IndexedStart(points: seq<ChainPoint>, cs: seq<nat>, blockSize: nat, clusterBytes: nat)
    requires |points| > 0 && |cs| > 0 && points[0] == ChainPoint(cs[0], 0)
    ensures Indexed(points, cs, 1, 0, blockSize, clusterBytes) && Times(0, clusterBytes) == 0
  {
  }

  /** One cluster of the for loop of fat_setFatDirChain. */
  method IndexCluster(dir: FatDir, cluster: nat, index: nat, fileSize: nat, clusterBytes: nat, blockSize: nat, j0: nat,
                      ghost cs: seq<nat>)
    returns (j: nat)
    requires dir.chain.Length == DIR_CHAIN_SIZE && 1 <= j0 <= DIR_CHAIN_SIZE
    requires index < |cs| && cs[index] == cluster && fileSize == Times(index + 1, clusterBytes)
    requires Indexed(dir.chain[..], cs, j0, index, blockSize, clusterBytes)
    modifies dir.chain
    ensures j0 <= j <= DIR_CHAIN_SIZE && dir.chain[0] == old(dir.chain[0])
    ensures Indexed(dir.chain[..], cs, j, index + 1, blockSize, clusterBytes)
  {
    hide Times, PointsOk, PointsExact;
    ghost var before := dir.chain[..];
    j := SetPoints(dir, cluster, index, fileSize, blockSize, j0, cs);
    PointsExactStep(before, dir.chain[..], j0, j, index, blockSize, clusterBytes);
  }

  /** The for loop of fat_setFatDirChain over one chunk: clusters k+i0 .. k+n of the chain. */
  method IndexChunk(vol: Volume, dir: FatDir, i0: nat, n: nat, index0: nat, fileSize0: nat, blockSize: nat, j0: nat,
                    ghost cs: seq<nat>, ghost k: nat)
    returns (j: nat, index: nat, fileSize: nat)
    requires vol.cbuf.Length == MAX_DIR_CLUSTER && i0 <= n <= MAX_DIR_CLUSTER && k + n <= |cs|
    requires vol.cbuf[..n] == cs[k..k + n] && index0 == k + i0 && fileSize0 == Times(index0, ClusterBytes(vol.bpb))
    requires dir.chain.Length == DIR_CHAIN_SIZE && 1 <= j0 <= DIR_CHAIN_SIZE
    requires (dir.chain as object) != vol.cbuf
    requires Indexed(dir.chain[..], cs, j0, index0, blockSize, ClusterBytes(vol.bpb))
    modifies dir.chain
    ensures j0 <= j <= DIR_CHAIN_SIZE && index == k + n && fileSize == Times(index, ClusterBytes(vol.bpb))
    ensures Indexed(dir.chain[..], cs, j, index, blockSize, ClusterBytes(vol.bpb))
    ensures dir.chain[0] == old(dir.chain[0])
  {
    hide Indexed;
    var clusterBytes := ClusterBytes(vol.bpb);
    j, index, fileSize := j0, index0, fileSize0;
    for i := i0 to n
      invariant j0 <= j <= DIR_CHAIN_SIZE && vol.cbuf[..n] == cs[k..k + n] && index == k + i
      invariant fileSize == Times(index, clusterBytes) && dir.chain[0] == old(dir.chain[0])
      invariant Indexed(dir.chain[..], cs, j, index, blockSize, clusterBytes)
    {
      assert vol.cbuf[i] == vol.cbuf[..n][i] == cs[k + i];
      fileSize := fileSize + clusterBytes;
      j := IndexCluster(dir, vol.cbuf[i], index, fileSize, clusterBytes, blockSize, j, cs);
      index := index + 1;
    }
  }

  /** A chain that covers the file sets every seek point. */
  lemma AllPointsSet(points: seq<ChainPoint>, cs: seq<nat>, j: nat, size: nat, clusterBytes: nat)
    requires |points| == DIR_CHAIN_SIZE && j <= DIR_CHAIN_SIZE && |cs| > 0
    requires Indexed(points, cs, j, |cs|, size / DIR_CHAIN_SIZE, clusterBytes) && size <= Times(|cs|, clusterBytes)
    ensures PointsOk(points, cs, DIR_CHAIN_SIZE) && PointsExact(points, DIR_CHAIN_SIZE, size / DIR_CHAIN_SIZE, clusterBytes)
  {
    var bs := size / DIR_CHAIN_SIZE;
    TimesIsProduct(DIR_CHAIN_SIZE, bs);
    TimesMonotone(j, DIR_CHAIN_SIZE, bs);
  }

  /** The state a method about file cs needs. */
  ghost predicate Ready(vol: Volume, dir: FatDir)
    reads vol, vol.cache, vol.cache.rec, vol.cache.sectorBuf, dir
  {
    && vol.Valid() && dir.chain.Length == DIR_CHAIN_SIZE
    && dir.Repr() !! vol.Repr()
  }

  /** fat_setFatDirChain: rebuild the seek index of a file and find its last cluster. */
  method SetFatDirChain(vol: Volume, dir: FatDir, ghost cs: seq<nat>)
    requires Ready(vol, dir) && dir.chain[0].index == 0
    requires dir.chain[0].cluster >= 2 ==>
               && IsChain(vol.T(), vol.bpb.EndMark(), cs) && cs[0] == dir.chain[0].cluster
               && MemoServes(vol, cs, 0)
               && dir.size <= Times(|cs|, ClusterBytes(vol.bpb))
    modifies dir`lastCluster, dir.chain, vol`lastChainCluster, vol`lastChainResult, vol.cbuf, vol.cache.Repr()
    ensures Ready(vol, dir) && vol.cache.flat == old(vol.cache.flat)
    ensures dir.chain[0] == old(dir.chain[0])
    ensures dir.chain[0].cluster < 2 ==> dir.chain[..] == old(dir.chain[..]) && dir.lastCluster == old(dir.lastCluster)
    ensures dir.chain[0].cluster >= 2 ==>
              && PointsOk(dir.chain[..], cs, DIR_CHAIN_SIZE)
              && PointsExact(dir.chain[..], DIR_CHAIN_SIZE, dir.size / DIR_CHAIN_SIZE, ClusterBytes(vol.bpb))
              && dir.lastCluster == cs[|cs| - 1] && vol.Coherent(cs)
  {
    hide SectorCache.Cache.Valid, Times, PointsOk, PointsExact, Table, IsChain, Indexed, Volume.HoldsChunk;
    var fileCluster := dir.chain[0].cluster;
    if fileCluster < 2 {
      return;
    }
    var blockSize := dir.size / DIR_CHAIN_SIZE;
    var nextChain := true;
    var clusterChainStart := 0;
    var j, fileSize, index := 1, 0, 0;
    ghost var k := 0;
    var chainSize := 0;
    IndexedStart(dir.chain[..], cs, blockSize, ClusterBytes(vol.bpb));
    while nextChain
      invariant Ready(vol, dir) && vol.cache.flat == old(vol.cache.flat) && dir.chain[0] == old(dir.chain[0])
      invariant 1 <= j <= DIR_CHAIN_SIZE && clusterChainStart <= 1
      invariant Indexed(dir.chain[..], cs, j, index, blockSize, ClusterBytes(vol.bpb))
      invariant fileSize == Times(index, ClusterBytes(vol.bpb))
      invariant nextChain ==> k < |cs| && cs[k] == fileCluster && index == k + clusterChainStart
      invariant nextChain && vol.lastChainCluster == fileCluster ==> vol.HoldsChunk(cs, k, vol.lastChainResult)
      invariant !nextChain ==> vol.Coherent(cs)
      invariant !nextChain ==> 1 <= chainSize <= MAX_DIR_CLUSTER && index == |cs| && vol.cbuf[chainSize - 1] == cs[|cs| - 1]
      decreases |cs| - k, nextChain
    {
      ghost var t := vol.T();
      chainSize, fileCluster, nextChain := vol.LoadChunk(fileCluster, true, cs, k);
      assert vol.T() == t;
      j, index, fileSize := IndexChunk(vol, dir, clusterChainStart, chainSize, index, fileSize, blockSize, j, cs, k);
      clusterChainStart := 1;
      if nextChain {
        k := k + MAX_DIR_CLUSTER - 1;
      } else {
        assert vol.cbuf[chainSize - 1] == vol.cbuf[..chainSize][chainSize - 1] == cs[|cs| - 1];
      }
    }
    AllPointsSet(dir.chain[..], cs, j, dir.size, ClusterBytes(vol.bpb));
    dir.lastCluster := vol.cbuf[chainSize - 1];
  }

  /** In a file of 1024 clusters, seek point 16 is cluster 511: the one the walk of the second
      chunk starts behind. */
  lemma PivotIsSeekPoint(points: seq<ChainPoint>, l: nat)
    requires |points| == DIR_CHAIN_SIZE && PointsExact(points, DIR_CHAIN_SIZE, Times(1024, l) / DIR_CHAIN_SIZE, l) && l > 0
    ensures points[16].index == 511
  {
    hide Times;
    TimesIsProduct(1024, l);
    TimesIsProduct(32, l);
    assert Times(1024, l) / DIR_CHAIN_SIZE == Times(32, l);
    TimesTwice(16, 32, l);
    TimesIsProduct(16, 32);
    var k := points[16].index;
    if k + 1 < 512 {
      TimesApart(k + 1, 512, l);
    } else if k > 511 {
      TimesMonotone(512, k, l);
    }
  }

  /** A file of 1024 clusters is indexed and read through its second chunk; then a seek to cluster
      511 asks for the chunk that starts with it, and the memo answers with the one behind it. */
  method PivotServesWrongCluster(vol: Volume, dir: FatDir, first: nat, ghost cs: seq<nat>)
    requires Ready(vol, dir) && ClusterBytes(vol.bpb) > 0 && IsChain(vol.T(), vol.bpb.EndMark(), cs) && |cs| == 1024
    requires cs[0] == first && dir.chain[0] == ChainPoint(first, 0) && dir.size == Times(1024, ClusterBytes(vol.bpb))
    requires MemoServes(vol, cs, 0)
    modifies dir`lastCluster, dir.chain, vol`lastChainCluster, vol`lastChainResult, vol.cbuf, vol.cache.Repr()
    ensures vol.cbuf.Length > 0 && vol.cbuf[0] == cs[512] != cs[511]
  {
    hide SectorCache.Cache.Valid, Times, Table, PointsExact, IsChain;
    ghost var t := vol.T();
    ChainInside(t, vol.bpb.EndMark(), cs);
    forall i | 0 <= i < 1024
      ensures cs[i] == cs[511] ==> i == 511
    {
      if cs[i] == cs[511] {
        ChainDistinct(t, vol.bpb.EndMark(), cs, i, 511);
      }
    }
    SetFatDirChain(vol, dir, cs);
    assert vol.T() == t;
    var size, pivot, full := vol.LoadChunk(first, true, cs, 0);
    assert vol.T() == t && pivot == cs[511];
    size, pivot, full := vol.LoadChunk(pivot, false, cs, 511);
    assert vol.T() == t && vol.cbuf[..size][0] == cs[512];
    PivotIsSeekPoint(dir.chain[..], ClusterBytes(vol.bpb));
    var pos := Times(511, ClusterBytes(vol.bpb));
    var cluster, clusterPos, idx := GetClusterAtFilePos(vol.bpb, dir, pos, cs);
    assert dir.chain[..][16].index <= idx;
    if idx > 511 {
      TimesApart(511, idx, ClusterBytes(vol.bpb));
    }
    ghost var was := vol.cbuf[..];
    var _ := vol.GetClusterChain(cluster, true, cs, 511);
    assert vol.cbuf[..] == was && vol.cbuf[..][0] == cs[512];
  }

  // ----- reading -----

  /** Bytes moved to or from one sector: the bufSize - dataSkip of the C loops. */
  function PartSize(size: nat, dataSkip: nat, sectorSize: nat): (m: nat)
    requires dataSkip < sectorSize
    ensures dataSkip + m <= sectorSize && m <= size && (m == size || dataSkip + m == sectorSize)
  {
    var bufSize := if size < sectorSize then size + dataSkip else sectorSize;
    var capped := if bufSize > sectorSize then sectorSize else bufSize;
    capped - dataSkip
  }

  /** The sector loop of fat_readFile inside cluster number k of the file. */
  method ReadSectors(vol: Volume, cluster: nat, sectorSkip: nat, dataSkip0: nat, filePos: nat, buffer: array<Byte>,
                     bufferPos0: nat, size0: nat, ghost cs: seq<nat>, ghost k: nat)
    returns (dataSkip: nat, bufferPos: nat, size: nat)
    requires vol.Valid() && (buffer as object) !in vol.Repr()
    requires k < |cs| && cs[k] == cluster >= 2 && bufferPos0 + size0 <= buffer.Length
    requires IsSlice(vol.bpb, vol.cache.flat, cs, filePos, buffer[..bufferPos0])
    requires filePos + bufferPos0 + size0 <= Capacity(vol.bpb, |cs|)
    requires sectorSkip < vol.bpb.clusterSize && dataSkip0 < vol.bpb.sectorSize && size0 > 0
    requires Place(vol.bpb, filePos + bufferPos0, k, sectorSkip, dataSkip0)
    modifies buffer, vol.cache.Repr()
    ensures vol.Valid() && vol.cache.flat == old(vol.cache.flat)
    ensures bufferPos0 < bufferPos && bufferPos + size == bufferPos0 + size0
    ensures IsSlice(vol.bpb, vol.cache.flat, cs, filePos, buffer[..bufferPos])
    ensures size > 0 ==> dataSkip == 0 && Place(vol.bpb, filePos + bufferPos, k + 1, 0, 0)
  {
    hide SectorCache.Cache.Valid, Times, Place, IsSlice;
    dataSkip, bufferPos, size := dataSkip0, bufferPos0, size0;
    var startSector := ClusterSector(vol.bpb, cluster);
    var j := sectorSkip;
    while j < vol.bpb.clusterSize && size > 0
      invariant vol.Valid() && vol.cache.flat == old(vol.cache.flat)
      invariant sectorSkip <= j <= vol.bpb.clusterSize && (j == sectorSkip ==> size > 0)
      invariant bufferPos0 <= bufferPos && bufferPos + size == bufferPos0 + size0 && (j > sectorSkip ==> bufferPos0 < bufferPos)
      invariant IsSlice(vol.bpb, vol.cache.flat, cs, filePos, buffer[..bufferPos])
      invariant dataSkip < vol.bpb.sectorSize
      invariant size > 0 ==> Place(vol.bpb, filePos + bufferPos, k, j, dataSkip)
      invariant size > 0 && j == vol.bpb.clusterSize ==> dataSkip == 0 && Place(vol.bpb, filePos + bufferPos, k + 1, 0, 0)
    {
      var m := PartSize(size, dataSkip, vol.bpb.sectorSize);
      ReadOneSector(vol.bpb, vol.cache.flat, cs, filePos, buffer[..bufferPos], k, j, dataSkip, m);
      if dataSkip + m == vol.bpb.sectorSize {
        NextPlace(vol.bpb, filePos + bufferPos, k, j, dataSkip, m);
      }
      var p := vol.cache.ReadSector(startSector + j);
      CopyOut(vol.cache.sectorBuf[p], dataSkip, m, buffer, bufferPos);
      size := size - m;
      bufferPos := bufferPos + m;
      dataSkip := 0;
      j := j + 1;
    }
  }

  /** The cluster loop of fat_readFile over one chunk: clusters from+skip .. from+n of the file. */
  method ReadClusters(vol: Volume, skip: nat, n: nat, sectorSkip0: nat, dataSkip0: nat, filePos: nat,
                      buffer: array<Byte>, bufferPos0: nat, size0: nat, ghost cs: seq<nat>, ghost from: nat)
    returns (sectorSkip: nat, dataSkip: nat, bufferPos: nat, size: nat)
    requires vol.Valid() && (buffer as object) !in vol.Repr()
    requires skip < n <= MAX_DIR_CLUSTER && from + n <= |cs| && vol.cbuf[..n] == cs[from..from + n]
    requires bufferPos0 + size0 <= buffer.Length
    requires IsSlice(vol.bpb, vol.cache.flat, cs, filePos, buffer[..bufferPos0])
    requires filePos + bufferPos0 + size0 <= Capacity(vol.bpb, |cs|)
    requires sectorSkip0 < vol.bpb.clusterSize && dataSkip0 < vol.bpb.sectorSize && size0 > 0
    requires Place(vol.bpb, filePos + bufferPos0, from + skip, sectorSkip0, dataSkip0)
    modifies buffer, vol.cache.Repr()
    ensures vol.Valid() && vol.cache.flat == old(vol.cache.flat)
    ensures bufferPos0 < bufferPos && bufferPos + size == bufferPos0 + size0
    ensures IsSlice(vol.bpb, vol.cache.flat, cs, filePos, buffer[..bufferPos])
    ensures size > 0 ==> sectorSkip == 0 && dataSkip == 0 && Place(vol.bpb, filePos + bufferPos, from + n, 0, 0)
  {
    hide SectorCache.Cache.Valid, Times, Place, IsSlice, Table;
    sectorSkip, dataSkip, bufferPos, size := sectorSkip0, dataSkip0, bufferPos0, size0;
    var i := skip;
    SliceIsFile(vol.bpb, vol.cache.flat, cs, filePos, buffer[..bufferPos]);
    while i < n && size > 0
      invariant vol.Valid() && vol.cache.flat == old(vol.cache.flat)
      invariant skip <= i <= n && vol.cbuf[..n] == cs[from..from + n] && (i == skip ==> size > 0)
      invariant bufferPos0 <= bufferPos && bufferPos + size == bufferPos0 + size0 && (i > skip ==> bufferPos0 < bufferPos)
      invariant IsSlice(vol.bpb, vol.cache.flat, cs, filePos, buffer[..bufferPos])
      invariant size > 0 ==> sectorSkip < vol.bpb.clusterSize && dataSkip < vol.bpb.sectorSize
                             && Place(vol.bpb, filePos + bufferPos, from + i, sectorSkip, dataSkip)
      invariant size > 0 && i > skip ==> sectorSkip == 0 && dataSkip == 0
    {
      assert vol.cbuf[i] == vol.cbuf[..n][i] == cs[from + i];
      dataSkip, bufferPos, size := ReadSectors(vol, vol.cbuf[i], sectorSkip, dataSkip, filePos, buffer, bufferPos, size, cs, from + i);
      sectorSkip := 0;
      i := i + 1;
    }
  }

  /** Advance over whole chunks until the wanted cluster is in the buffer. */
  method SkipChunks(vol: Volume, fileCluster0: nat, chainSize0: nat, clusterSkip0: nat, full0: bool,
                    ghost cs: seq<nat>, ghost from0: nat, ghost idx: nat)
    returns (fileCluster: nat, chainSize: nat, clusterSkip: nat, full: bool, ghost from: nat)
    requires vol.Valid() && IsChain(vol.T(), vol.bpb.EndMark(), cs)
    requires from0 + clusterSkip0 < |cs| && ChunkLoaded(vol, fileCluster0, chainSize0, full0, cs, from0, idx)
    modifies vol`lastChainCluster, vol`lastChainResult, vol.cbuf, vol.cache.Repr()
    ensures vol.Valid() && vol.cache.flat == old(vol.cache.flat)
    ensures from + clusterSkip == from0 + clusterSkip0 && clusterSkip < chainSize
    ensures ChunkLoaded(vol, fileCluster, chainSize, full, cs, from, idx)
  {
    hide SectorCache.Cache.Valid, Table;
    fileCluster, chainSize, clusterSkip, full, from := fileCluster0, chainSize0, clusterSkip0, full0, from0;
    while clusterSkip >= MAX_DIR_CLUSTER
      invariant vol.Valid() && vol.cache.flat == old(vol.cache.flat)
      invariant from + clusterSkip == from0 + clusterSkip0 < |cs|
      invariant ChunkLoaded(vol, fileCluster, chainSize, full, cs, from, idx)
    {
      ghost var t := vol.T();
      fileCluster, chainSize, full := NextChunk(vol, fileCluster, cs, from, idx);
      assert vol.T() == t;
      from := from + MAX_DIR_CLUSTER;
      clusterSkip := clusterSkip - MAX_DIR_CLUSTER;
    }
  }

  /** The buffer holds the chunk of cs that starts at `from`; fileCluster is where the next one hangs. */
  ghost predicate ChunkLoaded(vol: Volume, fileCluster: nat, chainSize: nat, full: bool, cs: seq<nat>, from: nat, idx: nat)
    reads vol, vol.cbuf
  {
    && vol.cbuf.Length == MAX_DIR_CLUSTER && from < |cs|
    && chainSize == ChunkSize(|cs| - from) && vol.cbuf[..chainSize] == cs[from..from + chainSize]
    && (full <==> |cs| - from >= MAX_DIR_CLUSTER)
    && (full ==> fileCluster == cs[from + MAX_DIR_CLUSTER - 1])
    && (exists k :: 0 <= k <= from && cs[k] == vol.lastChainCluster)
    && idx <= from && MemoServes(vol, cs, 0) && MemoServes(vol, cs, idx)
    && (|cs| <= MAX_DIR_CLUSTER ==> vol.Coherent(cs))
  }

  /** A later chunk: the walk starts behind the last cluster of the previous one. */
  method NextChunk(vol: Volume, first: nat, ghost cs: seq<nat>, ghost from: nat, ghost idx: nat)
    returns (fileCluster: nat, chainSize: nat, full: bool)
    requires vol.Valid() && IsChain(vol.T(), vol.bpb.EndMark(), cs)
    requires from + MAX_DIR_CLUSTER < |cs| && ChunkLoaded(vol, first, MAX_DIR_CLUSTER, true, cs, from, idx)
    modifies vol`lastChainCluster, vol`lastChainResult, vol.cbuf, vol.cache.Repr()
    ensures vol.Valid() && vol.cache.flat == old(vol.cache.flat)
    ensures ChunkLoaded(vol, fileCluster, chainSize, full, cs, from + MAX_DIR_CLUSTER, idx)
  {
    hide SectorCache.Cache.Valid, Table;
    ghost var pivot := from + MAX_DIR_CLUSTER - 1;
    ghost var k :| 0 <= k <= from && cs[k] == vol.lastChainCluster;
    if cs[k] == cs[pivot] {
      ChainDistinct(vol.T(), vol.bpb.EndMark(), cs, k, pivot);
    }
    if cs[0] == cs[pivot] {
      ChainDistinct(vol.T(), vol.bpb.EndMark(), cs, 0, pivot);
    }
    if cs[idx] == cs[pivot] {
      ChainDistinct(vol.T(), vol.bpb.EndMark(), cs, idx, pivot);
    }
    chainSize, fileCluster, full := vol.LoadChunk(first, false, cs, pivot);
    assert cs[pivot] == vol.lastChainCluster;
  }

  lemma SliceIsFile(b: Bpb, flat: seq<Sector>, cs: seq<nat>, pos: nat, out: seq<Byte>)
    requires IsSlice(b, flat, cs, pos, out)
    ensures forall i :: 0 <= i < |cs| ==> cs[i] >= 2
  {
  }

  /** memcpy from a sector into the caller's buffer. */
  method CopyOut(sec: Sector, skip: nat, m: nat, buffer: array<Byte>, at: nat)
    requires skip + m <= |sec| && at + m <= buffer.Length
    modifies buffer
    ensures buffer[..at + m] == old(buffer[..at]) + sec[skip..skip + m]
  {
    forall i | 0 <= i < m {
      buffer[at + i] := sec[skip + i];
    }
  }

  /** Load the chunk that holds the cluster `clusterSkip0` behind the seek point. */
  method SeekChunk(vol: Volume, first: nat, clusterSkip0: nat, ghost cs: seq<nat>, ghost idx: nat)
    returns (fileCluster: nat, chainSize: nat, clusterSkip: nat, full: bool, ghost from: nat)
    requires vol.Valid() && IsChain(vol.T(), vol.bpb.EndMark(), cs)
    requires idx + clusterSkip0 < |cs| && cs[idx] == first
    requires vol.lastChainCluster == first ==> vol.HoldsChunk(cs, idx, vol.lastChainResult)
    modifies vol`lastChainCluster, vol`lastChainResult, vol.cbuf, vol.cache.Repr()
    ensures vol.Valid() && vol.cache.flat == old(vol.cache.flat)
    ensures from + clusterSkip == idx + clusterSkip0 && clusterSkip < chainSize
    ensures ChunkLoaded(vol, fileCluster, chainSize, full, cs, from, idx)
  {
    hide SectorCache.Cache.Valid, Table;
    ghost var t := vol.T();
    chainSize, fileCluster, full := vol.LoadChunk(first, true, cs, idx);
    assert vol.T() == t;
    assert cs[idx] == vol.lastChainCluster;
    fileCluster, chainSize, clusterSkip, full, from :=
      SkipChunks(vol, fileCluster, chainSize, clusterSkip0, full, cs, idx, idx);
  }

  /** The chunk loop of fat_readFile, from a loaded chunk on. */
  method ReadChunks(vol: Volume, fileCluster0: nat, chainSize0: nat, full0: bool, clusterSkip: nat, sectorSkip0: nat,
                    dataSkip0: nat, filePos: nat, buffer: array<Byte>, size0: nat, ghost cs: seq<nat>, ghost from0: nat, ghost idx: nat)
    returns (bufferPos: nat)
    requires vol.Valid() && (buffer as object) !in vol.Repr() && 0 < size0 <= buffer.Length
    requires IsChain(vol.T(), vol.bpb.EndMark(), cs) && IsFile(vol.bpb, vol.cache.flat, cs)
    requires filePos + size0 <= Capacity(vol.bpb, |cs|)
    requires ChunkLoaded(vol, fileCluster0, chainSize0, full0, cs, from0, idx) && clusterSkip < chainSize0
    requires sectorSkip0 < vol.bpb.clusterSize && dataSkip0 < vol.bpb.sectorSize
    requires Place(vol.bpb, filePos, from0 + clusterSkip, sectorSkip0, dataSkip0)
    modifies buffer, vol`lastChainCluster, vol`lastChainResult, vol.cbuf, vol.cache.Repr()
    ensures vol.Valid() && vol.cache.flat == old(vol.cache.flat)
    ensures bufferPos == size0 && IsSlice(vol.bpb, vol.cache.flat, cs, filePos, buffer[..bufferPos])
    ensures MemoServes(vol, cs, idx)
    ensures |cs| <= MAX_DIR_CLUSTER ==> vol.Coherent(cs)
  {
    hide SectorCache.Cache.Valid, Times, Place, Table, IsFile, IsChain;
    var fileCluster, chainSize, full := fileCluster0, chainSize0, full0;
    ghost var from: nat := from0;
    assert IsSlice(vol.bpb, vol.cache.flat, cs, filePos, []);
    assert buffer[..0] == [];
    ghost var t := vol.T();
    var sectorSkip, dataSkip, pos, size :=
      ReadClusters(vol, clusterSkip, chainSize, sectorSkip0, dataSkip0, filePos, buffer, 0, size0, cs, from);
    bufferPos := pos;
    while full && size > 0
      invariant vol.Valid() && vol.cache.flat == old(vol.cache.flat)
      invariant bufferPos + size == size0 && IsSlice(vol.bpb, vol.cache.flat, cs, filePos, buffer[..bufferPos])
      invariant ChunkLoaded(vol, fileCluster, chainSize, full, cs, from, idx)
      invariant size > 0 ==> sectorSkip == 0 && dataSkip == 0 && Place(vol.bpb, filePos + bufferPos, from + chainSize, 0, 0)
      decreases size
    {
      PlaceInFile(vol.bpb, filePos + bufferPos, from + chainSize, 0, 0, |cs|);
      assert vol.T() == t;
      fileCluster, chainSize, full := NextChunk(vol, fileCluster, cs, from, idx);
      from := from + MAX_DIR_CLUSTER;
      sectorSkip, dataSkip, bufferPos, size :=
        ReadClusters(vol, 0, chainSize, sectorSkip, dataSkip, filePos, buffer, bufferPos, size, cs, from);
    }
    if size > 0 {
      PlaceInFile(vol.bpb, filePos + bufferPos, from + chainSize, 0, 0, |cs|);
    }
  }

  /** fat_readFile: exactly the requested slice of the file, across sectors, clusters and chunks. */
  method ReadFile(vol: Volume, dir: FatDir, filePos: nat, buffer: array<Byte>, size: nat, ghost cs: seq<nat>)
    returns (bufferPos: nat)
    requires Ready(vol, dir) && (buffer as object) !in vol.Repr() + dir.Repr() && size <= buffer.Length
    requires IsChain(vol.T(), vol.bpb.EndMark(), cs) && IsFile(vol.bpb, vol.cache.flat, cs)
    requires PointsOk(dir.chain[..], cs, DIR_CHAIN_SIZE) && SeekServes(vol, dir.chain[..], cs, filePos)
    requires filePos + size <= Capacity(vol.bpb, |cs|)
    modifies buffer, vol`lastChainCluster, vol`lastChainResult, vol.cbuf, vol.cache.Repr()
    ensures Ready(vol, dir) && vol.cache.flat == old(vol.cache.flat)
    ensures bufferPos == size && IsSlice(vol.bpb, vol.cache.flat, cs, filePos, buffer[..bufferPos])
    ensures SeekServes(vol, dir.chain[..], cs, filePos)
    ensures |cs| <= MAX_DIR_CLUSTER && old(vol.Coherent(cs)) ==> vol.Coherent(cs)
  {
    hide SectorCache.Cache.Valid, Times, Quot, Rem, Place, PointsOk, Table, Distinct;
    var fileCluster, clusterPos, idx := GetClusterAtFilePos(vol.bpb, dir, filePos, cs);
    var sectorSkip := Quot(filePos - clusterPos, vol.bpb.sectorSize);
    var clusterSkip := Quot(sectorSkip, vol.bpb.clusterSize);
    sectorSkip := Rem(sectorSkip, vol.bpb.clusterSize);
    var dataSkip := Rem(filePos, vol.bpb.sectorSize);
    SeekPlace(vol.bpb, filePos, idx);
    bufferPos := 0;
    if fileCluster < 2 {
      return;
    }
    if size <= 0 {
      return;
    }
    ghost var t := vol.T();
    PlaceInFile(vol.bpb, filePos, idx + clusterSkip, sectorSkip, dataSkip, |cs|);
    var chunkEnd, chainSize, skip, full, from := SeekChunk(vol, fileCluster, clusterSkip, cs, idx);
    assert vol.T() == t;
    bufferPos := ReadChunks(vol, chunkEnd, chainSize, full, skip, sectorSkip, dataSkip, filePos, buffer, size, cs, from, idx);
    ServesItsPoint(vol, dir.chain[..], cs, filePos, ChainPoint(fileCluster, idx));
  }

  lemma SeekPlace(b: Bpb, filePos: nat, idx: nat)
    requires b.sectorSize > 0 && b.clusterSize > 0 && Times(idx, ClusterBytes(b)) <= filePos
    ensures var q := Quot(filePos - Times(idx, ClusterBytes(b)), b.sectorSize);
      Place(b, filePos, idx + Quot(q, b.clusterSize), Rem(q, b.clusterSize), Rem(filePos, b.sectorSize))
  {
    SeekLands(b, filePos, idx);
  }

  // ----- writing -----

  /** The sector loop of fat_writeFile inside cluster number k of the file. */
  method WriteSectors(vol: Volume, cluster: nat, sectorSkip: nat, dataSkip0: nat, filePos: nat, buffer: seq<Byte>,
                      bufferPos0: nat, ghost f: seq<Sector>, ghost cs: seq<nat>, ghost k: nat)
    returns (dataSkip: nat, bufferPos: nat)
    requires vol.Valid() && k < |cs| && cs[k] == cluster >= 2 && bufferPos0 < |buffer|
    requires Written(vol.bpb, f, vol.cache.flat, cs, filePos, buffer[..bufferPos0])
    requires filePos + |buffer| <= Capacity(vol.bpb, |cs|)
    requires sectorSkip < vol.bpb.clusterSize && dataSkip0 < vol.bpb.sectorSize
    requires Place(vol.bpb, filePos + bufferPos0, k, sectorSkip, dataSkip0)
    modifies vol.cache.Repr()
    ensures vol.Valid() && bufferPos0 < bufferPos <= |buffer|
    ensures Written(vol.bpb, f, vol.cache.flat, cs, filePos, buffer[..bufferPos])
    ensures bufferPos < |buffer| ==> dataSkip == 0 && Place(vol.bpb, filePos + bufferPos, k + 1, 0, 0)
  {
    hide SectorCache.Cache.Valid, Times, Place, Written;
    dataSkip, bufferPos := dataSkip0, bufferPos0;
    var startSector := ClusterSector(vol.bpb, cluster);
    var j := sectorSkip;
    while j < vol.bpb.clusterSize && bufferPos < |buffer|
      invariant vol.Valid() && sectorSkip <= j <= vol.bpb.clusterSize && dataSkip < vol.bpb.sectorSize
      invariant bufferPos0 <= bufferPos <= |buffer| && (j > sectorSkip ==> bufferPos0 < bufferPos)
      invariant Written(vol.bpb, f, vol.cache.flat, cs, filePos, buffer[..bufferPos])
      invariant bufferPos < |buffer| ==> Place(vol.bpb, filePos + bufferPos, k, j, dataSkip)
      invariant bufferPos < |buffer| && j == vol.bpb.clusterSize ==>
                  dataSkip == 0 && Place(vol.bpb, filePos + bufferPos, k + 1, 0, 0)
    {
      var m := PartSize(|buffer| - bufferPos, dataSkip, vol.bpb.sectorSize);
      if dataSkip + m == vol.bpb.sectorSize {
        NextPlace(vol.bpb, filePos + bufferPos, k, j, dataSkip, m);
      }
      WriteOneSectorOf(vol, startSector + j, dataSkip, buffer, bufferPos, m, filePos, f, cs, k, j);
      bufferPos := bufferPos + m;
      dataSkip := 0;
      j := j + 1;
    }
  }

  /** Read a sector, overwrite part of it, and report it dirty. */
  method WriteOneSectorOf(vol: Volume, sector: nat, dataSkip: nat, buffer: seq<Byte>, bufferPos: nat, m: nat,
                          filePos: nat, ghost f: seq<Sector>, ghost cs: seq<nat>, ghost k: nat, ghost j: nat)
    requires vol.Valid() && k < |cs| && cs[k] >= 2 && j < vol.bpb.clusterSize
    requires sector == ClusterSector(vol.bpb, cs[k]) + j
    requires bufferPos + m <= |buffer| && dataSkip + m <= vol.bpb.sectorSize
    requires Written(vol.bpb, f, vol.cache.flat, cs, filePos, buffer[..bufferPos])
    requires Place(vol.bpb, filePos + bufferPos, k, j, dataSkip)
    requires filePos + bufferPos + m <= Capacity(vol.bpb, |cs|)
    modifies vol.cache.Repr()
    ensures vol.Valid()
    ensures Written(vol.bpb, f, vol.cache.flat, cs, filePos, buffer[..bufferPos + m])
  {
    hide SectorCache.Cache.Valid, Times, Written, Plain;
    ghost var g := vol.cache.flat;
    var part := buffer[bufferPos..bufferPos + m];
    WriteOneSector(vol.bpb, f, g, cs, filePos, buffer[..bufferPos], k, j, dataSkip, part);
    assert buffer[..bufferPos] + part == buffer[..bufferPos + m];
    var p := vol.cache.ReadSector(sector);
    var sec := vol.cache.sectorBuf[p];
    var _ := vol.cache.Store(p, sector, sec[..dataSkip] + part + sec[dataSkip + m..]);
    WrittenIsOnDisk(vol.bpb, f, vol.cache.flat, cs, filePos, buffer[..bufferPos + m]);
    DataKeepsPlain(vol.bpb, g, sector, sec[..dataSkip] + part + sec[dataSkip + m..]);
  }

  lemma WrittenIsOnDisk(b: Bpb, f: seq<Sector>, g: seq<Sector>, cs: seq<nat>, pos: nat, data: seq<Byte>)
    requires Written(b, f, g, cs, pos, data)
    ensures OnDisk(b, g) && IsFile(b, g, cs) && |f| == |g|
    ensures IsSlice(b, g, cs, pos, data)
  {
    hide FileByte, Capacity;
    forall i | 0 <= i < |data|
      ensures data[i] == FileByte(b, g, cs, pos + i)
    {
    }
  }

  /** The cluster loop of fat_writeFile over one chunk. */
  method WriteClusters(vol: Volume, skip: nat, n: nat, sectorSkip0: nat, dataSkip0: nat, filePos: nat,
                       buffer: seq<Byte>, bufferPos0: nat, ghost f: seq<Sector>, ghost cs: seq<nat>, ghost from: nat)
    returns (sectorSkip: nat, dataSkip: nat, bufferPos: nat)
    requires vol.Valid() && skip < n <= MAX_DIR_CLUSTER && from + n <= |cs| && vol.cbuf[..n] == cs[from..from + n]
    requires bufferPos0 < |buffer| && Written(vol.bpb, f, vol.cache.flat, cs, filePos, buffer[..bufferPos0])
    requires filePos + |buffer| <= Capacity(vol.bpb, |cs|)
    requires sectorSkip0 < vol.bpb.clusterSize && dataSkip0 < vol.bpb.sectorSize
    requires Place(vol.bpb, filePos + bufferPos0, from + skip, sectorSkip0, dataSkip0)
    requires forall i :: 0 <= i < |cs| ==> cs[i] >= 2
    modifies vol.cache.Repr()
    ensures vol.Valid() && bufferPos0 < bufferPos <= |buffer|
    ensures Written(vol.bpb, f, vol.cache.flat, cs, filePos, buffer[..bufferPos])
    ensures bufferPos < |buffer| ==>
              sectorSkip == 0 && dataSkip == 0 && Place(vol.bpb, filePos + bufferPos, from + n, 0, 0)
  {
    hide SectorCache.Cache.Valid, Times, Place, Written, Table;
    sectorSkip, dataSkip, bufferPos := sectorSkip0, dataSkip0, bufferPos0;
    var i := skip;
    while i < n && bufferPos < |buffer|
      invariant vol.Valid() && skip <= i <= n && vol.cbuf[..n] == cs[from..from + n]
      invariant bufferPos0 <= bufferPos <= |buffer| && (i > skip ==> bufferPos0 < bufferPos)
      invariant Written(vol.bpb, f, vol.cache.flat, cs, filePos, buffer[..bufferPos])
      invariant bufferPos < |buffer| ==> sectorSkip < vol.bpb.clusterSize && dataSkip < vol.bpb.sectorSize
                                         && Place(vol.bpb, filePos + bufferPos, from + i, sectorSkip, dataSkip)
      invariant bufferPos < |buffer| && i > skip ==> sectorSkip == 0 && dataSkip == 0
    {
      assert vol.cbuf[i] == vol.cbuf[..n][i] == cs[from + i];
      dataSkip, bufferPos := WriteSectors(vol, vol.cbuf[i], sectorSkip, dataSkip, filePos, buffer, bufferPos, f, cs, from + i);
      sectorSkip := 0;
      i := i + 1;
    }
  }

  lemma FromTwo(t: seq<nat>, endMark: nat, cs: seq<nat>)
    requires IsChain(t, endMark, cs)
    ensures forall i :: 0 <= i < |cs| ==> cs[i] >= 2
  {
  }

  /** The chunk loop of fat_writeFile, from a loaded chunk on. */
  method WriteChunks(vol: Volume, fileCluster0: nat, chainSize0: nat, full0: bool, clusterSkip: nat, sectorSkip0: nat,
                     dataSkip0: nat, filePos: nat, buffer: seq<Byte>, ghost cs: seq<nat>, ghost from0: nat, ghost idx: nat)
    returns (bufferPos: nat)
    requires vol.Valid() && |buffer| > 0
    requires IsChain(vol.T(), vol.bpb.EndMark(), cs) && IsFile(vol.bpb, vol.cache.flat, cs)
    requires filePos + |buffer| <= Capacity(vol.bpb, |cs|)
    requires ChunkLoaded(vol, fileCluster0, chainSize0, full0, cs, from0, idx) && clusterSkip < chainSize0
    requires sectorSkip0 < vol.bpb.clusterSize && dataSkip0 < vol.bpb.sectorSize
    requires Place(vol.bpb, filePos, from0 + clusterSkip, sectorSkip0, dataSkip0)
    modifies vol`lastChainCluster, vol`lastChainResult, vol.cbuf, vol.cache.Repr()
    ensures vol.Valid() && bufferPos == |buffer|
    ensures Written(vol.bpb, old(vol.cache.flat), vol.cache.flat, cs, filePos, buffer)
    ensures MemoServes(vol, cs, 0) && MemoServes(vol, cs, idx)
    ensures |cs| <= MAX_DIR_CLUSTER ==> vol.Coherent(cs)
  {
    hide SectorCache.Cache.Valid, Times, Place, Table, Written, Distinct, InData, Capacity, IsChain, IsFile;
    var fileCluster, chainSize, full := fileCluster0, chainSize0, full0;
    ghost var from: nat := from0;
    ghost var f := vol.cache.flat;
    ghost var t := vol.T();
    FromTwo(t, vol.bpb.EndMark(), cs);
    WrittenNothing(vol.bpb, f, cs, filePos);
    assert buffer[..0] == [];
    var sectorSkip, dataSkip, pos := WriteClusters(vol, clusterSkip, chainSize, sectorSkip0, dataSkip0, filePos, buffer, 0, f, cs, from);
    bufferPos := pos;
    while full && bufferPos < |buffer|
      invariant vol.Valid() && bufferPos <= |buffer|
      invariant Written(vol.bpb, f, vol.cache.flat, cs, filePos, buffer[..bufferPos])
      invariant ChunkLoaded(vol, fileCluster, chainSize, full, cs, from, idx)
      invariant bufferPos < |buffer| ==>
                  sectorSkip == 0 && dataSkip == 0 && Place(vol.bpb, filePos + bufferPos, from + chainSize, 0, 0)
      decreases |buffer| - bufferPos
    {
      PlaceInFile(vol.bpb, filePos + bufferPos, from + chainSize, 0, 0, |cs|);
      WrittenKeepsTable(vol.bpb, f, vol.cache.flat, cs, filePos, buffer[..bufferPos], 0);
      fileCluster, chainSize, full := NextChunk(vol, fileCluster, cs, from, idx);
      from := from + MAX_DIR_CLUSTER;
      sectorSkip, dataSkip, bufferPos :=
        WriteClusters(vol, 0, chainSize, sectorSkip, dataSkip, filePos, buffer, bufferPos, f, cs, from);
    }
    if bufferPos < |buffer| {
      PlaceInFile(vol.bpb, filePos + bufferPos, from + chainSize, 0, 0, |cs|);
    }
    assert buffer[..|buffer|] == buffer;
  }

  /** Every free record of the table names a cluster of the data area. */
  ghost predicate FreeInData(b: Bpb, size: nat, t: seq<nat>)
    requires b.sectorSize >= 32
  {
    forall c :: 2 <= c < |t| && t[c] == 0 ==> ClusterSector(b, c) + b.clusterSize <= size
  }

  /** Clusters have been hung behind element k of chain cs of the table t: it has become chain ds
      of the table u, and every chain that did not run through that element is as it was. */
  ghost predicate Grown(t: seq<nat>, u: seq<nat>, endMark: nat, cs: seq<nat>, k: nat, ds: seq<nat>) {
    && IsChain(t, endMark, cs) && IsChain(u, endMark, ds) && |u| == |t| && k < |cs|
    && (ds == cs || (|ds| > k + 1 && ds[..k + 1] == cs[..k + 1] && forall i :: k < i < |ds| ==> t[ds[i]] == 0))
    && (forall es :: IsChain(t, endMark, es) && cs[k] !in es ==> IsChain(u, endMark, es))
    && (forall c :: 2 <= c < |t| && u[c] == 0 ==> t[c] == 0)
  }

  /** The clusters of cs that the file still has. */
  ghost function Kept(cs: seq<nat>, k: nat, ds: seq<nat>): seq<nat>
    requires k < |cs|
  {
    if ds == cs then cs else cs[..k + 1]
  }

  lemma KeptIsPrefix(t: seq<nat>, u: seq<nat>, endMark: nat, cs: seq<nat>, k: nat, ds: seq<nat>)
    requires Grown(t, u, endMark, cs, k, ds)
    ensures Kept(cs, k, ds) <= ds && cs[..k + 1] <= ds && k < |ds| && ds[k] == cs[k] && ds[..k + 1] == cs[..k + 1]
  {
    assert ds != cs ==> ds[..k + 1][k] == ds[k];
  }

  lemma GrownOnce(t: seq<nat>, u: seq<nat>, endMark: nat, cs: seq<nat>, k: nat, ds: seq<nat>, next: nat, last: nat)
    requires Grown(t, u, endMark, cs, k, ds) && 2 <= next < |u| && next < endMark && u[next] == 0 && last >= endMark > 0
    requires ds == cs ==> u == t
    ensures var j := if ds == cs then k else |ds| - 1;
      Grown(t, Linked(u, ds[j], next, last), endMark, cs, k, ds[..j + 1] + [next])
  {
    hide IsChain;
    NewIsNew(t, u, endMark, cs, k, ds, next);
    var j := if ds == cs then k else |ds| - 1;
    var v, more := Linked(u, ds[j], next, last), ds[..j + 1] + [next];
    AppendBehind(u, endMark, ds, j, next, last, ds);
    assert |more| > k + 1 && more[..k + 1] == cs[..k + 1] by {
      if ds != cs {
        assert more[..k + 1] == ds[..k + 1];
      }
    }
    forall es | IsChain(t, endMark, es) && cs[k] !in es
      ensures IsChain(v, endMark, es)
    {
      if ds != cs {
        FreeOffChain(t, endMark, es, ds[j]);
      }
      AppendBehind(u, endMark, ds, j, next, last, es);
    }
    LinkedFree(u, ds[j], next, last);
  }

  lemma NewIsNew(t: seq<nat>, u: seq<nat>, endMark: nat, cs: seq<nat>, k: nat, ds: seq<nat>, next: nat)
    requires Grown(t, u, endMark, cs, k, ds) && 2 <= next < |u| && u[next] == 0
    ensures t[next] == 0 && next !in cs && (forall i :: 0 <= i < |ds| ==> 2 <= ds[i] < |u|)
  {
    FreeOffChain(t, endMark, cs, next);
  }

  lemma LinkedFree(u: seq<nat>, cur: nat, next: nat, last: nat)
    requires cur < |u| && 2 <= next < |u| && last > 0
    ensures forall c :: 2 <= c < |u| && Linked(u, cur, next, last)[c] == 0 ==> u[c] == 0
  {
  }

  /** A file that grew behind its last cluster keeps all its clusters. One that grew behind an
      earlier one has lost the clusters after it: they are in use, and the file does not have
      them any more. */
  lemma LostClusters(t: seq<nat>, u: seq<nat>, endMark: nat, cs: seq<nat>, k: nat, ds: seq<nat>)
    requires Grown(t, u, endMark, cs, k, ds)
    ensures (forall c :: c in cs ==> c in ds) <==> ds == cs || k + 1 == |cs|
    ensures ds != cs ==> forall j :: k < j < |cs| ==> cs[j] !in ds && u[cs[j]] != 0
  {
    KeptIsPrefix(t, u, endMark, cs, k, ds);
    forall j | k < j < |cs| && ds != cs
      ensures cs[j] !in ds && u[cs[j]] != 0
    {
      if t[cs[j]] == 0 {
        FreeOffChain(t, endMark, cs, cs[j]);
      }
      forall i | 0 <= i < |ds|
        ensures ds[i] != cs[j]
      {
        if i <= k {
          assert ds[..k + 1][i] == cs[..k + 1][i];
          if cs[i] == cs[j] {
            ChainDistinct(t, endMark, cs, i, j);
          }
        }
      }
    }
    if k + 1 < |cs| {
      assert cs[k + 1] in cs;
    } else {
      assert cs[..k + 1] == cs;
    }
  }

  /** A chain in the data area is a file: it never visits a cluster twice. */
  lemma ChainIsFile(b: Bpb, flat: seq<Sector>, t: seq<nat>, cs: seq<nat>)
    requires OnDisk(b, flat) && IsChain(t, b.EndMark(), cs) && InData(b, |flat|, cs)
    ensures IsFile(b, flat, cs)
  {
    hide Times, OnDisk, InData;
    forall i, j | 0 <= i < |cs| && 0 <= j < |cs| && cs[i] == cs[j]
      ensures i == j
    {
      ChainDistinct(t, b.EndMark(), cs, i, j);
    }
  }

  /** How an allocator with reserve r and last scan `last` looks after m clusters have been taken. */
  ghost predicate Drained(r: set<nat>, last: nat, r': set<nat>, last': nat, m: nat) {
    r' <= r && |r'| + m == |r| && last <= last' && (last' == last || last' in r)
  }

  lemma DrainedOnce(r: set<nat>, last: nat, r1: set<nat>, last1: nat, m: nat, c: nat, last2: nat)
    requires Drained(r, last, r1, last1, m)
    ensures |r1| + m == |r|
    ensures c in r1 && last1 <= last2 && (last2 == last1 || last2 in r1) ==>
              Drained(r, last, r1 - {c}, last2, m + 1) && |r1 - {c}| + m + 1 == |r|
  {
  }

  lemma NotDrained(r: set<nat>, last: nat)
    ensures Drained(r, last, r, last, 0)
  {
  }

  lemma OutsideTwice(b: Bpb, f: seq<Sector>, g: seq<Sector>, h: seq<Sector>)
    ensures SameOutsideFat(b, f, f)
    ensures SameOutsideFat(b, f, g) && SameOutsideFat(b, g, h) ==> SameOutsideFat(b, f, h) && |f| == |h|
  {
  }

  /** The allocation loop of fat_writeFile: n more clusters behind lastCluster0, element k of the
      chain. It fails if and only if fewer can be handed out, and then all of those are added. */
  method GrowFile(vol: Volume, lastCluster0: nat, n: nat, ghost cs: seq<nat>, ghost k: nat)
    returns (lastCluster: nat, ghost ds: seq<nat>)
    requires vol.Valid() && vol.StackOk() && vol.Slackless() && vol.T()[0] != 0 && vol.T()[1] != 0
    requires IsChain(vol.T(), vol.bpb.EndMark(), cs) && k < |cs| && lastCluster0 == cs[k]
    requires FreeInData(vol.bpb, |vol.cache.flat|, vol.T()) && InData(vol.bpb, |vol.cache.flat|, cs)
    modifies vol`clStackIndex, vol`clStackLast, vol.clStack, vol.cache.Repr()
    ensures vol.Valid() && vol.StackOk() && vol.Slackless() && vol.T()[0] != 0 && vol.T()[1] != 0
    ensures SameOutsideFat(vol.bpb, old(vol.cache.flat), vol.cache.flat)
    ensures Grown(old(vol.T()), vol.T(), vol.bpb.EndMark(), cs, k, ds) && InData(vol.bpb, |vol.cache.flat|, ds)
    ensures lastCluster != 0 && n > 0 ==> ds != cs && |ds| == k + 1 + n && lastCluster == ds[|ds| - 1]
    ensures n == 0 ==> lastCluster == lastCluster0 && ds == cs
    ensures ds == cs ==> vol.cache.flat == old(vol.cache.flat)
    ensures lastCluster == 0 <==> n > |old(vol.Reserve())|
    ensures lastCluster == 0 ==> && Exhausted(vol.bpb, vol.cache.flat, vol.Stack(), vol.clStackLast)
                                 && (ds == cs <==> |old(vol.Reserve())| == 0)
                                 && (ds != cs ==> |ds| == k + 1 + |old(vol.Reserve())|)
    ensures Drained(old(vol.Reserve()), old(vol.clStackLast), vol.Reserve(), vol.clStackLast, if ds == cs then 0 else |ds| - (k + 1))
  {
    hide SectorCache.Cache.Valid, Table, Times, Gathered, FreeIn, FreeStack, Popped, RawAt, Grown, Supply, Drained, InData, FreeInData,
         SameOutsideFat, Exhausted, Linked, IsChain;
    lastCluster := lastCluster0;
    ds := cs;
    ghost var f := vol.cache.flat;
    ghost var t := vol.T();
    NotGrown(t, vol.bpb.EndMark(), cs, k);
    ghost var r0, last0 := vol.Reserve(), vol.clStackLast;
    NotDrained(r0, last0);
    OutsideTwice(vol.bpb, f, f, f);
    for i := 0 to n
      invariant vol.Valid() && vol.StackOk() && vol.Slackless() && vol.T()[0] != 0 && vol.T()[1] != 0
      invariant SameOutsideFat(vol.bpb, f, vol.cache.flat) && |vol.cache.flat| == |f|
      invariant Grown(t, vol.T(), vol.bpb.EndMark(), cs, k, ds) && InData(vol.bpb, |f|, ds) && lastCluster != 0
      invariant Drained(r0, last0, vol.Reserve(), vol.clStackLast, i) && |vol.Reserve()| + i == |r0|
      invariant if i == 0 then ds == cs && vol.cache.flat == f && lastCluster == cs[k]
                else ds != cs && |ds| == k + 1 + i && lastCluster == ds[|ds| - 1]
    {
      ghost var u := vol.T();
      ghost var j := if ds == cs then k else |ds| - 1;
      EndInUse(t, u, vol.bpb.EndMark(), cs, k, ds, j);
      NoSupply(vol.bpb, vol.cache.flat, vol.Stack(), vol.clStackLast);
      ghost var g, r, l := vol.cache.flat, vol.Reserve(), vol.clStackLast;
      lastCluster := vol.GetFreeCluster(lastCluster);
      DrainedOnce(r0, last0, r, l, i, lastCluster, vol.clStackLast);
      OutsideTwice(vol.bpb, f, g, vol.cache.flat);
      if lastCluster == 0 {
        return;
      }
      GrownOnce(t, u, vol.bpb.EndMark(), cs, k, ds, lastCluster, vol.bpb.LastRecord());
      TakenIsLinked(u, ds[j], lastCluster, vol.bpb.LastRecord(), vol.bpb.Modulus());
      assert vol.T() == Linked(u, ds[j], lastCluster, vol.bpb.LastRecord());
      FreeIsData(vol.bpb, |f|, t, u, lastCluster, ds, j);
      ds := ds[..j + 1] + [lastCluster];
      Longer(t, vol.T(), vol.bpb.EndMark(), cs, k, ds, lastCluster);
    }
  }

  lemma NotGrown(t: seq<nat>, endMark: nat, cs: seq<nat>, k: nat)
    requires IsChain(t, endMark, cs) && k < |cs|
    ensures Grown(t, t, endMark, cs, k, cs) && cs[k] != 0
  {
  }

  lemma EndInUse(t: seq<nat>, u: seq<nat>, endMark: nat, cs: seq<nat>, k: nat, ds: seq<nat>, j: nat)
    requires Grown(t, u, endMark, cs, k, ds) && j < |ds|
    ensures IsChain(u, endMark, ds) && 2 <= ds[j] < |u| && u[ds[j]] != 0 && (forall c :: 2 <= c < |t| && u[c] == 0 ==> t[c] == 0)
    ensures k < |cs| && |u| == |t| && IsChain(t, endMark, cs)
  {
    if u[ds[j]] == 0 {
      FreeOffChain(u, endMark, ds, ds[j]);
    }
  }

  lemma FreeIsData(b: Bpb, size: nat, t: seq<nat>, u: seq<nat>, c: nat, ds: seq<nat>, j: nat)
    requires b.sectorSize >= 32 && FreeInData(b, size, t) && |u| == |t| && 2 <= c < |u| && u[c] == 0
    requires (forall x :: 2 <= x < |t| && u[x] == 0 ==> t[x] == 0) && InData(b, size, ds) && j < |ds|
    ensures InData(b, size, ds[..j + 1] + [c])
  {
    hide Times;
  }

  /** A chain with a cluster that was free is not the old chain. */
  lemma Longer(t: seq<nat>, u: seq<nat>, endMark: nat, cs: seq<nat>, k: nat, ds: seq<nat>, c: nat)
    requires Grown(t, u, endMark, cs, k, ds) && c in ds && 2 <= c < |t| && t[c] == 0
    ensures ds != cs && IsChain(t, endMark, cs)
  {
    FreeOffChain(t, endMark, cs, c);
  }

  /** Clusters of l bytes that x bytes need. */
  function ClustersFor(x: nat, l: nat): nat
    requires l > 0
  {
    if Rem(x, l) > 0 then Quot(x, l) + 1 else Quot(x, l)
  }

  /** ClustersFor is the least number of clusters that holds x bytes. */
  lemma LeastClusters(x: nat, l: nat)
    requires l > 0
    ensures x <= Times(ClustersFor(x, l), l)
    ensures forall n: nat :: n < ClustersFor(x, l) ==> Times(n, l) < x
  {
    QuotRem(x, l);
    forall n: nat | n < ClustersFor(x, l)
      ensures Times(n, l) < x
    {
      TimesMonotone(n, Quot(x, l), l);
      if Rem(x, l) == 0 {
        TimesApart(n, Quot(x, l), l);
      }
    }
  }

  /** Growing by the clusters the excess needs gives the clusters the whole needs. */
  lemma GrowthIsLeast(n: nat, end: nat, l: nat)
    requires l > 0 && Times(n, l) < end
    ensures n + ClustersFor(end - Times(n, l), l) == ClustersFor(end, l) > n
  {
    hide Times, Quot, Rem;
    var r := end - Times(n, l);
    QuotRem(r, l);
    TimesAdds(n, Quot(r, l), l);
    QuotRemOf(n + Quot(r, l), Rem(r, l), l);
    QuotBelow(r, 1, l);
    LeastClusters(end, l);
    if ClustersFor(end, l) <= n {
      TimesMonotone(ClustersFor(end, l), n, l);
    }
  }

  /** Clusters a file of this size occupies: at least one. */
  function FileClusters(b: Bpb, size: nat): nat
    requires ClusterBytes(b) > 0
  {
    var j := ClustersFor(size, ClusterBytes(b));
    if j == 0 then 1 else j
  }

  const ENOSPC := 28

  /** What fat_writeFile promises when it succeeds: disk g is disk f with data at pos in the
      file, whose chain cs has become ds; every other byte outside the tables is as it was. */
  ghost predicate WroteFile(b: Bpb, f: seq<Sector>, g: seq<Sector>, cs: seq<nat>, ds: seq<nat>, pos: nat, data: seq<Byte>) {
    && |f| == |g| && IsFile(b, f, cs) && cs <= ds && IsSlice(b, g, ds, pos, data)
    && Capacity(b, |cs|) <= Capacity(b, |ds|)
    && (forall p :: 0 <= p < Capacity(b, |cs|) && !(pos <= p < pos + |data|) ==>
          FileByte(b, g, ds, p) == FileByte(b, f, cs, p))
    && (forall s :: 0 <= s < |f| && !(b.FatStart(0) <= s < b.FatStart(b.fatCount)) && !Owns(b, ds, s) ==> g[s] == f[s])
  }

  lemma WroteFileFrom(b: Bpb, f: seq<Sector>, f': seq<Sector>, g: seq<Sector>, cs: seq<nat>, ds: seq<nat>, pos: nat, data: seq<Byte>)
    requires IsFile(b, f, cs) && SameOutsideFat(b, f, f') && cs <= ds && Written(b, f', g, ds, pos, data)
    ensures WroteFile(b, f, g, cs, ds, pos, data)
  {
    hide Times, FileByte;
    CapacityGrows(b, |cs|, |ds|);
    WrittenIsOnDisk(b, f', g, ds, pos, data);
    forall p | 0 <= p < Capacity(b, |cs|) && !(pos <= p < pos + |data|)
      ensures FileByte(b, g, ds, p) == FileByte(b, f, cs, p)
    {
      TableChangeKeepsFile(b, f, f', cs, ds, p);
    }
  }

  /** The bytes the clusters of a file of this size hold. */
  function EndOfClusters(b: Bpb, size: nat): nat
    requires ClusterBytes(b) > 0
  {
    Times(FileClusters(b, size), ClusterBytes(b))
  }

  /** Clusters that are missing when a file of this size is written up to `end`. */
  function Lacking(b: Bpb, size: nat, end: nat): int
    requires ClusterBytes(b) > 0
  {
    if end > EndOfClusters(b, size) then ClustersFor(end, ClusterBytes(b)) - FileClusters(b, size) else 0
  }

  /** The allocation part of fat_writeFile. The file has at least the clusters its size needs, and
      lastCluster is element k of its chain. */
  method MakeRoom(vol: Volume, dir: FatDir, filePos: nat, size: nat, ghost cs: seq<nat>, ghost k: nat)
    returns (ok: bool, added: nat, ghost ds: seq<nat>)
    requires Ready(vol, dir) && vol.StackOk() && vol.Slackless() && vol.T()[0] != 0 && vol.T()[1] != 0
    requires IsChain(vol.T(), vol.bpb.EndMark(), cs) && InData(vol.bpb, |vol.cache.flat|, cs)
    requires FreeInData(vol.bpb, |vol.cache.flat|, vol.T())
    requires ClusterBytes(vol.bpb) > 0 && FileClusters(vol.bpb, dir.size) <= k + 1 <= |cs|
    requires dir.lastCluster == 0 || dir.lastCluster == cs[k]
    modifies dir`lastCluster, vol`lastChainCluster, vol`clStackIndex, vol`clStackLast, vol.clStack, vol.cache.Repr()
    ensures Ready(vol, dir) && vol.StackOk() && vol.Slackless() && vol.T()[0] != 0 && vol.T()[1] != 0
    ensures SameOutsideFat(vol.bpb, old(vol.cache.flat), vol.cache.flat)
    ensures Grown(old(vol.T()), vol.T(), vol.bpb.EndMark(), cs, k, ds) && InData(vol.bpb, |vol.cache.flat|, ds)
    ensures ds == cs ==> vol.cache.flat == old(vol.cache.flat)
    ensures !ok ==> dir.lastCluster == old(dir.lastCluster) && filePos + size > EndOfClusters(vol.bpb, dir.size)
                    && (dir.lastCluster == 0 || Exhausted(vol.bpb, vol.cache.flat, vol.Stack(), vol.clStackLast))
    ensures old(dir.lastCluster) != 0 ==>
              && (!ok <==> Lacking(vol.bpb, dir.size, filePos + size) > |old(vol.Reserve())|)
              && (!ok ==> (ds == cs <==> |old(vol.Reserve())| == 0) && (ds != cs ==> |ds| == k + 1 + |old(vol.Reserve())|))
    ensures Drained(old(vol.Reserve()), old(vol.clStackLast), vol.Reserve(), vol.clStackLast, if ds == cs then 0 else |ds| - (k + 1))
    ensures if ok && added > 0 then vol.lastChainCluster == 0 else vol.lastChainCluster == old(vol.lastChainCluster)
    ensures ok ==> (added > 0 <==> filePos + size > EndOfClusters(vol.bpb, dir.size))
                   && filePos + size <= Times(|ds|, ClusterBytes(vol.bpb))
    ensures ok && added == 0 ==> ds == cs && dir.lastCluster == old(dir.lastCluster)
    ensures ok && added > 0 ==> ds != cs && |ds| == k + 1 + added && dir.lastCluster == ds[|ds| - 1]
                                && |ds| - (k + 1) == ClustersFor(filePos + size, ClusterBytes(vol.bpb)) - FileClusters(vol.bpb, dir.size)
  {
    hide SectorCache.Cache.Valid, Table, Times, Quot, Rem, Gathered, FreeIn, FreeStack, Exhausted, Grown, Supply;
    var i := ClusterBytes(vol.bpb);
    var j := FileClusters(vol.bpb, dir.size);
    var endPosCluster := Times(j, i);
    var endPosFile := filePos + size;
    ds, ok, added := cs, true, 0;
    NotGrown(vol.T(), vol.bpb.EndMark(), cs, k);
    TimesMonotone(j, |cs|, i);
    if endPosFile > endPosCluster {
      ghost var fc := j;
      j := ClustersFor(endPosFile - endPosCluster, i);
      GrowthIsLeast(fc, endPosFile, i);
      LeastClusters(endPosFile, i);
      TimesMonotone(fc + j, k + 1 + j, i);
      if dir.lastCluster == 0 {
        ok := false;
        return;
      }
      var lastCluster;
      lastCluster, ds := GrowFile(vol, dir.lastCluster, j, cs, k);
      if lastCluster == 0 {
        ok := false;
        return;
      }
      dir.lastCluster := lastCluster;
      added := j;
      vol.lastChainCluster := 0;
    }
  }

  /** A prefix of a file is a file. */
  lemma PrefixIsFile(b: Bpb, f: seq<Sector>, cs: seq<nat>, n: nat)
    requires IsFile(b, f, cs) && n <= |cs|
    ensures IsFile(b, f, cs[..n])
  {
    hide Times, OnDisk;
  }

  /** fat_writeFile: grow the chain if needed, then replace the bytes. */
  method WriteFile(vol: Volume, dir: FatDir, filePos: nat, buffer: seq<Byte>, ghost cs: seq<nat>, ghost k: nat)
    returns (ret: int, updateClusterIndices: nat, ghost ds: seq<nat>)
    requires Ready(vol, dir) && vol.StackOk() && vol.Slackless() && vol.T()[0] != 0 && vol.T()[1] != 0
    requires IsChain(vol.T(), vol.bpb.EndMark(), cs) && InData(vol.bpb, |vol.cache.flat|, cs)
    requires FreeInData(vol.bpb, |vol.cache.flat|, vol.T())
    requires ClusterBytes(vol.bpb) > 0 && FileClusters(vol.bpb, dir.size) <= k + 1 <= |cs|
    requires PointsOk(dir.chain[..], cs[..k + 1], DIR_CHAIN_SIZE)
    requires filePos + |buffer| <= EndOfClusters(vol.bpb, dir.size) ==> SeekServes(vol, dir.chain[..], cs, filePos)
    requires dir.lastCluster == 0 || dir.lastCluster == cs[k]
    modifies dir`lastCluster, vol`lastChainCluster, vol`lastChainResult, vol`clStackIndex, vol`clStackLast, vol.cbuf,
      vol.clStack, vol.cache.Repr()
    ensures Ready(vol, dir) && vol.StackOk() && vol.Slackless() && vol.T()[0] != 0 && vol.T()[1] != 0
    ensures Grown(old(vol.T()), vol.T(), vol.bpb.EndMark(), cs, k, ds) && InData(vol.bpb, |vol.cache.flat|, ds)
    ensures ret == -ENOSPC || ret == |buffer|
    ensures ret < 0 ==> SameOutsideFat(vol.bpb, old(vol.cache.flat), vol.cache.flat) && dir.lastCluster == old(dir.lastCluster)
                        && filePos + |buffer| > EndOfClusters(vol.bpb, dir.size)
                        && (ds == cs ==> vol.cache.flat == old(vol.cache.flat))
                        && vol.lastChainCluster == old(vol.lastChainCluster)
                        && (dir.lastCluster == 0 || Exhausted(vol.bpb, vol.cache.flat, vol.Stack(), vol.clStackLast))
    ensures old(dir.lastCluster) != 0 ==>
              && (ret < 0 <==> Lacking(vol.bpb, dir.size, filePos + |buffer|) > |old(vol.Reserve())|)
              && (ret < 0 ==> (ds == cs <==> |old(vol.Reserve())| == 0) && (ds != cs ==> |ds| == k + 1 + |old(vol.Reserve())|))
    ensures Drained(old(vol.Reserve()), old(vol.clStackLast), vol.Reserve(), vol.clStackLast, if ds == cs then 0 else |ds| - (k + 1))
    ensures ret >= 0 ==> WroteFile(vol.bpb, old(vol.cache.flat), vol.cache.flat, Kept(cs, k, ds), ds, filePos, buffer)
    ensures ret >= 0 ==> (ds != cs <==> filePos + |buffer| > EndOfClusters(vol.bpb, dir.size))
                         && (ds == cs <==> updateClusterIndices == 0)
    ensures ret >= 0 && ds != cs ==>
              && |ds| - (k + 1) == ClustersFor(filePos + |buffer|, ClusterBytes(vol.bpb)) - FileClusters(vol.bpb, dir.size)
              && dir.lastCluster == ds[|ds| - 1]
    ensures ret >= 0 && ds == cs ==> dir.lastCluster == old(dir.lastCluster)
    ensures |vol.cache.flat| == old(|vol.cache.flat|)
    ensures k < |ds| && ds[..k + 1] == cs[..k + 1] && PointsOk(dir.chain[..], ds, DIR_CHAIN_SIZE)
    ensures ret >= 0 ==> SeekServes(vol, dir.chain[..], ds, filePos) && (|buffer| > 0 ==> MemoServes(vol, ds, 0))
    ensures ret >= 0 && |ds| <= MAX_DIR_CLUSTER && old(vol.Coherent(cs)) ==> vol.Coherent(ds)
  {
    hide SectorCache.Cache.Valid, Times, Quot, Rem, Place, PointsOk, Table, Distinct, Gathered, FreeIn, FreeStack,
         Written, WroteFile, IsSeekPoint, Exhausted, Grown, InData, IsFile, IsChain, EndOfClusters, FileClusters,
         ClustersFor, FreeInData, ClusterBytes, Supply, Lacking;
    updateClusterIndices := 0;
    ghost var f := vol.cache.flat;
    ChainIsFile(vol.bpb, f, vol.T(), cs);
    var ok, added;
    ok, added, ds := MakeRoom(vol, dir, filePos, |buffer|, cs, k);
    GrownPoints(dir.chain[..], vol.bpb.EndMark(), old(vol.T()), vol.T(), cs, k, ds);
    if !ok {
      return -ENOSPC, 0, ds;
    }
    updateClusterIndices := added;
    PrefixIsFile(vol.bpb, f, cs, k + 1);
    KeptIsPrefix(old(vol.T()), vol.T(), vol.bpb.EndMark(), cs, k, ds);
    MemoAfterGrowth(vol, dir.chain[..], cs, ds, added, filePos);
    ret := WriteData(vol, dir, filePos, buffer, f, Kept(cs, k, ds), ds);
  }

  lemma GrownPoints(points: seq<ChainPoint>, endMark: nat, t: seq<nat>, u: seq<nat>, cs: seq<nat>, k: nat, ds: seq<nat>)
    requires Grown(t, u, endMark, cs, k, ds) && PointsOk(points, cs[..k + 1], DIR_CHAIN_SIZE)
    ensures IsChain(u, endMark, ds) && PointsOk(points, ds, DIR_CHAIN_SIZE)
    ensures k < |ds| && ds[..k + 1] == cs[..k + 1] && forall i :: 0 <= i < |ds| ==> ds[i] >= 2
  {
    KeptIsPrefix(t, u, endMark, cs, k, ds);
    PointsSurviveGrowth(points, cs[..k + 1], ds[k + 1..], DIR_CHAIN_SIZE);
    assert ds == cs[..k + 1] + ds[k + 1..];
  }

  /** Writing a file changes nothing about what can be handed out. */
  lemma WrittenKeepsSupply(b: Bpb, f: seq<Sector>, g: seq<Sector>, cs: seq<nat>, pos: nat, data: seq<Byte>)
    requires Written(b, f, g, cs, pos, data)
    ensures forall st, last :: Supply(b, g, st, last) == Supply(b, f, st, last)
  {
    hide Times, FileByte, Supply;
    forall s | 0 <= s < |f| && s < b.FatStart(b.fatCount)
      ensures g[s] == f[s]
    {
      TableOwnedByNone(b, |f|, cs, s);
    }
    forall st, last
      ensures Supply(b, g, st, last) == Supply(b, f, st, last)
    {
      SameSupply(b, f, g, st, last);
    }
  }

  /** The data part of fat_writeFile, on a chain that is long enough. */
  method WriteData(vol: Volume, dir: FatDir, filePos: nat, buffer: seq<Byte>, ghost f: seq<Sector>, ghost cs: seq<nat>,
                   ghost ds: seq<nat>)
    returns (bufferPos: nat)
    requires Ready(vol, dir) && PointsOk(dir.chain[..], ds, DIR_CHAIN_SIZE) && SeekServes(vol, dir.chain[..], ds, filePos)
    requires IsChain(vol.T(), vol.bpb.EndMark(), ds) && InData(vol.bpb, |vol.cache.flat|, ds)
    requires IsFile(vol.bpb, f, cs) && SameOutsideFat(vol.bpb, f, vol.cache.flat) && cs <= ds
    requires filePos + |buffer| <= Times(|ds|, ClusterBytes(vol.bpb))
    modifies vol`lastChainCluster, vol`lastChainResult, vol.cbuf, vol.cache.Repr()
    ensures Ready(vol, dir) && |vol.cache.flat| == old(|vol.cache.flat|) && vol.T() == old(vol.T())
    ensures bufferPos == |buffer| && forall st, last :: Supply(vol.bpb, vol.cache.flat, st, last) == old(Supply(vol.bpb, vol.cache.flat, st, last))
    ensures WroteFile(vol.bpb, f, vol.cache.flat, cs, ds, filePos, buffer)
    ensures SeekServes(vol, dir.chain[..], ds, filePos) && (|buffer| > 0 ==> MemoServes(vol, ds, 0))
    ensures |ds| <= MAX_DIR_CLUSTER && old(vol.Coherent(ds)) ==> vol.Coherent(ds)
  {
    hide SectorCache.Cache.Valid, Times, Quot, Rem, Place, PointsOk, Table, Distinct, Written, WroteFile, Supply;
    var b := vol.bpb;
    ghost var f' := vol.cache.flat;
    ChainIsFile(b, f', vol.T(), ds);
    TimesTwice(|ds|, b.clusterSize, b.sectorSize);
    var fileCluster, clusterPos, idx := GetClusterAtFilePos(b, dir, filePos, ds);
    var sectorSkip := Quot(filePos - clusterPos, b.sectorSize);
    var clusterSkip := Quot(sectorSkip, b.clusterSize);
    sectorSkip := Rem(sectorSkip, b.clusterSize);
    var dataSkip := Rem(filePos, b.sectorSize);
    SeekPlace(b, filePos, idx);
    bufferPos := 0;
    if |buffer| == 0 {
      WrittenNothing(b, f', ds, filePos);
      assert buffer == [];
    } else {
      PlaceInFile(b, filePos, idx + clusterSkip, sectorSkip, dataSkip, |ds|);
      ghost var t := vol.T();
      var chunkEnd, chainSize, skip, full, from := SeekChunk(vol, fileCluster, clusterSkip, ds, idx);
      assert vol.T() == t;
      bufferPos := WriteChunks(vol, chunkEnd, chainSize, full, skip, sectorSkip, dataSkip, filePos, buffer, ds, from, idx);
      ServesItsPoint(vol, dir.chain[..], ds, filePos, ChainPoint(fileCluster, idx));
    }
    WrittenKeepsTable(b, f', vol.cache.flat, ds, filePos, buffer, 0);
    WrittenKeepsSupply(b, f', vol.cache.flat, ds, filePos, buffer);
    WrittenIsOnDisk(b, f', vol.cache.flat, ds, filePos, buffer);
    WroteFileFrom(b, f, f', vol.cache.flat, cs, ds, filePos, buffer);
  }
}
