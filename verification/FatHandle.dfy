/** Open files: fs_lseek, fs_read and fs_write of iop/usb_mass/fat_driver.c, and the
    read-after-write theorem of the whole storage stack. */
module FatHandle {
  import opened Arith
  import opened Bytes
  import opened FatRecords
  import opened FatChains
  import opened FatFileView
  import opened FatVolume
  import opened FatFile
  import FatAllocator
  import SectorCache

  class Handle {
    var filePos: nat
    var sizeChange: bool

    constructor ()
      ensures filePos == 0 && !sizeChange
    {
      filePos := 0;
      sizeChange := false;
    }
  }

  /** The record `dir` describes the file with chain cs: true seek points, and at least the
      clusters its size needs. */
  ghost predicate Open(vol: Volume, dir: FatDir, cs: seq<nat>)
    reads vol, vol.cache, vol.cache.rec, vol.cache.sectorBuf, dir, dir.chain
  {
    && Ready(vol, dir) && ClusterBytes(vol.bpb) > 0
    && IsChain(vol.T(), vol.bpb.EndMark(), cs) && InData(vol.bpb, |vol.cache.flat|, cs)
    && PointsOk(dir.chain[..], cs, DIR_CHAIN_SIZE)
    && FileClusters(vol.bpb, dir.size) <= |cs|
  }

  /** New clusters will be hung behind element k of the chain, which is behind every byte and
      every seek point of the file. */
  ghost predicate EndsAt(b: Bpb, dir: FatDir, cs: seq<nat>, k: nat)
    requires ClusterBytes(b) > 0
    reads dir, dir.chain
  {
    && FileClusters(b, dir.size) <= k + 1 <= |cs| && dir.lastCluster == cs[k]
    && dir.chain.Length == DIR_CHAIN_SIZE && PointsOk(dir.chain[..], cs[..k + 1], DIR_CHAIN_SIZE)
  }

  /** The allocator is in order. */
  ghost predicate CanAllocate(vol: Volume)
    requires vol.Valid()
    reads vol, vol.clStack, vol.cache, vol.cache.rec, vol.cache.sectorBuf
  {
    && vol.StackOk() && vol.Slackless() && vol.T()[0] != 0 && vol.T()[1] != 0
    && FreeInData(vol.bpb, |vol.cache.flat|, vol.T())
  }

  lemma EnoughClusters(x: nat, n: nat, l: nat)
    requires l > 0 && x <= Times(n, l)
    ensures ClustersFor(x, l) <= n
  {
    LeastClusters(x, l);
  }

  // ----- seeking -----

  datatype Whence = Set | Cur | End | Other

  const WORD := 0x1_0000_0000

  function Distance(x: int, y: int): int {
    if x < y then y - x else x - y
  }

  /** No position of a file of this size is nearer to the target. */
  ghost predicate Nearest(target: int, size: nat, pos: int) {
    0 <= pos <= size && forall q :: 0 <= q <= size ==> Distance(target, pos) <= Distance(target, q)
  }

  /** Where a seek wants to go. */
  function Target(whence: Whence, filePos: nat, size: nat, offset: int): int {
    match whence
    case Set => offset
    case Cur => filePos + offset
    case End => size + offset
    case Other => filePos
  }

  /** fs_lseek. The position is an unsigned 32-bit number, so the test for a negative one never
      fires: the new position is the one of the file nearest to the target exactly when the
      target is such a number. */
  method Seek(dir: FatDir, h: Handle, offset: int, whence: Whence) returns (pos: int)
    requires -0x8000_0000 <= offset < WORD && h.filePos <= dir.size < WORD
    modifies h
    ensures whence.Other? ==> pos == -1 && h.filePos == old(h.filePos)
    ensures !whence.Other? ==> pos == h.filePos <= dir.size
    ensures !whence.Other? ==> (Nearest(old(Target(whence, h.filePos, dir.size, offset)), dir.size, pos) <==>
                                0 <= old(Target(whence, h.filePos, dir.size, offset)) < WORD || dir.size == 0)
    ensures !whence.Other? && 0 <= old(Target(whence, h.filePos, dir.size, offset)) <= dir.size ==>
              pos == old(Target(whence, h.filePos, dir.size, offset))
    ensures h.sizeChange == old(h.sizeChange)
  {
    ghost var target := Target(whence, h.filePos, dir.size, offset);
    match whence {
      case Set => h.filePos := offset % WORD;
      case Cur => h.filePos := (h.filePos + offset) % WORD;
      case End => h.filePos := (dir.size + offset) % WORD;
      case Other => return -1;
    }
    if h.filePos > dir.size {
      h.filePos := dir.size;
    }
    pos := h.filePos;
    SeekNearest(target, dir.size, pos);
  }

  lemma SeekNearest(target: int, size: nat, pos: nat)
    requires -0x8000_0000 <= target < WORD + size < 2 * WORD
    requires pos == if target % WORD > size then size else target % WORD
    ensures Nearest(target, size, pos) <==> 0 <= target < WORD || size == 0
    ensures 0 <= target <= size ==> pos == target
  {
    assert target < 0 ==> target % WORD == target + WORD;
    assert target >= WORD ==> target % WORD == target - WORD;
    if !(0 <= target < WORD) && size > 0 {
      var best := if target < 0 then 0 else size;
      assert Distance(target, best) < Distance(target, pos);
    }
  }

  // ----- reading and writing -----

  /** fs_read: the slice at the file position, cut at the end of the file. */
  method Read(vol: Volume, dir: FatDir, h: Handle, buffer: array<Byte>, size0: nat, ghost cs: seq<nat>) returns (result: nat)
    requires Open(vol, dir, cs) && SeekServes(vol, dir.chain[..], cs, h.filePos) && h.filePos <= dir.size
    requires (buffer as object) !in vol.Repr() + dir.Repr() && (h as object) !in vol.Repr() + dir.Repr() && size0 <= buffer.Length
    modifies h, buffer, vol`lastChainCluster, vol`lastChainResult, vol.cbuf, vol.cache.Repr()
    ensures Open(vol, dir, cs) && vol.cache.flat == old(vol.cache.flat)
    ensures result == if old(h.filePos) + size0 > dir.size then dir.size - old(h.filePos) else size0
    ensures IsSlice(vol.bpb, vol.cache.flat, cs, old(h.filePos), buffer[..result])
    ensures h.filePos == old(h.filePos) + result <= dir.size
    ensures SeekServes(vol, dir.chain[..], cs, old(h.filePos))
    ensures |cs| <= MAX_DIR_CLUSTER && old(vol.Coherent(cs)) ==> vol.Coherent(cs)
  {
    hide SectorCache.Cache.Valid, Times, Quot, Rem, Table, PointsOk, InData, Distinct, IsSeekPoint;
    var size := size0;
    if h.filePos + size > dir.size {
      size := dir.size - h.filePos;
    }
    ghost var t := vol.T();
    ChainIsFile(vol.bpb, vol.cache.flat, vol.T(), cs);
    SizeFits(vol.bpb, dir.size, |cs|);
    result := ReadFile(vol, dir, h.filePos, buffer, size, cs);
    assert vol.T() == t;
    h.filePos := h.filePos + result;
  }

  lemma SizeFits(b: Bpb, size: nat, n: nat)
    requires ClusterBytes(b) > 0 && FileClusters(b, size) <= n
    ensures size <= Times(n, ClusterBytes(b)) == Capacity(b, n) && size <= EndOfClusters(b, size) <= Times(n, ClusterBytes(b))
  {
    hide Times, Quot, Rem;
    LeastClusters(size, ClusterBytes(b));
    TimesTwice(n, b.clusterSize, b.sectorSize);
    TimesMonotone(ClustersFor(size, ClusterBytes(b)), FileClusters(b, size), ClusterBytes(b));
    TimesMonotone(FileClusters(b, size), n, ClusterBytes(b));
  }

  /** fs_write: the bytes at the file position are replaced, the size follows, and the record
      describes the file again: after a success that grew it, new clusters will go behind its
      last one; otherwise behind the same one as before, also after a failure that grew it. It
      fails if and only if fewer clusters can be handed out than are missing. */
  method Write(vol: Volume, dir: FatDir, h: Handle, buffer: seq<Byte>, ghost cs: seq<nat>, ghost k: nat)
    returns (result: int, ghost ds: seq<nat>, ghost k': nat)
    requires Open(vol, dir, cs) && EndsAt(vol.bpb, dir, cs, k) && CanAllocate(vol) && h.filePos <= dir.size
    requires h.filePos + |buffer| <= EndOfClusters(vol.bpb, dir.size) ==> SeekServes(vol, dir.chain[..], cs, h.filePos)
    requires (h as object) !in vol.Repr() + dir.Repr()
    modifies h, dir, dir.chain, vol`lastChainCluster, vol`lastChainResult, vol`clStackIndex, vol`clStackLast, vol.cbuf,
      vol.clStack, vol.cache.Repr()
    ensures Open(vol, dir, ds) && EndsAt(vol.bpb, dir, ds, k') && CanAllocate(vol)
    ensures Grown(old(vol.T()), vol.T(), vol.bpb.EndMark(), cs, k, ds)
    ensures k' == if result >= 0 && ds != cs then |ds| - 1 else k
    ensures result == -ENOSPC || result == |buffer|
    ensures result < 0 ==> SameOutsideFat(vol.bpb, old(vol.cache.flat), vol.cache.flat)
                           && h.filePos == old(h.filePos) && dir.size == old(dir.size)
                           && h.filePos + |buffer| > EndOfClusters(vol.bpb, dir.size)
                           && (ds == cs ==> vol.cache.flat == old(vol.cache.flat))
                           && vol.lastChainCluster == old(vol.lastChainCluster)
                           && Exhausted(vol.bpb, vol.cache.flat, vol.Stack(), vol.clStackLast)
    ensures result < 0 <==> old(Lacking(vol.bpb, dir.size, h.filePos + |buffer|)) > |old(vol.Reserve())|
    ensures result < 0 ==> (ds == cs <==> |old(vol.Reserve())| == 0) && (ds != cs ==> |ds| == k + 1 + |old(vol.Reserve())|)
    ensures Drained(old(vol.Reserve()), old(vol.clStackLast), vol.Reserve(), vol.clStackLast, if ds == cs then 0 else |ds| - (k + 1))
    ensures result >= 0 ==> WroteFile(vol.bpb, old(vol.cache.flat), vol.cache.flat, Kept(cs, k, ds), ds, old(h.filePos), buffer)
    ensures result >= 0 ==> h.filePos == old(h.filePos) + |buffer|
                            && dir.size == if h.filePos > old(dir.size) then h.filePos else old(dir.size)
    ensures result >= 0 ==> (ds != cs <==> old(h.filePos) + |buffer| > old(EndOfClusters(vol.bpb, dir.size)))
    ensures result >= 0 && ds != cs ==>
              |ds| - (k + 1) == ClustersFor(h.filePos, ClusterBytes(vol.bpb)) - old(FileClusters(vol.bpb, dir.size))
    ensures result >= 0 ==> SeekServes(vol, dir.chain[..], ds, old(h.filePos))
    ensures result >= 0 && |ds| <= MAX_DIR_CLUSTER && old(vol.Coherent(cs)) ==> vol.Coherent(ds)
    ensures result >= 0 && ds != cs ==> vol.Coherent(ds)
  {
    hide SectorCache.Cache.Valid, Times, Quot, Rem, Table, PointsOk, Distinct, WroteFile, FreeStack, Grown, FreeInData, InData,
         IsSeekPoint, Exhausted, FileClusters, ClustersFor, EndOfClusters, ClusterBytes, Kept, IsChain, Supply;
    k' := k;
    OpenIsPositive(vol.bpb);
    if |buffer| == 0 {
      SizeFits(vol.bpb, dir.size, |cs|);
      WriteOfNothing(vol.bpb, vol.cache.flat, vol.T(), cs, k, h.filePos, dir.size);
      return 0, cs, k;
    }
    ghost var t := vol.T();
    ChainInside(t, vol.bpb.EndMark(), cs);
    var update;
    result, update, ds := WriteFile(vol, dir, h.filePos, buffer, cs, k);
    GrownKeepsFreeInData(vol.bpb, |vol.cache.flat|, t, vol.T(), cs, k, ds);
    assert k < |ds| && ds[k] == ds[..k + 1][k] == cs[..k + 1][k] == cs[k];
    if result > 0 {
      k' := FinishWrite(vol, dir, h, result, update, cs, ds, k);
    }
  }

  lemma GrownKeepsFreeInData(b: Bpb, size: nat, t: seq<nat>, u: seq<nat>, cs: seq<nat>, k: nat, ds: seq<nat>)
    requires b.sectorSize >= 32 && Grown(t, u, b.EndMark(), cs, k, ds) && FreeInData(b, size, t)
    ensures FreeInData(b, size, u) && IsChain(u, b.EndMark(), ds)
  {
  }

  lemma OpenIsPositive(b: Bpb)
    requires ClusterBytes(b) > 0
    ensures forall size: nat :: FileClusters(b, size) > 0
  {
    hide Times, Quot, Rem;
  }

  lemma WriteOfNothing(b: Bpb, flat: seq<Sector>, t: seq<nat>, cs: seq<nat>, k: nat, pos: nat, size: nat)
    requires OnDisk(b, flat) && IsChain(t, b.EndMark(), cs) && InData(b, |flat|, cs) && k < |cs|
    requires ClusterBytes(b) > 0 && FileClusters(b, size) <= |cs| && pos <= size
    ensures WroteFile(b, flat, flat, Kept(cs, k, cs), cs, pos, []) && Grown(t, t, b.EndMark(), cs, k, cs)
  {
    hide Times, FileByte;
    ChainIsFile(b, flat, t, cs);
    SizeFits(b, size, |cs|);
    NotGrown(t, b.EndMark(), cs, k);
  }

  /** What fs_write does after a successful fat_writeFile. */
  method FinishWrite(vol: Volume, dir: FatDir, h: Handle, result: nat, update: nat, ghost cs: seq<nat>, ghost ds: seq<nat>, ghost k: nat)
    returns (ghost k': nat)
    requires Ready(vol, dir) && ClusterBytes(vol.bpb) > 0 && (h as object) !in vol.Repr() + dir.Repr()
    requires IsChain(vol.T(), vol.bpb.EndMark(), ds) && InData(vol.bpb, |vol.cache.flat|, ds) && h.filePos <= dir.size
    requires PointsOk(dir.chain[..], ds, DIR_CHAIN_SIZE) && SeekServes(vol, dir.chain[..], ds, h.filePos) && MemoServes(vol, ds, 0)
    requires FileClusters(vol.bpb, dir.size) <= k + 1 <= |ds| && PointsOk(dir.chain[..], ds[..k + 1], DIR_CHAIN_SIZE)
    requires ds == cs <==> update == 0
    requires if ds == cs then dir.lastCluster == ds[k] && h.filePos + result <= EndOfClusters(vol.bpb, dir.size)
             else && dir.lastCluster == ds[|ds| - 1] && h.filePos + result > EndOfClusters(vol.bpb, dir.size)
                  && |ds| - (k + 1) == ClustersFor(h.filePos + result, ClusterBytes(vol.bpb)) - FileClusters(vol.bpb, dir.size)
    modifies h, dir, dir.chain, vol`lastChainCluster, vol`lastChainResult, vol.cbuf, vol.cache.Repr()
    ensures Open(vol, dir, ds) && EndsAt(vol.bpb, dir, ds, k') && vol.cache.flat == old(vol.cache.flat)
    ensures k' == if ds == cs then k else |ds| - 1
    ensures h.filePos == old(h.filePos) + result
    ensures dir.size == if h.filePos > old(dir.size) then h.filePos else old(dir.size)
    ensures |ds| <= MAX_DIR_CLUSTER && old(vol.Coherent(ds)) ==> vol.Coherent(ds)
    ensures ds != cs ==> vol.Coherent(ds)
    ensures SeekServes(vol, dir.chain[..], ds, old(h.filePos))
  {
    hide SectorCache.Cache.Valid, Times, Quot, Rem, Table, PointsOk, InData, IsSeekPoint, FileClusters, ClustersFor,
         EndOfClusters, IsChain, ClusterBytes;
    ghost var t := vol.T();
    h.filePos := h.filePos + result;
    ghost var size0 := dir.size;
    k' := if ds == cs then k else |ds| - 1;
    SizeAfterWrite(vol.bpb, size0, h.filePos, k, |ds|, ds != cs);
    assert ds != cs ==> ds[..k' + 1] == ds;
    if h.filePos > dir.size {
      dir.size := h.filePos;
      h.sizeChange := true;
      if update != 0 {
        SizeFits(vol.bpb, dir.size, |ds|);
        ChainInside(t, vol.bpb.EndMark(), ds);
        FirstPoint(dir.chain[..], ds);
        SetFatDirChain(vol, dir, ds);
        CoherentServesSeeks(vol, dir.chain[..], ds, old(h.filePos));
        assert vol.T() == t;
      }
    }
  }

  lemma FirstPoint(points: seq<ChainPoint>, cs: seq<nat>)
    requires PointsOk(points, cs, DIR_CHAIN_SIZE)
    ensures |cs| > 0 && points[0] == ChainPoint(cs[0], 0)
  {
  }

  /** Size and chain length fit each other after a write. */
  lemma SizeAfterWrite(b: Bpb, size: nat, end: nat, k: nat, m: nat, grown: bool)
    requires ClusterBytes(b) > 0 && FileClusters(b, size) <= k + 1 <= m
    requires if grown then end > EndOfClusters(b, size) && m - (k + 1) == ClustersFor(end, ClusterBytes(b)) - FileClusters(b, size)
             else end <= EndOfClusters(b, size)
    ensures FileClusters(b, if end > size then end else size) <= if grown then m else k + 1
    ensures grown ==> end > size
  {
    hide Times, Quot, Rem;
    SizeFits(b, size, FileClusters(b, size));
    if grown {
      LeastClusters(end, ClusterBytes(b));
    } else if end > size {
      EnoughClusters(end, FileClusters(b, size), ClusterBytes(b));
    }
  }

  /** Two files that share no cluster: writing one, even if it grows, leaves the chain and
      every byte of the other as they were. */
  lemma OtherFilesUntouched(b: Bpb, f: seq<Sector>, g: seq<Sector>, t: seq<nat>, u: seq<nat>, cs: seq<nat>, k: nat,
                            ds: seq<nat>, pos: nat, data: seq<Byte>, es: seq<nat>)
    requires Grown(t, u, b.EndMark(), cs, k, ds) && WroteFile(b, f, g, Kept(cs, k, ds), ds, pos, data)
    requires IsChain(t, b.EndMark(), es) && IsFile(b, f, es) && forall c :: c in es ==> c !in cs
    ensures IsChain(u, b.EndMark(), es) && IsFile(b, g, es)
    ensures forall p :: 0 <= p < Capacity(b, |es|) ==> FileByte(b, g, es, p) == FileByte(b, f, es, p)
  {
    hide Times, Quot, Rem, FileByte;
    forall c | c in es
      ensures c !in ds
    {
      GrownIsNew(t, u, b.EndMark(), cs, k, ds, es, c);
    }
    forall p | 0 <= p < Capacity(b, |es|)
      ensures FileByte(b, g, es, p) == FileByte(b, f, es, p)
    {
      OtherByteUntouched(b, f, g, ds, es, p);
    }
  }

  lemma GrownIsNew(t: seq<nat>, u: seq<nat>, endMark: nat, cs: seq<nat>, k: nat, ds: seq<nat>, es: seq<nat>, c: nat)
    requires Grown(t, u, endMark, cs, k, ds) && IsChain(t, endMark, es) && c in es && c !in cs
    ensures c !in ds
  {
    KeptIsPrefix(t, u, endMark, cs, k, ds);
    forall i | 0 <= i < |ds|
      ensures ds[i] != c
    {
      if ds == cs || i <= k {
        assert ds[i] in cs by {
          assert i <= k ==> ds[..k + 1][i] == cs[..k + 1][i];
        }
      } else {
        FreeOffChain(t, endMark, es, ds[i]);
      }
    }
  }

  lemma OtherByteUntouched(b: Bpb, f: seq<Sector>, g: seq<Sector>, ds: seq<nat>, es: seq<nat>, p: nat)
    requires IsFile(b, f, es) && IsFile(b, g, es) && p < Capacity(b, |es|) && forall c :: c in es ==> c !in ds
    requires |f| == |g|
    requires forall s :: 0 <= s < |f| && !(b.FatStart(0) <= s < b.FatStart(b.fatCount)) && !Owns(b, ds, s) ==> g[s] == f[s]
    ensures FileByte(b, g, es, p) == FileByte(b, f, es, p)
  {
    hide Times, Quot, Rem;
    var q := Quot(p, b.sectorSize);
    QuotBelow(p, Times(|es|, b.clusterSize), b.sectorSize);
    QuotBelow(q, |es|, b.clusterSize);
    QuotRem(q, b.clusterSize);
    var k := Quot(q, b.clusterSize);
    var s := FileSector(b, es, q);
    assert es[k] in es;
    OwnedByOne(b, ds, es[k], s);
    assert s >= b.DataStart() >= b.FatStart(b.fatCount);
  }

  lemma OwnedByOne(b: Bpb, cs: seq<nat>, c: nat, s: nat)
    requires b.sectorSize >= 32 && c >= 2 && c !in cs && ClusterSector(b, c) <= s < ClusterSector(b, c) + b.clusterSize
    ensures !Owns(b, cs, s)
  {
    forall k | 0 <= k < |cs| && cs[k] >= 2
      ensures !(ClusterSector(b, cs[k]) <= s < ClusterSector(b, cs[k]) + b.clusterSize)
    {
      if cs[k] < c {
        TimesApart(cs[k] - 2, c - 2, b.clusterSize);
      } else {
        TimesApart(c - 2, cs[k] - 2, b.clusterSize);
      }
    }
  }

  /** Two descriptions of the same stretch of a file are the same bytes. */
  lemma SlicesAgree(b: Bpb, flat: seq<Sector>, cs: seq<nat>, pos: nat, x: seq<Byte>, y: seq<Byte>)
    requires IsSlice(b, flat, cs, pos, x) && IsSlice(b, flat, cs, pos, y) && |x| == |y|
    ensures x == y
  {
    hide FileByte, IsFile;
  }

  /** Read after write, through the whole stack: write at the file position, seek back and
      read. The bytes come back exactly, whatever sector, cluster, chunk and cache boundaries
      lie between them and whether or not the file had to grow. It fails if and only if fewer
      clusters can be handed out than are missing. */
  method ReadAfterWrite(vol: Volume, dir: FatDir, h: Handle, data: seq<Byte>, buffer: array<Byte>, ghost cs: seq<nat>, ghost k: nat)
    returns (written: int, read: nat, ghost ds: seq<nat>, ghost k': nat)
    requires Open(vol, dir, cs) && EndsAt(vol.bpb, dir, cs, k) && CanAllocate(vol) && h.filePos <= dir.size
    requires h.filePos + |data| <= EndOfClusters(vol.bpb, dir.size) ==> SeekServes(vol, dir.chain[..], cs, h.filePos)
    requires (h as object) !in vol.Repr() + dir.Repr() && (buffer as object) !in vol.Repr() + dir.Repr()
    requires |data| <= buffer.Length && dir.size + |data| < WORD
    modifies h, dir, dir.chain, buffer, vol`lastChainCluster, vol`lastChainResult, vol`clStackIndex, vol`clStackLast,
      vol.cbuf, vol.clStack, vol.cache.Repr()
    ensures written == -ENOSPC || (written == read == |data| && buffer[..read] == data)
    ensures written < 0 <==> old(Lacking(vol.bpb, dir.size, h.filePos + |data|)) > |old(vol.Reserve())|
    ensures Open(vol, dir, ds) && CanAllocate(vol) && EndsAt(vol.bpb, dir, ds, k')
    ensures written >= 0 ==> h.filePos == old(h.filePos) + |data|
    ensures written < 0 ==> Exhausted(vol.bpb, vol.cache.flat, vol.Stack(), vol.clStackLast)
                            && h.filePos == old(h.filePos) && dir.size == old(dir.size)
  {
    hide SectorCache.Cache.Valid, Times, Quot, Rem, Table, PointsOk, Distinct, FreeStack, Grown, FreeInData, InData,
         IsChain, IsSeekPoint, Exhausted, FileClusters, ClustersFor, EndOfClusters, Nearest, Supply, Lacking;
    read := 0;
    var pos := h.filePos;
    written, ds, k' := Write(vol, dir, h, data, cs, k);
    if written < 0 {
      return;
    }
    var _ := Seek(dir, h, pos, Set);
    read := Read(vol, dir, h, buffer, |data|, ds);
    SlicesAgree(vol.bpb, vol.cache.flat, ds, pos, buffer[..read], data);
  }

  // ----- a write that fails half-way -----

  /** Deleting another file leaves this one open and the allocator in order. */
  method DeleteOther(vol: Volume, dir: FatDir, other: nat, ghost es: seq<nat>, ghost cs: seq<nat>, ghost k: nat)
    requires Open(vol, dir, cs) && EndsAt(vol.bpb, dir, cs, k) && CanAllocate(vol)
    requires IsChain(vol.T(), vol.bpb.EndMark(), es) && es[0] == other && InData(vol.bpb, |vol.cache.flat|, es)
    requires (forall i :: 0 <= i < |cs| ==> cs[i] !in es) && vol.lastChainCluster != other
    modifies vol`lastChainCluster, vol`lastChainResult, vol.cbuf, vol.cache.Repr()
    ensures Open(vol, dir, cs) && EndsAt(vol.bpb, dir, cs, k) && CanAllocate(vol)
    ensures vol.T() == Freed(old(vol.T()), es)
    ensures vol.bpb.fatType.FAT16? ==> forall c :: c in vol.Reserve() <==> c in old(vol.Reserve()) || (c in es && c >= vol.clStackLast)
  {
    hide SectorCache.Cache.Valid, Table, PointsOk, FreeStack, Freed, IsChain, RawAt, FreeInData, InData, Supply;
    ghost var t, f := vol.T(), vol.cache.flat;
    ChainInside(t, vol.bpb.EndMark(), es);
    var _ := vol.DeleteClusterChain(other, es);
    assert Table(vol.bpb, vol.cache.flat, 0) == Freed(Table(vol.bpb, f, 0), es);
    FreedKeeps(t, vol.bpb.EndMark(), es, cs);
    FatAllocator.StackAfterFree(t, vol.clStack[..vol.clStackIndex], es);
    FatAllocator.FreedStart(t, vol.bpb.EndMark(), es);
    FatAllocator.FreedSlack(t, vol.bpb.EndMark(), es);
    FreedInData(vol.bpb, |f|, t, es);
    if vol.bpb.fatType.FAT16? {
      FreedSupply(vol, f, vol.cache.flat, es, vol.Stack(), vol.clStackLast);
    }
  }

  /** On a 16-bit table, clusters set free can be handed out from the place of the last scan on. */
  lemma FreedSupply(vol: Volume, f: seq<Sector>, g: seq<Sector>, es: seq<nat>, st: seq<nat>, last: nat)
    requires vol.FreedOnDisk(f, g, es) && vol.bpb.fatType.FAT16? && forall i :: 0 <= i < |es| ==> es[i] < vol.bpb.Entries()
    ensures forall c :: c in Supply(vol.bpb, g, st, last) <==> c in Supply(vol.bpb, f, st, last) || (c in es && c >= last)
  {
    hide RawRecord, Times;
    forall c | 0 <= c < vol.bpb.Entries()
      ensures FreeIn(vol.bpb, g, c) <==> FreeIn(vol.bpb, f, c) || c in es
    {
      if c in es {
        assert Table(vol.bpb, g, 0)[c] == Freed(Table(vol.bpb, f, 0), es)[c] == 0;
        assert Table(vol.bpb, g, 0)[c] == RecordAt(vol.bpb, g, 0, c) == RawAt(vol.bpb, g, 0, c);
      }
    }
  }

  lemma FreedInData(b: Bpb, size: nat, t: seq<nat>, es: seq<nat>)
    requires b.sectorSize >= 32 && FreeInData(b, size, t) && InData(b, size, es)
    ensures FreeInData(b, size, Freed(t, es))
  {
    hide Times;
  }

  /** A chain that shares no cluster with a file shares none with it after it has grown. */
  lemma ApartAfterGrowth(t: seq<nat>, u: seq<nat>, endMark: nat, cs: seq<nat>, k: nat, ds: seq<nat>, es: seq<nat>)
    requires Grown(t, u, endMark, cs, k, ds) && IsChain(t, endMark, es) && forall c :: c in es ==> c !in cs
    ensures IsChain(u, endMark, es) && IsChain(u, endMark, ds) && forall i :: 0 <= i < |ds| ==> ds[i] !in es
  {
    forall i | 0 <= i < |ds|
      ensures ds[i] !in es
    {
      if ds[i] in es {
        GrownIsNew(t, u, endMark, cs, k, ds, es, ds[i]);
      }
    }
  }

  lemma GrownFromEnd(t: seq<nat>, u: seq<nat>, endMark: nat, cs: seq<nat>, ds: seq<nat>)
    requires |cs| > 0 && Grown(t, u, endMark, cs, |cs| - 1, ds)
    ensures cs <= ds && (ds != cs ==> |cs| < |ds|) && IsChain(u, endMark, ds)
    ensures forall j :: |cs| <= j < |ds| ==> ds[j] < |t| && t[ds[j]] == 0
  {
    assert cs[..|cs| - 1 + 1] == cs;
  }

  /** A write that fails half-way leaves the file longer, with its record still naming the old
      end. If a file is deleted and the write is tried again, the new clusters go behind the old
      end: those of the failed write stay in use and belong to no file. On a 16-bit table the second
      try gets clusters if and only if the deleted file had one from the last scan on. */
  method RetryLosesClusters(vol: Volume, dir: FatDir, h: Handle, data: seq<Byte>, other: nat, ghost es: seq<nat>, ghost cs: seq<nat>)
    returns (first: int, second: int, ghost mid: seq<nat>, ghost ds: seq<nat>, ghost last: nat)
    requires Open(vol, dir, cs) && |cs| > 0 && EndsAt(vol.bpb, dir, cs, |cs| - 1) && CanAllocate(vol) && h.filePos <= dir.size
    requires h.filePos + |data| > EndOfClusters(vol.bpb, dir.size) && (h as object) !in vol.Repr() + dir.Repr()
    requires IsChain(vol.T(), vol.bpb.EndMark(), es) && es[0] == other && InData(vol.bpb, |vol.cache.flat|, es)
    requires (forall c :: c in es ==> c !in cs) && vol.lastChainCluster != other
    modifies h, dir, dir.chain, vol`lastChainCluster, vol`lastChainResult, vol`clStackIndex, vol`clStackLast, vol.cbuf,
      vol.clStack, vol.cache.Repr()
    ensures first < 0 <==> old(Lacking(vol.bpb, dir.size, h.filePos + |data|)) > |old(vol.Reserve())|
    ensures cs <= mid && (first < 0 ==> |mid| == |cs| + |old(vol.Reserve())| && Open(vol, dir, ds))
    ensures forall j :: |cs| <= j < |mid| ==> mid[j] < |old(vol.T())| && old(vol.T())[mid[j]] == 0
    ensures first < 0 ==> cs <= ds
    ensures old(vol.clStackLast) <= last && (last == old(vol.clStackLast) || last in old(vol.Reserve()))
    ensures first < 0 && vol.bpb.fatType.FAT16? ==> (ds != mid <==> exists i :: 0 <= i < |es| && es[i] >= last)
    ensures first < 0 && ds != mid ==>
              forall j :: |cs| <= j < |mid| ==> && mid[j] < |vol.T()| && vol.T()[mid[j]] != 0
                                                && mid[j] !in ds && mid[j] !in es
  {
    hide SectorCache.Cache.Valid, Times, Quot, Rem, Table, PointsOk, Distinct, FreeStack, Grown, FreeInData, InData,
         IsChain, IsSeekPoint, Exhausted, FileClusters, ClustersFor, EndOfClusters, WroteFile, ClusterBytes, Freed, Supply;
    second, ds := 0, cs;
    ghost var k, k' := |cs| - 1, 0;
    ghost var t := vol.T();
    first, mid, k' := Write(vol, dir, h, data, cs, k);
    last := vol.clStackLast;
    ghost var t1 := vol.T();
    GrownFromEnd(t, t1, vol.bpb.EndMark(), cs, mid);
    if first >= 0 {
      return;
    }
    NoSupply(vol.bpb, vol.cache.flat, vol.Stack(), last);
    ApartAfterGrowth(t, t1, vol.bpb.EndMark(), cs, k, mid, es);
    DeleteOther(vol, dir, other, es, mid, k);
    ghost var t2 := vol.T();
    ghost var r := vol.Reserve();
    second, ds, k' := Write(vol, dir, h, data, mid, k);
    LostClusters(t2, vol.T(), vol.bpb.EndMark(), mid, k, ds);
    RetryGrew(t2, vol.T(), vol.bpb.EndMark(), mid, k, ds);
    assert ds[..|cs|] == mid[..|cs|] == cs;
    if vol.bpb.fatType.FAT16? {
      AnyFreed(r, es, last);
    }
  }

  lemma AnyFreed(r: set<nat>, es: seq<nat>, last: nat)
    requires forall c :: c in r <==> c in es && c >= last
    ensures |r| > 0 <==> exists i :: 0 <= i < |es| && es[i] >= last
  {
    if i :| 0 <= i < |es| && es[i] >= last {
      assert es[i] in r;
    }
    if |r| > 0 {
      var c :| c in r;
    }
  }

  lemma RetryGrew(t: seq<nat>, u: seq<nat>, endMark: nat, cs: seq<nat>, k: nat, ds: seq<nat>)
    requires Grown(t, u, endMark, cs, k, ds)
    ensures k < |ds| && ds[..k + 1] == cs[..k + 1] && forall j :: 0 <= j < |cs| ==> cs[j] < |u|
  {
  }
}
