/** The FAT16/FAT32 volume on top of the sector cache: record stores, chunked chain
    walks with their memo, the free-cluster stack and chain deletion
    (iop/usb_mass/fat_driver.c, fat_write.c). */
module FatVolume {
  import opened Arith
  import opened Bytes
  import opened FatRecords
  import opened FatChains
  import SectorCache

  const MAX_DIR_CLUSTER := 512
  const MAX_CLUSTER_STACK := 128

  /** Number of clusters the chain buffer receives from a rest of n clusters. */
  function ChunkSize(n: nat): nat {
    if n < MAX_DIR_CLUSTER then n else MAX_DIR_CLUSTER
  }

  /** What fat_getClusterChain returns for it: 0 when the buffer is full. */
  function ChunkResult(n: nat): nat {
    if n < MAX_DIR_CLUSTER then n else 0
  }

  // ----- the scan for free clusters, on values -----

  /** The scan takes cluster c for free: all bits of its record are zero. */
  ghost predicate FreeIn(b: Bpb, flat: seq<Sector>, c: nat)
    requires OnDisk(b, flat) && c < b.Entries()
  {
    RawAt(b, flat, 0, c) == 0 && (b.fatType.FAT32? ==> c < 0xFFFFFF7)
  }

  ghost function LastOr(st: seq<nat>, d: nat): nat {
    if st == [] then d else st[|st| - 1]
  }

  ghost function Reversed(st: seq<nat>): seq<nat> {
    seq(|st|, k requires 0 <= k < |st| => st[|st| - 1 - k])
  }

  /** st holds the free clusters of [lo, hi) in ascending order, as many as the stack takes. */
  ghost predicate Gathered(b: Bpb, flat: seq<Sector>, st: seq<nat>, lo: nat, hi: nat)
    requires OnDisk(b, flat)
  {
    && |st| <= MAX_CLUSTER_STACK
    && (forall k :: 0 <= k < |st| ==> lo <= st[k] < hi && st[k] < b.Entries() && FreeIn(b, flat, st[k]))
    && (forall k, l :: 0 <= k < l < |st| ==> st[k] < st[l])
    && (forall c :: lo <= c < hi && c < b.Entries() && FreeIn(b, flat, c) ==>
          c in st || (|st| == MAX_CLUSTER_STACK && c > st[MAX_CLUSTER_STACK - 1]))
  }

  /** The next cluster in scan order is pushed if it is free. */
  lemma GatherNext(b: Bpb, flat: seq<Sector>, st: seq<nat>, lo: nat, c: nat)
    requires OnDisk(b, flat) && Gathered(b, flat, st, lo, c) && lo <= c < b.Entries() && |st| < MAX_CLUSTER_STACK
    ensures Gathered(b, flat, if FreeIn(b, flat, c) then st + [c] else st, lo, c + 1)
  {
    hide FreeIn;
  }

  lemma GatherNone(b: Bpb, flat: seq<Sector>, lo: nat)
    requires OnDisk(b, flat)
    ensures Gathered(b, flat, [], lo, lo)
  {
  }

  /** A full stack stays complete however far the scan might go on. */
  lemma FullIsComplete(b: Bpb, flat: seq<Sector>, st: seq<nat>, lo: nat, hi: nat, top: nat)
    requires OnDisk(b, flat) && Gathered(b, flat, st, lo, hi) && hi <= top
    requires |st| == MAX_CLUSTER_STACK || hi == top
    ensures Gathered(b, flat, st, lo, top)
  {
    hide FreeIn;
  }

  /** When the scan stops, the stack is complete for the whole table. */
  lemma ScanEnds(b: Bpb, flat: seq<Sector>, st: seq<nat>, lo: nat, i: nat, skip: nat)
    requires OnDisk(b, flat) && Gathered(b, flat, st, lo, Times(i, b.IndexCount()) + skip)
    requires i >= b.fatSize || |st| == MAX_CLUSTER_STACK
    ensures Gathered(b, flat, st, lo, b.Entries())
  {
    hide FreeIn;
    if i >= b.fatSize {
      TimesMonotone(b.fatSize, i, b.IndexCount());
    }
  }

  /** A stack of free data clusters whose top is its least element. */
  ghost predicate FreeStack(t: seq<nat>, st: seq<nat>) {
    && (forall k :: 0 <= k < |st| ==> 2 <= st[k] < |t| && t[st[k]] == 0)
    && (forall k, l :: 0 <= k < l < |st| ==> st[k] > st[l])
  }

  /** Table t with `next` taken and hung behind `cur`; a record holds values below `modulus`. */
  ghost function TakenTable(t: seq<nat>, cur: nat, next: nat, last: nat, modulus: nat): seq<nat>
    requires cur < |t| && next < |t| && modulus > 0
  {
    if cur != 0 then t[cur := next % modulus][next := last] else t[next := last]
  }

  /** A cluster number that fits a record is linked as it is. */
  lemma TakenIsLinked(t: seq<nat>, cur: nat, next: nat, last: nat, modulus: nat)
    requires cur < |t| && next < |t| && next < modulus
    ensures TakenTable(t, cur, next, last, modulus) == if cur != 0 then Linked(t, cur, next, last) else t[next := last]
  {
  }

  /** Taking the top of the stack leaves a stack of free clusters. */
  lemma StackAfterTake(t: seq<nat>, st: seq<nat>, cur: nat, last: nat, modulus: nat)
    requires FreeStack(t, st) && st != [] && cur < |t| && last != 0 && modulus > 0 && cur != 1
    requires cur != 0 ==> t[cur] != 0
    requires |t| >= 2 && t[0] != 0 && t[1] != 0
    ensures var next := st[|st| - 1];
      && 2 <= next < |t| && t[next] == 0
      && (|st| > 1 ==> next < st[|st| - 2])
      && var u := TakenTable(t, cur, next, last, modulus);
         FreeStack(u, st[..|st| - 1]) && u[0] != 0 && u[1] != 0
  {
  }

  /** Taking a cluster below the end marks frees no record at or above them. */
  lemma SlackStays(t: seq<nat>, cur: nat, next: nat, endMark: nat, last: nat, modulus: nat)
    requires cur < |t| && next < |t| && 0 < last && 0 < endMark <= modulus && (cur != 0 ==> next >= 2)
    ensures (forall c :: endMark <= c < |t| ==> t[c] != 0) && next < endMark ==>
              forall c :: endMark <= c < |t| ==> TakenTable(t, cur, next, last, modulus)[c] != 0
  {
  }

  lemma FreeRecord(b: Bpb, flat: seq<Sector>, c: nat)
    requires OnDisk(b, flat) && c < b.Entries() && FreeIn(b, flat, c)
    ensures Table(b, flat, 0)[c] == 0
  {
    hide RawRecord;
    assert Table(b, flat, 0)[c] == RecordAt(b, flat, 0, c);
  }

  lemma GatheredIsFree(b: Bpb, flat: seq<Sector>, st: seq<nat>, lo: nat, hi: nat)
    requires OnDisk(b, flat) && Gathered(b, flat, st, lo, hi)
    requires var t := Table(b, flat, 0); t[0] != 0 && t[1] != 0
    ensures FreeStack(Table(b, flat, 0), Reversed(st))
  {
    hide FreeIn, RecordAt;
    var t := Table(b, flat, 0);
    forall k | 0 <= k < |st|
      ensures 2 <= st[k] < |t| && t[st[k]] == 0
    {
      FreeRecord(b, flat, st[k]);
    }
  }

  /** Nothing can be handed out: the stack is empty and no record from `last` on is free. */
  ghost predicate Exhausted(b: Bpb, flat: seq<Sector>, st: seq<nat>, last: nat)
    requires OnDisk(b, flat)
  {
    st == [] && forall c :: last <= c < b.Entries() ==> !FreeIn(b, flat, c)
  }

  /** What can be handed out: the stacked clusters, and what is free from `last` on. */
  ghost function Supply(b: Bpb, flat: seq<Sector>, st: seq<nat>, last: nat): set<nat>
    requires OnDisk(b, flat)
  {
    (set x | x in st) + set c | last <= c < b.Entries() && FreeIn(b, flat, c)
  }

  /** The supply depends on the first table only. */
  lemma SameSupply(b: Bpb, f: seq<Sector>, g: seq<Sector>, st: seq<nat>, last: nat)
    requires OnDisk(b, f) && OnDisk(b, g) && |f| == |g|
    requires forall s :: 0 <= s < |f| && s < b.FatStart(b.fatCount) ==> g[s] == f[s]
    ensures Supply(b, g, st, last) == Supply(b, f, st, last)
  {
    hide Times, Quot, Rem, RawRecord;
    forall c | 0 <= c < b.Entries()
      ensures FreeIn(b, g, c) <==> FreeIn(b, f, c)
    {
      CopyInside(b, |f|, 0, FatSector(b, c));
    }
  }

  lemma NoSupply(b: Bpb, flat: seq<Sector>, st: seq<nat>, last: nat)
    requires OnDisk(b, flat)
    ensures Exhausted(b, flat, st, last) <==> Supply(b, flat, st, last) == {}
    ensures Exhausted(b, flat, st, last) <==> |Supply(b, flat, st, last)| == 0
  {
    hide FreeIn;
    var s := Supply(b, flat, st, last);
    if st != [] {
      assert st[0] in s;
    }
    forall c | last <= c < b.Entries() && FreeIn(b, flat, c)
      ensures c in s
    {
    }
  }

  /** How the stack moves when `result` is handed out: the top goes, or the first of the free
      clusters gathered from `last` on; 0 when there is none. */
  ghost predicate Popped(b: Bpb, flat: seq<Sector>, st: seq<nat>, last: nat, result: nat, st': seq<nat>, last': nat)
    requires OnDisk(b, flat)
  {
    if st != [] then result == st[|st| - 1] && st' == st[..|st| - 1] && last' == last
    else if result == 0 then st' == [] && last' == last
    else exists asc :: Gathered(b, flat, asc, last, b.Entries()) && asc != [] && result == asc[0]
                       && st' == Reversed(asc)[..|asc| - 1] && last' == asc[|asc| - 1]
  }

  /** A scan that gathers nothing has met nothing free, and the other way round. */
  lemma NothingGathered(b: Bpb, flat: seq<Sector>, st: seq<nat>, lo: nat)
    requires OnDisk(b, flat) && Gathered(b, flat, st, lo, b.Entries())
    ensures st == [] <==> forall c :: lo <= c < b.Entries() ==> !FreeIn(b, flat, c)
  {
    hide FreeIn;
    if st != [] {
      assert FreeIn(b, flat, st[0]);
    }
  }

  /** Number of free records in [lo, hi). */
  ghost function FreeCount(b: Bpb, flat: seq<Sector>, lo: nat, hi: nat): nat
    requires OnDisk(b, flat) && hi <= b.Entries()
  {
    if hi <= lo then 0 else FreeCount(b, flat, lo, hi - 1) + if FreeIn(b, flat, hi - 1) then 1 else 0
  }

  /** The k-th cluster gathered has k free ones before it. */
  lemma {:induction false} GatheredCount(b: Bpb, flat: seq<Sector>, st: seq<nat>, lo: nat, k: nat, c: nat)
    requires OnDisk(b, flat) && Gathered(b, flat, st, lo, b.Entries()) && lo <= c <= b.Entries()
    requires k <= |st| && (forall j :: 0 <= j < k ==> st[j] < c) && (forall j :: k <= j < |st| ==> c <= st[j])
    ensures if k < MAX_CLUSTER_STACK then FreeCount(b, flat, lo, c) == k else FreeCount(b, flat, lo, c) >= k
    decreases c
  {
    hide FreeIn;
    assert k > 0 ==> lo <= st[k - 1] < c;
    if c > lo {
      var d := c - 1;
      if k > 0 && st[k - 1] == d {
        GatheredCount(b, flat, st, lo, k - 1, d);
      } else {
        GatheredCount(b, flat, st, lo, k, d);
        assert FreeIn(b, flat, d) ==> d in st || |st| == MAX_CLUSTER_STACK;
      }
    }
  }

  lemma {:induction false} SplitAt(st: seq<nat>, c: nat) returns (k: nat)
    requires forall i, j :: 0 <= i < j < |st| ==> st[i] < st[j]
    ensures k <= |st| && (forall j :: 0 <= j < k ==> st[j] < c) && (forall j :: k <= j < |st| ==> c <= st[j])
  {
    k := 0;
    if st != [] && st[0] < c {
      var j := SplitAt(st[1..], c);
      k := j + 1;
      assert forall i :: 0 < i < |st| ==> st[i] == st[1..][i - 1];
    }
  }

  /** A scan takes exactly the free clusters that have fewer than 128 free ones before them. */
  lemma GatheredExactly(b: Bpb, flat: seq<Sector>, st: seq<nat>, lo: nat, c: nat)
    requires OnDisk(b, flat) && Gathered(b, flat, st, lo, b.Entries()) && lo <= c < b.Entries()
    ensures c in st <==> FreeIn(b, flat, c) && FreeCount(b, flat, lo, c) < MAX_CLUSTER_STACK
  {
    hide FreeIn, FreeCount;
    var k := SplitAt(st, c);
    GatheredCount(b, flat, st, lo, k, c);
  }

  /** The 16-bit scan has no upper guard: it stacks a cluster number that reads as an end mark
      exactly when such a record is free and fewer than 128 free records come before it. */
  lemma EndMarkGathered(b: Bpb, flat: seq<Sector>, st: seq<nat>, lo: nat)
    requires OnDisk(b, flat) && Gathered(b, flat, st, lo, b.Entries())
    ensures (exists k :: 0 <= k < |st| && st[k] >= b.EndMark()) <==>
            (exists c :: && lo <= c < b.Entries() && c >= b.EndMark() && FreeIn(b, flat, c)
                         && FreeCount(b, flat, lo, c) < MAX_CLUSTER_STACK)
    ensures b.fatType.FAT32? ==> forall k :: 0 <= k < |st| ==> st[k] < b.EndMark()
  {
    hide FreeCount;
    forall c | lo <= c < b.Entries()
      ensures c in st <==> FreeIn(b, flat, c) && FreeCount(b, flat, lo, c) < MAX_CLUSTER_STACK
    {
      GatheredExactly(b, flat, st, lo, c);
    }
    if k :| 0 <= k < |st| && st[k] >= b.EndMark() {
      assert st[k] in st && FreeIn(b, flat, st[k]);
    }
  }

  lemma RestOf(asc: seq<nat>, st: seq<nat>, r: nat)
    requires asc != [] && asc[0] == r && st == Reversed(asc)[..|asc| - 1]
    requires forall k, l :: 0 <= k < l < |asc| ==> asc[k] < asc[l]
    ensures forall x :: x in st <==> x in asc && x != r
  {
    forall x | x in asc && x != r
      ensures x in st
    {
      var k :| 0 <= k < |asc| && asc[k] == x;
      assert st[|asc| - 1 - k] == x;
    }
  }

  /** The supply after the top of the stack has been taken. */
  lemma StackSupply(b: Bpb, f: seq<Sector>, g: seq<Sector>, st: seq<nat>, last: nat, r: nat)
    requires OnDisk(b, f) && OnDisk(b, g) && st != [] && r == st[|st| - 1]
    requires forall k, l :: 0 <= k < l < |st| ==> st[k] > st[l]
    requires forall c :: 0 <= c < b.Entries() ==> (FreeIn(b, g, c) <==> FreeIn(b, f, c) && c != r)
    ensures r in Supply(b, f, st, last) && Supply(b, g, st[..|st| - 1], last) == Supply(b, f, st, last) - {r}
  {
    hide FreeIn;
    assert st == st[..|st| - 1] + [r];
    assert r !in st[..|st| - 1];
    forall x
      ensures x in Supply(b, g, st[..|st| - 1], last) <==> x in Supply(b, f, st, last) && x != r
    {
      assert x in st <==> x in st[..|st| - 1] || x == r;
    }
  }

  /** The supply after the first of a scan has been taken. */
  lemma ScanSupply(b: Bpb, f: seq<Sector>, g: seq<Sector>, asc: seq<nat>, last: nat, st: seq<nat>, r: nat)
    requires OnDisk(b, f) && OnDisk(b, g) && Gathered(b, f, asc, last, b.Entries()) && asc != [] && r == asc[0]
    requires st == Reversed(asc)[..|asc| - 1]
    requires forall c :: 0 <= c < b.Entries() ==> (FreeIn(b, g, c) <==> FreeIn(b, f, c) && c != r)
    ensures r in Supply(b, f, [], last) && Supply(b, g, st, asc[|asc| - 1]) == Supply(b, f, [], last) - {r}
    ensures last <= asc[|asc| - 1] && asc[|asc| - 1] in Supply(b, f, [], last)
  {
    hide FreeIn, Reversed;
    RestOf(asc, st, r);
    var top := asc[|asc| - 1];
    assert FreeIn(b, f, asc[0]) && FreeIn(b, f, top) && top in asc && r in asc;
    forall x
      ensures x in Supply(b, g, st, top) <==> x in Supply(b, f, [], last) && x != r
    {
      ScanMember(b, f, asc, last, x);
    }
  }

  /** What a scan gathers is all that is free up to the last of it. */
  lemma ScanMember(b: Bpb, flat: seq<Sector>, asc: seq<nat>, last: nat, x: nat)
    requires OnDisk(b, flat) && Gathered(b, flat, asc, last, b.Entries()) && asc != []
    ensures last <= x < b.Entries() && FreeIn(b, flat, x) <==> x in asc || (asc[|asc| - 1] <= x < b.Entries() && FreeIn(b, flat, x))
    ensures last <= asc[|asc| - 1]
  {
    hide FreeIn;
  }

  class Volume {
    const bpb: Bpb
    const cache: SectorCache.Cache
    const cbuf: array<nat>
    const clStack: array<nat>
    var lastChainCluster: nat
    var lastChainResult: int
    var clStackIndex: nat
    var clStackLast: nat

    ghost function Repr(): set<object> {
      {this, cbuf, clStack} + cache.Repr()
    }

    /** A volume whose records have no reserved bits set. */
    ghost predicate Valid()
      reads this, cache, cache.rec, cache.sectorBuf
    {
      Shaped() && Plain(bpb, cache.flat)
    }

    ghost predicate Shaped()
      reads this, cache, cache.rec, cache.sectorBuf
    {
      && cache.Valid()
      && OnDisk(bpb, cache.flat)
      && cache.sectorSize == bpb.sectorSize
      && cbuf.Length == MAX_DIR_CLUSTER && clStack.Length == MAX_CLUSTER_STACK
      && cbuf != clStack
      && (cbuf as object) !in cache.Repr() && (clStack as object) !in cache.Repr()
      && (this as object) !in cache.Repr()
    }

    constructor (b: Bpb, c: SectorCache.Cache)
      requires c.Valid() && OnDisk(b, c.flat) && c.sectorSize == b.sectorSize && Plain(b, c.flat)
      ensures Valid() && bpb == b && cache == c && fresh(cbuf) && fresh(clStack)
      ensures lastChainCluster == 0xFFFFFFFF && clStackIndex == 0 && clStackLast == 0
    {
      bpb := b;
      cache := c;
      cbuf := new nat[MAX_DIR_CLUSTER];
      clStack := new nat[MAX_CLUSTER_STACK];
      lastChainCluster := 0xFFFFFFFF;
      lastChainResult := -1;
      clStackIndex := 0;
      clStackLast := 0;
    }

    /** The table the driver reads: copy 0. */
    ghost function T(): seq<nat>
      reads cache
      requires OnDisk(bpb, cache.flat)
    {
      Table(bpb, cache.flat, 0)
    }

    // ----- storing a record in every copy -----

    /** fat_saveClusterRecord16 / fat_saveClusterRecord32. */
    method SaveClusterRecord(c: nat, v: nat) returns (ret: int)
      requires Valid() && c < bpb.Entries()
      modifies cache.Repr()
      ensures Valid() && ret >= 0
      ensures cache.flat == Saved(bpb, old(cache.flat), c, v, bpb.fatCount)
    {
      hide SectorCache.Cache.Valid, Times, Quot, Rem, PutRecord, PlainAt;
      ret := -1;
      var indexCount := bpb.IndexCount();
      forall d | 2 <= d < bpb.Entries()
        ensures PlainAt(bpb, Saved(bpb, old(cache.flat), c, v, bpb.fatCount), d)
      {
        SavedPlain(bpb, cache.flat, c, v, bpb.fatCount, d);
      }
      for n := 0 to bpb.fatCount
        invariant Shaped()
        invariant cache.flat == Saved(bpb, old(cache.flat), c, v, n)
        invariant n > 0 ==> ret >= 0
      {
        CopyInside(bpb, |cache.flat|, n, FatSector(bpb, c));
        var fatSector := bpb.partStart + bpb.resSectors + Times(n, bpb.fatSize);
        fatSector := fatSector + Quot(c, indexCount);
        var p := cache.ReadSector(fatSector);
        ret := cache.Store(p, fatSector, PutRecord(cache.sectorBuf[p], Rem(c, indexCount), v, bpb.fatType.FAT32?));
      }
    }

    // ----- walking a chain -----

    /** The chain buffer and `ret` describe the part of chain cs from position `from`. */
    ghost predicate HoldsChunk(cs: seq<nat>, from: nat, ret: int)
      requires from <= |cs| && cbuf.Length == MAX_DIR_CLUSTER
      reads cbuf
    {
      var n := ChunkSize(|cs| - from);
      cbuf[..n] == cs[from..from + n] && ret == ChunkResult(|cs| - from)
    }

    /** Buffer position p holds FAT sector q. */
    ghost predicate HoldsFatSector(q: int, p: nat)
      reads cache, cache.sectorBuf
    {
      0 <= q ==> && p < cache.sectorBuf.Length
                 && bpb.FatStart(0) + q < |cache.flat|
                 && cache.sectorBuf[p] == cache.flat[bpb.FatStart(0) + q]
    }

    /** All bits of the record of a cluster, reading its FAT sector unless it is the one read last. The
        walk takes them for the next cluster, reserved ones included. */
    method ReadRecord(cluster: nat, lastFatSector: int, lastP: nat) returns (value: nat, fatSector: int, p: nat)
      requires Valid() && cluster < bpb.Entries() && HoldsFatSector(lastFatSector, lastP)
      modifies cache.Repr()
      ensures Valid() && cache.flat == old(cache.flat)
      ensures value == RawAt(bpb, cache.flat, 0, cluster) && HoldsFatSector(fatSector, p)
      ensures cluster >= 2 ==> value == T()[cluster] == value % bpb.Modulus()
    {
      hide SectorCache.Cache.Valid, Quot, Rem, RawRecord, PlainAt, Table;
      p := lastP;
      var indexCount := bpb.IndexCount();
      fatSector := Quot(cluster, indexCount);
      CopyInside(bpb, |cache.flat|, 0, FatSector(bpb, cluster));
      if lastFatSector != fatSector {
        p := cache.ReadSector(bpb.partStart + bpb.resSectors + fatSector);
      }
      if cluster >= 2 {
        PlainRecord(bpb, cache.flat, cluster);
      }
      value := RawRecord(cache.sectorBuf[p], Rem(cluster, indexCount), bpb.fatType.FAT32?);
    }

    /** fat_getClusterChain16 / fat_getClusterChain32: clusters of the chain from position k
        on (start) or after it (not start), at most 512 of them. */
    method WalkChain(first: nat, start: bool, ghost cs: seq<nat>, ghost k: nat) returns (ret: int)
      requires Valid() && IsChain(T(), bpb.EndMark(), cs) && k < |cs| && cs[k] == first
      modifies cbuf, cache.Repr()
      ensures Valid() && cache.flat == old(cache.flat)
      ensures HoldsChunk(cs, if start then k else k + 1, ret)
    {
      hide SectorCache.Cache.Valid, Table, Times, Quot, Rem, PlainAt;
      ghost var from := if start then k else k + 1;
      var cluster := first;
      var lastFatSector, p := -1, 0;
      var cont := true;
      var i := 0;
      if start {
        cbuf[0] := cluster;
        i := 1;
      }
      while i < MAX_DIR_CLUSTER && cont
        invariant Valid() && cache.flat == old(cache.flat)
        invariant 0 <= i <= MAX_DIR_CLUSTER && from + i <= |cs|
        invariant cbuf[..i] == cs[from..from + i]
        invariant cont ==> k <= from + i - 1 && cluster == cs[from + i - 1]
        invariant !cont ==> from + i == |cs| && i < MAX_DIR_CLUSTER
        invariant HoldsFatSector(lastFatSector, p)
        decreases MAX_DIR_CLUSTER - i, cont
      {
        ChainStep(T(), bpb.EndMark(), cs, from + i - 1);
        cluster, lastFatSector, p := ReadRecord(cluster, lastFatSector, p);
        if cluster % bpb.Modulus() >= bpb.EndMark() {
          cont := false;
        } else {
          cbuf[i] := cluster % bpb.Modulus();
          i := i + 1;
        }
      }
      ret := if cont then 0 else i;
    }

    /** fat_getClusterChain: the walk behind a one-entry memo keyed by the first cluster only. A hit
        leaves the buffer as it is, whatever it holds. */
    method GetClusterChain(first: nat, start: bool, ghost cs: seq<nat>, ghost k: nat) returns (ret: int)
      requires Valid() && IsChain(T(), bpb.EndMark(), cs) && k < |cs| && cs[k] == first
      modifies this`lastChainCluster, this`lastChainResult, cbuf, cache.Repr()
      ensures Valid() && cache.flat == old(cache.flat)
      ensures old(lastChainCluster == first ==> HoldsChunk(cs, if start then k else k + 1, lastChainResult)) ==>
                HoldsChunk(cs, if start then k else k + 1, ret)
      ensures old(lastChainCluster) == first ==> ret == old(lastChainResult) && cbuf[..] == old(cbuf[..])
      ensures lastChainCluster == first && lastChainResult == ret
    {
      hide SectorCache.Cache.Valid;
      if first == lastChainCluster {
        return lastChainResult;
      }
      lastChainResult := WalkChain(first, start, cs, k);
      lastChainCluster := first;
      ret := lastChainResult;
    }

    /** The memo is the buffer of a walk along cs that began with its own first cluster. */
    ghost predicate Coherent(cs: seq<nat>)
      requires cbuf.Length == MAX_DIR_CLUSTER
      reads this, cbuf
    {
      forall k :: 0 <= k < |cs| && cs[k] == lastChainCluster ==> HoldsChunk(cs, k, lastChainResult)
    }

    /** The walk that keeps the memo coherent. */
    method LoadChunk(first: nat, start: bool, ghost cs: seq<nat>, ghost k: nat)
      returns (chainSize: nat, next: nat, full: bool)
      requires Valid() && IsChain(T(), bpb.EndMark(), cs) && k < |cs| && cs[k] == first
      requires start || k + 1 < |cs|
      requires lastChainCluster == first ==> start && HoldsChunk(cs, k, lastChainResult)
      modifies this`lastChainCluster, this`lastChainResult, cbuf, cache.Repr()
      ensures Valid() && cache.flat == old(cache.flat)
      ensures var from := if start then k else k + 1;
        && chainSize == ChunkSize(|cs| - from) > 0 && cbuf[..chainSize] == cs[from..from + chainSize]
        && (full <==> |cs| - from >= MAX_DIR_CLUSTER)
        && next == if full then cs[from + MAX_DIR_CLUSTER - 1] else first
      ensures start ==> Coherent(cs)
      ensures lastChainCluster == first
    {
      hide SectorCache.Cache.Valid, Table;
      var r := GetClusterChain(first, start, cs, k);
      next := first;
      if r == 0 {
        chainSize := MAX_DIR_CLUSTER;
        next := cbuf[MAX_DIR_CLUSTER - 1];
        assert next == cbuf[..MAX_DIR_CLUSTER][MAX_DIR_CLUSTER - 1];
        full := true;
      } else {
        chainSize := r;
        full := false;
      }
      if start {
        forall l | 0 <= l < |cs| && cs[l] == lastChainCluster
          ensures HoldsChunk(cs, l, lastChainResult)
        {
          ChainDistinct(T(), bpb.EndMark(), cs, k, l);
        }
      }
    }

    /** A memo filled without its first cluster never serves a call that wants it: keyed by
        the cluster alone, a hit is right exactly when the two calls agree on `start`. */
    lemma MemoHit(cs: seq<nat>, k: nat, filledWithStart: bool, start: bool)
      requires cbuf.Length == MAX_DIR_CLUSTER && OnDisk(bpb, cache.flat)
      requires IsChain(T(), bpb.EndMark(), cs) && k + 1 < |cs|
      requires HoldsChunk(cs, if filledWithStart then k else k + 1, lastChainResult)
      ensures HoldsChunk(cs, if start then k else k + 1, lastChainResult) <==> start == filledWithStart
    {
      if start != filledWithStart {
        var n, m := ChunkSize(|cs| - k), ChunkSize(|cs| - k - 1);
        assert cs[k..k + n][0] == cs[k] && cs[k + 1..k + 1 + m][0] == cs[k + 1];
        if cs[k] == cs[k + 1] {
          ChainDistinct(T(), bpb.EndMark(), cs, k, k + 1);
        }
        assert cbuf[..n][0] == cbuf[0] == cbuf[..m][0];
      }
    }

    // ----- freeing a chain -----

    /** Disk g is disk f with the clusters xs set free in every copy of the table. */
    ghost predicate FreedOnDisk(f: seq<Sector>, g: seq<Sector>, xs: seq<nat>) {
      && OnDisk(bpb, f) && OnDisk(bpb, g) && SameOutsideFat(bpb, f, g)
      && (forall m :: 0 <= m < bpb.fatCount ==> Table(bpb, g, m) == Freed(Table(bpb, f, m), xs))
      && (forall d :: 0 <= d < bpb.Entries() && d !in xs ==> RawAt(bpb, g, 0, d) == RawAt(bpb, f, 0, d))
    }

    lemma FreeOneMore(f: seq<Sector>, g: seq<Sector>, xs: seq<nat>, c: nat)
      requires FreedOnDisk(f, g, xs) && c < bpb.Entries()
      ensures FreedOnDisk(f, Saved(bpb, g, c, 0, bpb.fatCount), xs + [c])
    {
      hide Saved, RecordAt, RawAt;
      var h := Saved(bpb, g, c, 0, bpb.fatCount);
      forall d | 0 <= d < bpb.Entries() && d !in xs + [c]
        ensures RawAt(bpb, h, 0, d) == RawAt(bpb, f, 0, d)
      {
        assert c in xs + [c];
        SavedRaw(bpb, g, c, 0, bpb.fatCount, 0, d);
      }
      forall m | 0 <= m < bpb.fatCount
        ensures Table(bpb, h, m) == Freed(Table(bpb, f, m), xs + [c])
      {
        SavedTable(bpb, g, c, 0, bpb.fatCount, m);
        var t := Table(bpb, f, m);
        assert Table(bpb, g, m) == Freed(t, xs);
        assert Freed(t, xs)[c := 0] == Freed(t, xs + [c]);
      }
    }

    lemma NothingFreed(f: seq<Sector>)
      requires OnDisk(bpb, f)
      ensures FreedOnDisk(f, f, [])
    {
      forall m | 0 <= m < bpb.fatCount
        ensures Table(bpb, f, m) == Freed(Table(bpb, f, m), [])
      {
      }
    }

    /** Free the first n clusters of the chain buffer. */
    method FreeBuffered(n: nat, ghost f: seq<Sector>, ghost cs: seq<nat>, ghost k: nat)
      requires Valid() && n <= MAX_DIR_CLUSTER && k + n <= |cs| && cbuf[..n] == cs[k..k + n]
      requires FreedOnDisk(f, cache.flat, cs[..k])
      requires forall i :: 0 <= i < |cs| ==> cs[i] < bpb.Entries()
      modifies cache.Repr()
      ensures Valid() && FreedOnDisk(f, cache.flat, cs[..k + n])
    {
      hide SectorCache.Cache.Valid;
      for i := 0 to n
        invariant Valid() && cbuf[..n] == cs[k..k + n]
        invariant FreedOnDisk(f, cache.flat, cs[..k + i])
      {
        assert cbuf[i] == cbuf[..n][i] == cs[k + i];
        FreeOneMore(f, cache.flat, cs[..k + i], cbuf[i]);
        assert cs[..k + i] + [cbuf[i]] == cs[..k + i + 1];
        var _ := SaveClusterRecord(cbuf[i], 0);
      }
    }

    /** One round of fat_deleteClusterChain. */
    method DeleteRound(first: nat, ghost f: seq<Sector>, ghost cs: seq<nat>, ghost k: nat)
      returns (cont: bool, cluster: nat, ghost k': nat)
      requires Valid() && k < |cs| && cs[k] == first
      requires OnDisk(bpb, f) && IsChain(Table(bpb, f, 0), bpb.EndMark(), cs) && FreedOnDisk(f, cache.flat, cs[..k])
      requires lastChainCluster == first ==> HoldsChunk(cs[k..], 0, lastChainResult)
      modifies this`lastChainCluster, this`lastChainResult, cbuf, cache.Repr()
      ensures Valid() && lastChainCluster == 0
      ensures k < k' <= |cs| && FreedOnDisk(f, cache.flat, cs[..k'])
      ensures if cont then k' < |cs| && cs[k'] == cluster >= 2 else k' == |cs|
    {
      hide SectorCache.Cache.Valid, RecordAt, Freed;
      FreedSuffix(Table(bpb, f, 0), bpb.EndMark(), cs, k);
      cluster := first;
      var size := GetClusterChain(cluster, true, cs[k..], 0);
      if size == 0 {
        size := MAX_DIR_CLUSTER;
      }
      var end := size - 1;
      assert cbuf[..size] == cs[k..k + size];
      assert cbuf[..end] == cbuf[..size][..end] && cs[k..k + end] == cs[k..k + size][..end];
      assert cbuf[end] == cbuf[..size][end] == cs[k + end];
      FreeBuffered(end, f, cs, k);
      if size == MAX_DIR_CLUSTER {
        cluster := cbuf[end];
        k' := k + end;
        cont := true;
      } else {
        FreeOneMore(f, cache.flat, cs[..k + end], cbuf[end]);
        assert cs[..k + end] + [cbuf[end]] == cs[..|cs|];
        var _ := SaveClusterRecord(cbuf[end], 0);
        k' := |cs|;
        cont := false;
      }
      lastChainCluster := 0;
    }

    /** fat_deleteClusterChain: free a chain in rounds of at most 512 clusters; the last
        cluster of a full round is kept as the pivot the next round starts from. */
    method DeleteClusterChain(first: nat, ghost cs: seq<nat>) returns (ret: int)
      requires Valid()
      requires first >= 2 ==> IsChain(T(), bpb.EndMark(), cs) && cs[0] == first
      requires lastChainCluster == first && first >= 2 ==> HoldsChunk(cs, 0, lastChainResult)
      modifies this`lastChainCluster, this`lastChainResult, cbuf, cache.Repr()
      ensures Valid()
      ensures first < 2 ==> ret == -14 && cache.flat == old(cache.flat)
      ensures first >= 2 ==> ret == 1 && FreedOnDisk(old(cache.flat), cache.flat, cs)
      ensures first >= 2 ==> lastChainCluster == 0
    {
      hide SectorCache.Cache.Valid, RecordAt, Freed, HoldsChunk;
      if first < 2 {
        return -14;  // -EFAULT
      }
      ghost var t0 := T();
      ghost var f := cache.flat;
      var cluster := first;
      ghost var k := 0;
      var cont := true;
      NothingFreed(f);
      assert cs[..0] == [] && cs[0..] == cs;
      while cont
        invariant Valid() && 0 <= k <= |cs|
        invariant FreedOnDisk(f, cache.flat, cs[..k])
        invariant cont ==> k < |cs| && cs[k] == cluster
        invariant cont && lastChainCluster == cluster ==> HoldsChunk(cs[k..], 0, lastChainResult)
        invariant !cont ==> k == |cs| && lastChainCluster == 0
        decreases |cs| - k, cont
      {
        cont, cluster, k := DeleteRound(cluster, f, cs, k);
      }
      assert cs[..|cs|] == cs;
      return 1;
    }

    // ----- the free-cluster stack -----

    /** Inner loop of fat_readEmptyClusters16/32: records from j0 on of FAT sector i. */
    method ScanFatSector(i: nat, j0: nat, ghost lo: nat)
      requires Valid() && i < bpb.fatSize && j0 <= bpb.IndexCount() && clStackIndex <= MAX_CLUSTER_STACK
      requires lo <= Times(i, bpb.IndexCount()) + j0
      requires Gathered(bpb, cache.flat, clStack[..clStackIndex], lo, Times(i, bpb.IndexCount()) + j0)
      requires clStackLast == LastOr(clStack[..clStackIndex], lo)
      modifies this`clStackIndex, this`clStackLast, clStack, cache.Repr()
      ensures Valid() && cache.flat == old(cache.flat) && clStackIndex <= MAX_CLUSTER_STACK
      ensures Gathered(bpb, cache.flat, clStack[..clStackIndex], lo, Times(i + 1, bpb.IndexCount()))
      ensures clStackLast == LastOr(clStack[..clStackIndex], lo)
    {
      hide SectorCache.Cache.Valid, Gathered, RawRecord, LastOr;
      var indexCount := bpb.IndexCount();
      CopyInside(bpb, |cache.flat|, 0, i);
      var p := cache.ReadSector(bpb.partStart + bpb.resSectors + i);
      var j := j0;
      while j < indexCount && clStackIndex < MAX_CLUSTER_STACK
        invariant Valid() && cache.flat == old(cache.flat) && j0 <= j <= indexCount && clStackIndex <= MAX_CLUSTER_STACK
        invariant p < cache.sectorBuf.Length && cache.sectorBuf[p] == cache.flat[bpb.FatStart(0) + i]
        invariant Gathered(bpb, cache.flat, clStack[..clStackIndex], lo, Times(i, indexCount) + j)
        invariant clStackLast == LastOr(clStack[..clStackIndex], lo)
      {
        var c := Times(i, indexCount) + j;
        QuotRemOf(i, j, indexCount);
        QuotBelow(c, bpb.fatSize, indexCount);
        PushIfFree(c, RawRecord(cache.sectorBuf[p], j, bpb.fatType.FAT32?), lo);
        j := j + 1;
      }
      FullIsComplete(bpb, cache.flat, clStack[..clStackIndex], lo, Times(i, indexCount) + j, Times(i + 1, indexCount));
    }

    /** Push cluster c, the next in scan order, if its record is all zero. */
    method PushIfFree(c: nat, raw: nat, ghost lo: nat)
      requires Valid() && lo <= c < bpb.Entries() && clStackIndex < MAX_CLUSTER_STACK
      requires Gathered(bpb, cache.flat, clStack[..clStackIndex], lo, c)
      requires raw == 0 && (bpb.fatType.FAT32? ==> c < 0xFFFFFF7) <==> FreeIn(bpb, cache.flat, c)
      requires clStackLast == LastOr(clStack[..clStackIndex], lo)
      modifies this`clStackIndex, this`clStackLast, clStack
      ensures clStackIndex <= MAX_CLUSTER_STACK
      ensures Gathered(bpb, cache.flat, clStack[..clStackIndex], lo, c + 1)
      ensures clStackLast == LastOr(clStack[..clStackIndex], lo)
    {
      hide SectorCache.Cache.Valid, RawRecord, Gathered;
      ghost var before := clStack[..clStackIndex];
      GatherNext(bpb, cache.flat, before, lo, c);
      if raw == 0 && (!bpb.fatType.FAT32? || c < 0xFFFFFF7) {
        clStackLast := c;
        clStack[clStackIndex] := c;
        clStackIndex := clStackIndex + 1;
        assert clStack[..clStackIndex] == before + [c];
      }
    }

    /** Reverse clStack[from..to) in place (swapClStack). */
    method SwapClStack(from: nat, to: nat)
      requires from <= to <= clStack.Length
      modifies clStack
      ensures forall k :: from <= k < to ==> clStack[k] == old(clStack[from + to - 1 - k])
      ensures forall k :: 0 <= k < clStack.Length && !(from <= k < to) ==> clStack[k] == old(clStack[k])
    {
      var size := to - from;
      if size < 2 {
        return;
      }
      size := size / 2;
      for i := 0 to size
        invariant forall k :: 0 <= k < clStack.Length ==>
                    clStack[k] == if from <= k < from + i || to - i <= k < to then old(clStack[from + to - 1 - k])
                                  else old(clStack[k])
      {
        var offset1 := from + i;
        var offset2 := to - 1 - i;
        clStack[offset1], clStack[offset2] := clStack[offset2], clStack[offset1];
      }
    }

    /** Stacked clusters are distinct, free, and leave the stack in ascending order. */
    ghost predicate StackOk()
      requires OnDisk(bpb, cache.flat)
      reads this, clStack, cache
    {
      && clStackIndex <= clStack.Length && FreeStack(T(), clStack[..clStackIndex])
      && (bpb.fatType.FAT32? ==> forall k :: 0 <= k < clStackIndex ==> clStack[k] < bpb.EndMark())
    }

    /** fat_readEmptyClusters16 / fat_readEmptyClusters32, on an empty stack. */
    method ReadEmptyClusters() returns (ret: nat)
      requires Valid() && clStackIndex == 0 && T()[0] != 0 && T()[1] != 0
      modifies this`clStackIndex, this`clStackLast, clStack, cache.Repr()
      ensures Valid() && cache.flat == old(cache.flat) && StackOk() && ret == clStackIndex
      ensures Gathered(bpb, cache.flat, Reversed(clStack[..clStackIndex]), old(clStackLast), bpb.Entries())
      ensures clStackLast == if clStackIndex == 0 then old(clStackLast) else clStack[0]
    {
      hide SectorCache.Cache.Valid, Gathered, FreeIn, FreeStack, FreeCount, Table, Times, Quot, Rem, Plain, Sized;
      ghost var lo := clStackLast;
      var oldIndex := clStackIndex;
      var indexCount := bpb.IndexCount();
      var i := Quot(clStackLast, indexCount);
      var recordSkip := Rem(clStackLast, indexCount);
      QuotRem(lo, indexCount);
      GatherNone(bpb, cache.flat, lo);
      assert clStack[..clStackIndex] == [];
      while i < bpb.fatSize && clStackIndex < MAX_CLUSTER_STACK
        invariant Valid() && cache.flat == old(cache.flat) && recordSkip <= indexCount && clStackIndex <= MAX_CLUSTER_STACK
        invariant lo <= Times(i, indexCount) + recordSkip
        invariant Gathered(bpb, cache.flat, clStack[..clStackIndex], lo, Times(i, indexCount) + recordSkip)
        invariant clStackLast == LastOr(clStack[..clStackIndex], lo)
      {
        ScanFatSector(i, recordSkip, lo);
        TimesApart(i, i + 1, indexCount);
        i := i + 1;
        recordSkip := 0;
      }
      ghost var asc := clStack[..clStackIndex];
      ScanEnds(bpb, cache.flat, asc, lo, i, recordSkip);
      SwapClStack(oldIndex, clStackIndex);
      assert clStack[..clStackIndex] == Reversed(asc);
      assert Reversed(Reversed(asc)) == asc;
      GatheredIsFree(bpb, cache.flat, asc, lo, bpb.Entries());
      EndMarkGathered(bpb, cache.flat, asc, lo);
      ret := clStackIndex;
    }

    /** Disk g is disk f with cluster `next` taken and hung behind `cur` (or made a chain of
        its own when cur is 0), in every copy of the table. */
    ghost predicate TakenOnDisk(f: seq<Sector>, g: seq<Sector>, cur: nat, next: nat) {
      && OnDisk(bpb, f) && OnDisk(bpb, g) && SameOutsideFat(bpb, f, g)
      && cur < bpb.Entries() && next < bpb.Entries()
      && (forall m :: 0 <= m < bpb.fatCount ==>
            Table(bpb, g, m) == TakenTable(Table(bpb, f, m), cur, next, bpb.LastRecord(), bpb.Modulus()))
      && (forall d :: 0 <= d < bpb.Entries() && d != cur && d != next ==> RawAt(bpb, g, 0, d) == RawAt(bpb, f, 0, d))
    }

    /** fat_appendClusterChain, or fat_createClusterChain when cur is 0. */
    method TakeCluster(cur: nat, next: nat)
      requires Valid() && cur < bpb.Entries() && next < bpb.Entries()
      modifies cache.Repr()
      ensures Valid() && TakenOnDisk(old(cache.flat), cache.flat, cur, next)
    {
      hide SectorCache.Cache.Valid, Table, RawAt, Saved, Times, TakenTable;
      ghost var f := cache.flat;
      if cur != 0 {
        var _ := SaveClusterRecord(cur, next);
      }
      ghost var g := cache.flat;
      var _ := SaveClusterRecord(next, bpb.LastRecord());
      forall m | 0 <= m < bpb.fatCount
        ensures Table(bpb, cache.flat, m) == TakenTable(Table(bpb, f, m), cur, next, bpb.LastRecord(), bpb.Modulus())
      {
        TakenCopy(f, g, cache.flat, cur, next, m);
      }
      forall d | 0 <= d < bpb.Entries() && d != cur && d != next
        ensures RawAt(bpb, cache.flat, 0, d) == RawAt(bpb, f, 0, d)
      {
        if cur != 0 {
          SavedRaw(bpb, f, cur, next, bpb.fatCount, 0, d);
        }
        SavedRaw(bpb, g, next, bpb.LastRecord(), bpb.fatCount, 0, d);
      }
    }

    lemma TakenCopy(f: seq<Sector>, g: seq<Sector>, h: seq<Sector>, cur: nat, next: nat, m: nat)
      requires OnDisk(bpb, f) && cur < bpb.Entries() && next < bpb.Entries() && m < bpb.fatCount
      requires g == if cur != 0 then Saved(bpb, f, cur, next, bpb.fatCount) else f
      requires h == Saved(bpb, g, next, bpb.LastRecord(), bpb.fatCount)
      ensures Table(bpb, h, m) == TakenTable(Table(bpb, f, m), cur, next, bpb.LastRecord(), bpb.Modulus())
    {
      hide Table, Saved, Times;
      if cur != 0 {
        SavedTable(bpb, f, cur, next, bpb.fatCount, m);
      }
      SavedTable(bpb, g, next, bpb.LastRecord(), bpb.fatCount, m);
    }

    /** Taking a cluster takes it off the free ones and changes no other. */
    lemma FreeAfterTake(f: seq<Sector>, g: seq<Sector>, cur: nat, r: nat, c: nat)
      requires TakenOnDisk(f, g, cur, r) && 2 <= r < bpb.EndMark() && cur != r && c < bpb.Entries()
      requires var t := Table(bpb, f, 0); t[cur] != 0
      ensures FreeIn(bpb, g, c) <==> FreeIn(bpb, f, c) && c != r
    {
      hide RawAt, RecordAt, Times;
      assert Table(bpb, g, 0) == TakenTable(Table(bpb, f, 0), cur, r, bpb.LastRecord(), bpb.Modulus());
      if c == cur || c == r {
        if FreeIn(bpb, g, c) {
          FreeRecord(bpb, g, c);
        }
        if FreeIn(bpb, f, c) {
          FreeRecord(bpb, f, c);
        }
      }
    }

    /** What is handed out leaves the supply, and nothing else does. */
    lemma SupplyTaken(f: seq<Sector>, g: seq<Sector>, st: seq<nat>, last: nat, cur: nat, r: nat, st': seq<nat>, last': nat)
      requires TakenOnDisk(f, g, cur, r) && Popped(bpb, f, st, last, r, st', last')
      requires 2 <= r < bpb.EndMark() && FreeStack(Table(bpb, f, 0), st)
      requires var t := Table(bpb, f, 0); t[cur] != 0 && t[r] == 0
      ensures r in Supply(bpb, f, st, last) && Supply(bpb, g, st', last') == Supply(bpb, f, st, last) - {r}
      ensures last <= last' && (last' == last || last' in Supply(bpb, f, st, last))
    {
      hide FreeIn, Table, Supply, Gathered;
      forall c | 0 <= c < bpb.Entries()
        ensures FreeIn(bpb, g, c) <==> FreeIn(bpb, f, c) && c != r
      {
        FreeAfterTake(f, g, cur, r, c);
      }
      if st != [] {
        StackSupply(bpb, f, g, st, last, r);
      } else {
        var asc :| Gathered(bpb, f, asc, last, bpb.Entries()) && asc != [] && r == asc[0]
                   && st' == Reversed(asc)[..|asc| - 1] && last' == asc[|asc| - 1];
        ScanSupply(bpb, f, g, asc, last, st', r);
      }
    }

    /** No record of the table that reads as an end mark is free (the 32-bit scan passes them over). */
    ghost predicate Slackless()
      requires OnDisk(bpb, cache.flat)
      reads this, cache
    {
      bpb.fatType.FAT32? || forall c :: bpb.EndMark() <= c < bpb.Entries() ==> T()[c] != 0
    }

    /** The stack as a value. */
    ghost function Stack(): seq<nat>
      requires clStackIndex <= clStack.Length
      reads this, clStack
    {
      clStack[..clStackIndex]
    }

    /** What it can hand out. */
    ghost function Reserve(): set<nat>
      requires OnDisk(bpb, cache.flat) && clStackIndex <= clStack.Length
      reads this, clStack, cache
    {
      Supply(bpb, cache.flat, Stack(), clStackLast)
    }

    /** fat_getFreeCluster: pop a free cluster, refilling the stack when it is empty, and
        append it to the chain that ends in `current` (0: start a new chain). */
    method GetFreeCluster(current: nat) returns (result: nat)
      requires Valid() && StackOk() && T()[0] != 0 && T()[1] != 0
      requires current != 0 ==> 2 <= current < bpb.Entries() && T()[current] != 0
      modifies this`clStackIndex, this`clStackLast, clStack, cache.Repr()
      ensures Valid() && StackOk() && T()[0] != 0 && T()[1] != 0
      ensures result == 0 ==> cache.flat == old(cache.flat) && Stack() == old(Stack()) && clStackLast == old(clStackLast)
      ensures result == 0 <==> old(Exhausted(bpb, cache.flat, Stack(), clStackLast))
      ensures Popped(bpb, old(cache.flat), old(Stack()), old(clStackLast), result, Stack(), clStackLast)
      ensures old(Slackless()) ==> Slackless() && (result != 0 ==> result < bpb.EndMark())
      ensures old(Slackless()) && result != 0 ==>
                && result in old(Reserve()) && Reserve() == old(Reserve()) - {result}
                && old(clStackLast) <= clStackLast && (clStackLast == old(clStackLast) || clStackLast in old(Reserve()))
      ensures result != 0 ==> 2 <= result < bpb.Entries() && old(T())[result] == 0
      ensures result != 0 ==> TakenOnDisk(old(cache.flat), cache.flat, current, result)
      ensures old(clStackIndex) > 0 ==> result == old(clStack[clStackIndex - 1])
      ensures clStackIndex > 0 ==> result != 0 && result < clStack[clStackIndex - 1]
    {
      hide SectorCache.Cache.Valid, Gathered, Table, FreeIn, FreeStack, TakenTable, Times, RawAt, Supply;
      if clStackIndex <= 0 {
        clStackIndex := 0;
        var ret := ReadEmptyClusters();
        NothingGathered(bpb, cache.flat, Reversed(clStack[..clStackIndex]), old(clStackLast));
        if ret <= 0 {
          return 0;
        }
        clStackIndex := ret;
        assert Reversed(Reversed(clStack[..clStackIndex])) == clStack[..clStackIndex];
      }
      ghost var st := clStack[..clStackIndex];
      clStackIndex := clStackIndex - 1;
      result := clStack[clStackIndex];
      StackAfterTake(T(), st, current, bpb.LastRecord(), bpb.Modulus());
      ghost var t := T();
      TakeCluster(current, result);
      assert clStack[..clStackIndex] == st[..|st| - 1];
      SlackStays(t, current, result, bpb.EndMark(), bpb.LastRecord(), bpb.Modulus());
      if old(Slackless()) {
        SupplyTaken(old(cache.flat), cache.flat, old(Stack()), old(clStackLast), current, result, Stack(), clStackLast);
      }
    }
  }
}
