/** A small volume on which a failed write loses a cluster (iop/usb_mass/fat_write.c). */
module FatWitness {
  import opened Arith
  import opened Bytes
  import opened FatRecords
  import opened FatChains
  import opened FatFileView
  import opened FatVolume
  import opened FatFile
  import opened FatHandle
  import SectorCache

  /** A 16-bit volume of eight sectors: a boot sector, a table, a root directory and five clusters
      of one sector. */
  ghost predicate Small(b: Bpb) {
    && b.fatType.FAT16? && b.sectorSize == 512 && b.clusterSize == 1 && b.resSectors == 1 && b.fatCount == 1
    && b.rootSize == 16 && b.fatSize == 1 && b.partStart == 0 && b.rootDirStart == 2
  }

  /** Every record of the table is an end mark but that of cluster 3, which is free. */
  ghost predicate IsImage(flat: seq<Sector>) {
    && |flat| == 8 && (forall s :: 0 <= s < 8 ==> |flat[s]| == 512)
    && (forall i :: 0 <= i < 512 ==> flat[1][i] == if i == 6 || i == 7 then 0 else 0xFF)
  }

  lemma TimesSmall(l: nat)
    ensures Times(0, l) == 0 && Times(1, l) == l
  {
  }

  lemma Sizes(b: Bpb, flat: seq<Sector>)
    requires Small(b) && IsImage(flat)
    ensures b.Entries() == 256 && b.FatStart(b.fatCount) == 2 && b.DataStart() == 3 && ClusterBytes(b) == 512
    ensures OnDisk(b, flat)
  {
    hide Times;
    TimesSmall(b.fatSize);
    TimesSmall(b.IndexCount());
    TimesSmall(b.sectorSize);
    RootSectors(b.rootSize, b.sectorSize);
  }

  lemma RootSectors(rootSize: nat, sectorSize: nat)
    requires rootSize == 16 && sectorSize == 512
    ensures rootSize / (sectorSize / 32) == 1
  {
  }

  lemma RecordIs(b: Bpb, flat: seq<Sector>, c: nat)
    requires Small(b) && IsImage(flat) && c < 256
    ensures OnDisk(b, flat) && b.Entries() == 256
    ensures RawAt(b, flat, 0, c) == RecordAt(b, flat, 0, c) == if c == 3 then 0 else 0xFFFF
  {
    hide Times, Quot, Rem;
    Sizes(b, flat);
    TimesSmall(b.fatSize);
    TimesSmall(b.IndexCount());
    QuotRemOf(0, c, b.IndexCount());
  }

  /** Only cluster 3 can be handed out; clusters 2 and 4 are files. */
  lemma TableIs(b: Bpb, flat: seq<Sector>)
    requires Small(b) && IsImage(flat)
    ensures OnDisk(b, flat) && b.Entries() == 256 && Supply(b, flat, [], 0) == {3}
    ensures var t := Table(b, flat, 0);
      (forall c :: 0 <= c < 256 ==> (t[c] == 0 <==> c == 3)) && IsChain(t, b.EndMark(), [2]) && IsChain(t, b.EndMark(), [4]) && FreeInData(b, 8, t)
  {
    hide Times, RawAt, RecordAt;
    Sizes(b, flat);
    var t := Table(b, flat, 0);
    forall c | 0 <= c < 256
      ensures t[c] == (if c == 3 then 0 else 0xFFFF) && (FreeIn(b, flat, c) <==> c == 3)
    {
      RecordIs(b, flat, c);
      assert t[c] == RecordAt(b, flat, 0, c);
    }
    ClusterAt(b, flat, 3);
  }

  lemma ClusterAt(b: Bpb, flat: seq<Sector>, c: nat)
    requires Small(b) && IsImage(flat) && 2 <= c <= 6
    ensures ClusterSector(b, c) == c + 1
  {
    hide Times;
    Sizes(b, flat);
    TimesIsProduct(c - 2, 1);
  }

  lemma Missing(b: Bpb)
    requires Small(b)
    ensures ClusterBytes(b) == 512 && FileClusters(b, 0) == 1 && EndOfClusters(b, 0) == 512 && Lacking(b, 0, 1500) == 2
  {
    hide Times, Quot, Rem;
    TimesSmall(512);
    QuotIsDiv(0, 512);
    QuotIsDiv(1500, 512);
  }

  /** The state the run starts in. */
  lemma Starts(vol: Volume, dir: FatDir)
    requires vol.Valid() && Small(vol.bpb) && IsImage(vol.cache.flat) && vol.clStackIndex == 0 && vol.clStackLast == 0
    requires dir.chain.Length == DIR_CHAIN_SIZE && dir.Repr() !! vol.Repr() && dir.size == 0 && dir.lastCluster == 2
    requires forall i :: 0 <= i < DIR_CHAIN_SIZE ==> dir.chain[i] == ChainPoint(2, 0)
    ensures ClusterBytes(vol.bpb) > 0 && Open(vol, dir, [2]) && EndsAt(vol.bpb, dir, [2], 0) && CanAllocate(vol) && vol.Reserve() == {3}
    ensures forall c :: 0 <= c < |vol.T()| && vol.T()[c] == 0 ==> c == 3
    ensures IsChain(vol.T(), vol.bpb.EndMark(), [4]) && InData(vol.bpb, |vol.cache.flat|, [4])
  {
    hide SectorCache.Cache.Valid, Table, Supply, FreeInData, Times, Quot, Rem, FileClusters;
    var b, flat := vol.bpb, vol.cache.flat;
    Sizes(b, flat);
    TableIs(b, flat);
    ClusterAt(b, flat, 2);
    ClusterAt(b, flat, 4);
    Missing(b);
    assert vol.Stack() == [];
    assert [2][..1] == [2];
  }

  /** The volume, and the record of the file at cluster 2. */
  method Build() returns (vol: Volume, dir: FatDir)
    ensures vol.Valid() && Small(vol.bpb) && IsImage(vol.cache.flat) && vol.clStackIndex == 0 && vol.clStackLast == 0
    ensures dir.chain.Length == DIR_CHAIN_SIZE && dir.Repr() !! vol.Repr() && dir.size == 0 && dir.lastCluster == 2
    ensures forall i :: 0 <= i < DIR_CHAIN_SIZE ==> dir.chain[i] == ChainPoint(2, 0)
    ensures vol.lastChainCluster == 0xFFFFFFFF && fresh(vol.Repr() + dir.Repr())
  {
    hide SectorCache.Cache.Valid, Plain;
    var b := Bpb(FAT16, 512, 1, 1, 1, 16, 1, 0, 2);
    var table := seq<Byte>(512, i => if i == 6 || i == 7 then 0 else 0xFF);
    var blank := seq<Byte>(512, _ => 0);
    var image := [blank, table, blank, blank, blank, blank, blank, blank];
    assert IsImage(image);
    Sizes(b, image);
    NarrowIsPlain(b, image);
    SectorCache.WholeSlots();
    var cache := new SectorCache.Cache(512, image);
    vol := new Volume(b, cache);
    dir := new FatDir(2, 0);
    dir.lastCluster := 2;
  }

  /** The file at cluster 2 is empty and is written with 1500 bytes, for which two clusters are
      missing and one is free; the file at cluster 4 is deleted; the write is tried again. Cluster 3
      is in use afterwards and on no file. */
  method LostCluster() returns (first: int, vol: Volume, ghost ds: seq<nat>)
    ensures first < 0 && vol.Valid() && |vol.T()| > 3 && IsChain(vol.T(), vol.bpb.EndMark(), ds)
    ensures ds[0] == 2 && 3 !in ds && vol.T()[3] != 0
  {
    hide SectorCache.Cache.Valid, Table, Supply, FreeInData, Times, Quot, Rem, FileClusters, Lacking, EndOfClusters, PointsOk, IsChain,
         InData, Exhausted, IsImage;
    var dir, second;
    vol, dir := Build();
    var h := new Handle();
    Starts(vol, dir);
    Missing(vol.bpb);
    var data := seq<Byte>(1500, _ => 7);
    ghost var mid, last;
    first, second, mid, ds, last := RetryLosesClusters(vol, dir, h, data, 4, [4], [2]);
    assert mid[1] == 3 && [4][0] == 4;
    ChainInside(vol.T(), vol.bpb.EndMark(), ds);
  }
}
