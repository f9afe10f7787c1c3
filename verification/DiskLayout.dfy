/** Where things lie on the disk, byte by byte (iop/usb_mass/fat_driver.c, fat_write.c; Microsoft
    FAT32 File System Specification v1.03, "FAT Data Structure"). The other modules work with
    Times, Quot and Rem and with tables of numbers; here their meaning is written out. */
module DiskLayout {
  import opened Arith
  import opened Bytes
  import opened FatRecords
  import opened FatChains
  import opened FatFileView
  import opened FatVolume
  import opened FatFile

  // ----- the tables -----

  lemma CopyByteInside(b: Bpb, size: nat, n: nat, o: nat)
    requires b.LaidOut(size) && n < b.fatCount && o < b.fatSize * b.sectorSize
    ensures o / b.sectorSize < b.fatSize
    ensures b.partStart + b.resSectors + n * b.fatSize + o / b.sectorSize == b.FatStart(n) + Quot(o, b.sectorSize) < size
  {
    TimesIsProduct(n, b.fatSize);
    TimesIsProduct(b.fatSize, b.sectorSize);
    QuotIsDiv(o, b.sectorSize);
    QuotBelow(o, b.fatSize, b.sectorSize);
    CopyInside(b, size, n, Quot(o, b.sectorSize));
  }

  /** Byte o of copy n of the table. */
  ghost function TableByte(b: Bpb, flat: seq<Sector>, n: nat, o: nat): int
    requires OnDisk(b, flat) && n < b.fatCount && o < b.fatSize * b.sectorSize
  {
    CopyByteInside(b, |flat|, n, o);
    flat[b.partStart + b.resSectors + n * b.fatSize + o / b.sectorSize][o % b.sectorSize]
  }

  /** The records in a table of whole sectors. */
  lemma RecordInside(b: Bpb, c: nat)
    requires b.sectorSize in {512, 1024, 2048, 4096} && c < b.Entries()
    ensures b.fatType.FAT32? ==> 4 * c + 4 <= b.fatSize * b.sectorSize
    ensures !b.fatType.FAT32? ==> 2 * c + 2 <= b.fatSize * b.sectorSize
  {
    TimesIsProduct(b.fatSize, b.IndexCount());
    if b.fatType.FAT32? {
      assert b.sectorSize == 4 * b.IndexCount();
      assert b.fatSize * (4 * b.IndexCount()) == 4 * (b.fatSize * b.IndexCount());
    } else {
      assert b.sectorSize == 2 * b.IndexCount();
      assert b.fatSize * (2 * b.IndexCount()) == 2 * (b.fatSize * b.IndexCount());
    }
  }

  /** The number on the disk for cluster c: two bytes, or the low 28 bits of four, low byte first. */
  ghost function OnBytes(b: Bpb, flat: seq<Sector>, n: nat, c: nat): int
    requires OnDisk(b, flat) && n < b.fatCount && c < b.Entries()
  {
    RecordInside(b, c);
    if b.fatType.FAT32? then
      TableByte(b, flat, n, 4 * c) + 0x100 * TableByte(b, flat, n, 4 * c + 1) + 0x10000 * TableByte(b, flat, n, 4 * c + 2)
      + 0x1000000 * (TableByte(b, flat, n, 4 * c + 3) % 16)
    else TableByte(b, flat, n, 2 * c) + 0x100 * TableByte(b, flat, n, 2 * c + 1)
  }

  /** Byte j of record c, of w bytes, lies in the sector of the record at its place, with k records
      to a sector. */
  lemma PlaceOfByte(c: nat, k: nat, w: nat, j: nat)
    requires k > 0 && j < w
    ensures w * k > 0 && (w * c + j) / (w * k) == c / k && (w * c + j) % (w * k) == w * (c % k) + j
  {
    var q, r := c / k, c % k;
    assert c == q * k + r;
    calc {
      w * c + j;
      w * (q * k + r) + j;
      w * (q * k) + w * r + j;
      { assert w * (q * k) == q * (w * k); }
      q * (w * k) + (w * r + j);
    }
    StretchesApart(r, k, w);
    assert w * r + j < w * k;
    DivModOf(q, w * r + j, w * k);
  }

  lemma RecordByte(b: Bpb, flat: seq<Sector>, n: nat, c: nat, j: nat)
    requires OnDisk(b, flat) && n < b.fatCount && c < b.Entries() && j < (if b.fatType.FAT32? then 4 else 2)
    ensures var w := if b.fatType.FAT32? then 4 else 2; var s := b.FatStart(n) + FatSector(b, c);
      && w * c + j < b.fatSize * b.sectorSize && s < |flat| && w * Rem(c, b.IndexCount()) + j < |flat[s]|
      && TableByte(b, flat, n, w * c + j) == flat[s][w * Rem(c, b.IndexCount()) + j] as int
  {
    hide Times, Quot, Rem;
    var w := if b.fatType.FAT32? then 4 else 2;
    var k := b.IndexCount();
    var o := w * c + j;
    assert b.sectorSize == w * k;
    RecordInside(b, c);
    CopyByteInside(b, |flat|, n, o);
    PlaceOfByte(c, k, w, j);
    QuotIsDiv(c, k);
    QuotIsDiv(o, b.sectorSize);
    assert Rem(c, k) == c % k && Quot(o, b.sectorSize) == Quot(c, k);
  }

  /** The table is what these bytes say. */
  lemma TableOnBytes(b: Bpb, flat: seq<Sector>, n: nat, c: nat)
    requires OnDisk(b, flat) && n < b.fatCount && c < b.Entries()
    ensures Table(b, flat, n)[c] == OnBytes(b, flat, n, c)
  {
    hide Times, Quot, Rem, TableByte;
    RecordByte(b, flat, n, c, 0);
    RecordByte(b, flat, n, c, 1);
    var s := b.FatStart(n) + FatSector(b, c);
    var k := Rem(c, b.IndexCount());
    if b.fatType.FAT32? {
      RecordByte(b, flat, n, c, 2);
      RecordByte(b, flat, n, c, 3);
      LowNibble(flat[s][4 * k], flat[s][4 * k + 1], flat[s][4 * k + 2], flat[s][4 * k + 3]);
    }
  }

  lemma LowNibble(b0: Byte, b1: Byte, b2: Byte, b3: Byte)
    ensures Le32(b0, b1, b2, b3) % 0x10000000
         == b0 as int + 0x100 * (b1 as int) + 0x10000 * (b2 as int) + 0x1000000 * (b3 as int % 16)
  {
    var top: nat := b3 as int / 16;
    var low := b0 as int + 0x100 * (b1 as int) + 0x10000 * (b2 as int) + 0x1000000 * (b3 as int % 16);
    assert Le32(b0, b1, b2, b3) == top * 0x10000000 + low;
    DivModOf(top, low, 0x10000000);
  }

  /** cs is a chain in the first copy, on the bytes: each record names the next cluster, and that of
      the last is an end mark: 0xFFF8 or more, or 0xFFFFFF8 or more in 28 bits. */
  ghost predicate ChainOnBytes(b: Bpb, flat: seq<Sector>, cs: seq<nat>)
    requires OnDisk(b, flat) && forall i :: 0 <= i < |cs| ==> 2 <= cs[i] < b.Entries()
  {
    var end := if b.fatType.FAT32? then 0xFFFFFF8 else 0xFFF8;
    && |cs| >= 1
    && (forall i :: 0 <= i < |cs| ==> cs[i] < end)
    && (forall i :: 0 <= i < |cs| - 1 ==> OnBytes(b, flat, 0, cs[i]) == cs[i + 1])
    && OnBytes(b, flat, 0, cs[|cs| - 1]) >= end
  }

  lemma ChainIsOnBytes(b: Bpb, flat: seq<Sector>, cs: seq<nat>)
    requires OnDisk(b, flat) && forall i :: 0 <= i < |cs| ==> 2 <= cs[i] < b.Entries()
    ensures IsChain(Table(b, flat, 0), b.EndMark(), cs) <==> ChainOnBytes(b, flat, cs)
  {
    hide OnBytes, Times, Table;
    forall i | 0 <= i < |cs|
      ensures Table(b, flat, 0)[cs[i]] == OnBytes(b, flat, 0, cs[i])
    {
      TableOnBytes(b, flat, 0, cs[i]);
    }
  }

  /** The scan takes a cluster for free if and only if all its bytes are zero, and in 32 bits its
      number is below 0xFFFFFF7. */
  lemma FreeOnBytes(b: Bpb, flat: seq<Sector>, c: nat)
    requires OnDisk(b, flat) && c < b.Entries()
    ensures b.fatType.FAT32? ==>
              && 4 * c + 4 <= b.fatSize * b.sectorSize
              && (FreeIn(b, flat, c) <==>
                  && TableByte(b, flat, 0, 4 * c) == TableByte(b, flat, 0, 4 * c + 1) == TableByte(b, flat, 0, 4 * c + 2) == 0
                  && TableByte(b, flat, 0, 4 * c + 3) == 0 && c < 0xFFFFFF7)
    ensures !b.fatType.FAT32? ==>
              && 2 * c + 2 <= b.fatSize * b.sectorSize
              && (FreeIn(b, flat, c) <==> TableByte(b, flat, 0, 2 * c) == TableByte(b, flat, 0, 2 * c + 1) == 0)
  {
    hide Times, Quot, Rem, TableByte, Le16, Le32;
    RecordInside(b, c);
    RecordByte(b, flat, 0, c, 0);
    RecordByte(b, flat, 0, c, 1);
    var s := b.FatStart(0) + FatSector(b, c);
    var k := Rem(c, b.IndexCount());
    if b.fatType.FAT32? {
      RecordByte(b, flat, 0, c, 2);
      RecordByte(b, flat, 0, c, 3);
      ZeroBytes(flat[s][4 * k], flat[s][4 * k + 1], flat[s][4 * k + 2], flat[s][4 * k + 3]);
    } else {
      ZeroBytes(flat[s][2 * k], flat[s][2 * k + 1], 0, 0);
    }
  }

  lemma ZeroBytes(b0: Byte, b1: Byte, b2: Byte, b3: Byte)
    ensures Le32(b0, b1, b2, b3) == 0 <==> b0 == 0 && b1 == 0 && b2 == 0 && b3 == 0
    ensures Le16(b0, b1) == 0 <==> b0 == 0 && b1 == 0
  {
  }

  /** Handing out cluster r: in every copy its bytes are an end mark of ones, and those of the cluster
      before it are its number. */
  lemma TakenOnBytes(vol: Volume, f: seq<Sector>, g: seq<Sector>, cur: nat, r: nat, n: nat)
    requires vol.TakenOnDisk(f, g, cur, r) && n < vol.bpb.fatCount && r != cur && r < vol.bpb.EndMark()
    ensures OnBytes(vol.bpb, g, n, r) == if vol.bpb.fatType.FAT32? then 0xFFFFFFF else 0xFFFF
    ensures cur != 0 ==> OnBytes(vol.bpb, g, n, cur) == r
  {
    hide Times, OnBytes, Table;
    TableOnBytes(vol.bpb, g, n, r);
    TableOnBytes(vol.bpb, g, n, cur);
  }

  // ----- the data area -----

  /** The first sector behind the root directory of FAT12 and FAT16. */
  function DataSector(b: Bpb): nat
    requires b.sectorSize > 0
  {
    if b.fatType.FAT32? then b.rootDirStart else b.rootDirStart + 32 * b.rootSize / b.sectorSize
  }

  lemma DataIs(b: Bpb)
    requires b.sectorSize in {512, 1024, 2048, 4096}
    ensures b.DataStart() == DataSector(b)
  {
    var k := b.sectorSize / 32;
    PlaceOfByte(b.rootSize, k, 32, 0);
    assert 32 * k == b.sectorSize;
  }

  /** Clusters lie one behind the other, from number 2 on. */
  lemma ClusterAt(b: Bpb, c: nat)
    requires b.sectorSize in {512, 1024, 2048, 4096} && c >= 2
    ensures ClusterSector(b, c) == DataSector(b) + (c - 2) * b.clusterSize
  {
    DataIs(b);
    TimesIsProduct(c - 2, b.clusterSize);
  }

  /** Byte p of a file. */
  lemma FileByteAt(b: Bpb, flat: seq<Sector>, cs: seq<nat>, p: nat)
    requires IsFile(b, flat, cs) && p < Capacity(b, |cs|)
    ensures var q := p / b.sectorSize; var k := q / b.clusterSize;
      && k < |cs| && cs[k] >= 2
      && var s := DataSector(b) + (cs[k] - 2) * b.clusterSize + q % b.clusterSize;
         0 <= s < |flat| && FileByte(b, flat, cs, p) == flat[s][p % b.sectorSize]
  {
    QuotBelow(p, Times(|cs|, b.clusterSize), b.sectorSize);
    QuotBelow(Quot(p, b.sectorSize), |cs|, b.clusterSize);
    QuotIsDiv(p, b.sectorSize);
    QuotIsDiv(Quot(p, b.sectorSize), b.clusterSize);
    ClusterAt(b, cs[p / b.sectorSize / b.clusterSize]);
  }

  /** Sector s holds entries of the root directory of a FAT12 or FAT16 volume. */
  predicate HoldsRoot(b: Bpb, s: nat) {
    !b.fatType.FAT32? && b.rootDirStart <= s && (s - b.rootDirStart) * b.sectorSize < 32 * b.rootSize
  }

  lemma RootSectors(b: Bpb, s: nat)
    requires b.sectorSize in {512, 1024, 2048, 4096} && !b.fatType.FAT32? && b.rootDirStart <= s
    ensures HoldsRoot(b, s) <==> s < DataSector(b) || (s == DataSector(b) && 32 * b.rootSize % b.sectorSize > 0)
  {
    var i, d, ss := s - b.rootDirStart, 32 * b.rootSize / b.sectorSize, b.sectorSize;
    assert 32 * b.rootSize == d * ss + 32 * b.rootSize % ss;
    if i < d {
      StretchesApart(i, d, ss);
    } else if d < i {
      StretchesApart(d, i, ss);
    }
  }

  /** The root directory is on no file if and only if it fills its sectors: else its last entries
      share the first sector of cluster 2. */
  lemma RootIsApart(b: Bpb)
    requires b.sectorSize in {512, 1024, 2048, 4096} && b.clusterSize >= 1 && !b.fatType.FAT32?
    ensures (forall cs, s :: HoldsRoot(b, s) ==> !Owns(b, cs, s)) <==> 32 * b.rootSize % b.sectorSize == 0
  {
    var d := DataSector(b);
    if 32 * b.rootSize % b.sectorSize == 0 {
      forall cs: seq<nat>, s: nat | HoldsRoot(b, s)
        ensures !Owns(b, cs, s)
      {
        RootSectors(b, s);
        BehindRoot(b, cs, s);
      }
    } else {
      RootSectors(b, d);
      ClusterAt(b, 2);
      assert [2][0] == 2 && Owns(b, [2], d);
    }
  }

  lemma BehindRoot(b: Bpb, cs: seq<nat>, s: nat)
    requires b.sectorSize in {512, 1024, 2048, 4096} && s < DataSector(b)
    ensures !Owns(b, cs, s)
  {
    DataIs(b);
  }

  /** Where that is so, writing a file leaves the root directory as it is. */
  lemma RootKept(b: Bpb, f: seq<Sector>, g: seq<Sector>, cs: seq<nat>, ds: seq<nat>, pos: nat, data: seq<Byte>, s: nat)
    requires WroteFile(b, f, g, cs, ds, pos, data) && HoldsRoot(b, s) && s < |f| && 32 * b.rootSize % b.sectorSize == 0
    ensures g[s] == f[s]
  {
    RootIsApart(b);
    assert !Owns(b, ds, s);
  }
}
