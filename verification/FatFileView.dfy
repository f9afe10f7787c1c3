/** The bytes of a file: the concatenated contents of the clusters of its chain. */
module FatFileView {
  import opened Arith
  import opened Bytes
  import opened FatRecords
  import opened FatChains

  /** Bytes of one cluster. */
  function ClusterBytes(b: Bpb): nat {
    Times(b.clusterSize, b.sectorSize)
  }

  /** First sector of a data cluster (fat_cluster2sector). */
  function ClusterSector(b: Bpb, c: nat): nat
    requires b.sectorSize >= 32 && c >= 2
  {
    b.DataStart() + Times(c - 2, b.clusterSize)
  }

  /** Every cluster of cs lies in the data area of the disk. */
  ghost predicate InData(b: Bpb, size: nat, cs: seq<nat>)
    requires b.sectorSize >= 32
  {
    forall i :: 0 <= i < |cs| ==> cs[i] >= 2 && ClusterSector(b, cs[i]) + b.clusterSize <= size
  }

  ghost predicate Distinct(cs: seq<nat>) {
    forall i, j :: 0 <= i < |cs| && 0 <= j < |cs| && cs[i] == cs[j] ==> i == j
  }

  /** A file on a disk: distinct clusters inside the data area. */
  ghost predicate IsFile(b: Bpb, flat: seq<Sector>, cs: seq<nat>) {
    OnDisk(b, flat) && InData(b, |flat|, cs) && Distinct(cs)
  }

  /** Number of bytes the clusters can hold. */
  function Capacity(b: Bpb, n: nat): nat {
    Times(Times(n, b.clusterSize), b.sectorSize)
  }

  /** Disk sector of the file's sector q. */
  function FileSector(b: Bpb, cs: seq<nat>, q: nat): nat
    requires b.sectorSize >= 32 && b.clusterSize >= 1 && Quot(q, b.clusterSize) < |cs|
    requires cs[Quot(q, b.clusterSize)] >= 2
  {
    ClusterSector(b, cs[Quot(q, b.clusterSize)]) + Rem(q, b.clusterSize)
  }

  /** Byte p of the file. */
  ghost function FileByte(b: Bpb, flat: seq<Sector>, cs: seq<nat>, p: nat): Byte
    requires IsFile(b, flat, cs) && p < Capacity(b, |cs|)
  {
    QuotBelow(p, Times(|cs|, b.clusterSize), b.sectorSize);
    QuotBelow(Quot(p, b.sectorSize), |cs|, b.clusterSize);
    flat[FileSector(b, cs, Quot(p, b.sectorSize))][Rem(p, b.sectorSize)]
  }

  /** Different places of a file are on different sectors. */
  lemma SectorsApart(b: Bpb, flat: seq<Sector>, cs: seq<nat>, k: nat, i: nat, l: nat, j: nat)
    requires IsFile(b, flat, cs) && k < |cs| && l < |cs| && i < b.clusterSize && j < b.clusterSize
    requires ClusterSector(b, cs[k]) + i == ClusterSector(b, cs[l]) + j
    ensures k == l && i == j
  {
    if cs[k] < cs[l] {
      TimesApart(cs[k] - 2, cs[l] - 2, b.clusterSize);
    } else if cs[l] < cs[k] {
      TimesApart(cs[l] - 2, cs[k] - 2, b.clusterSize);
    }
  }

  /** Sector s belongs to one of the clusters cs. */
  ghost predicate Owns(b: Bpb, cs: seq<nat>, s: nat)
    requires b.sectorSize >= 32
  {
    exists k :: 0 <= k < |cs| && cs[k] >= 2 && ClusterSector(b, cs[k]) <= s < ClusterSector(b, cs[k]) + b.clusterSize
  }

  /** A store in the data area leaves the tables alone. */
  lemma DataKeepsPlain(b: Bpb, f: seq<Sector>, s: nat, x: Sector)
    requires OnDisk(b, f) && Plain(b, f) && b.DataStart() <= s < |f| && OnDisk(b, f[s := x])
    ensures Plain(b, f[s := x])
  {
    hide Times, Plain;
    TimesMonotone(1, b.fatCount, b.fatSize);
    PlainStays(b, f, f[s := x]);
  }

  /** Disk g is disk f with bytes [pos, pos+|data|) of file cs replaced by data, and no
      other byte changed. */
  ghost predicate Written(b: Bpb, f: seq<Sector>, g: seq<Sector>, cs: seq<nat>, pos: nat, data: seq<Byte>) {
    && IsFile(b, f, cs) && IsFile(b, g, cs) && |f| == |g|
    && pos + |data| <= Capacity(b, |cs|)
    && (forall p :: 0 <= p < Capacity(b, |cs|) ==>
          FileByte(b, g, cs, p) == if pos <= p < pos + |data| then data[p - pos] else FileByte(b, f, cs, p))
    && (forall s :: 0 <= s < |f| && !Owns(b, cs, s) ==> g[s] == f[s])
  }

  /** Storing part of one sector extends what has been written. */
  lemma WriteOneSector(b: Bpb, f: seq<Sector>, g: seq<Sector>, cs: seq<nat>, pos: nat, data: seq<Byte>,
                       k: nat, j: nat, skip: nat, part: seq<Byte>)
    requires Written(b, f, g, cs, pos, data) && k < |cs| && j < b.clusterSize && skip + |part| <= b.sectorSize
    requires pos + |data| == Times(Times(k, b.clusterSize) + j, b.sectorSize) + skip
    ensures ClusterSector(b, cs[k]) + j < |g|
    ensures var s := ClusterSector(b, cs[k]) + j;
      Written(b, f, g[s := g[s][..skip] + part + g[s][skip + |part|..]], cs, pos, data + part)
  {
    var s := ClusterSector(b, cs[k]) + j;
    var h := g[s := g[s][..skip] + part + g[s][skip + |part|..]];
    PlaceBelow(b, |cs|, k, j);
    forall p | 0 <= p < Capacity(b, |cs|)
      ensures FileByte(b, h, cs, p) ==
              if pos <= p < pos + |data + part| then (data + part)[p - pos] else FileByte(b, f, cs, p)
    {
      OneSectorByte(b, g, h, cs, k, j, skip, part, p);
    }
    forall r | 0 <= r < |f| && !Owns(b, cs, r)
      ensures h[r] == f[r]
    {
      assert r != s;
    }
  }

  /** The bytes of sector j of cluster k end within the file. */
  lemma PlaceBelow(b: Bpb, n: nat, k: nat, j: nat)
    requires k < n && j < b.clusterSize
    ensures Times(Times(k, b.clusterSize) + j, b.sectorSize) + b.sectorSize <= Capacity(b, n)
  {
    TimesApart(k, n, b.clusterSize);
    TimesApart(Times(k, b.clusterSize) + j, Times(n, b.clusterSize), b.sectorSize);
  }

  lemma OneSectorByte(b: Bpb, g: seq<Sector>, h: seq<Sector>, cs: seq<nat>, k: nat, j: nat, skip: nat,
                      part: seq<Byte>, p: nat)
    requires IsFile(b, g, cs) && k < |cs| && j < b.clusterSize && skip + |part| <= b.sectorSize
    requires ClusterSector(b, cs[k]) + j < |g| && p < Capacity(b, |cs|)
    requires var s := ClusterSector(b, cs[k]) + j; h == g[s := g[s][..skip] + part + g[s][skip + |part|..]]
    ensures IsFile(b, h, cs)
    ensures var a := Times(Times(k, b.clusterSize) + j, b.sectorSize) + skip;
      FileByte(b, h, cs, p) == if a <= p < a + |part| then part[p - a] else FileByte(b, g, cs, p)
  {
    var s := ClusterSector(b, cs[k]) + j;
    var q := Quot(p, b.sectorSize);
    QuotRem(p, b.sectorSize);
    QuotRem(q, b.clusterSize);
    QuotBelow(p, Times(|cs|, b.clusterSize), b.sectorSize);
    QuotBelow(q, |cs|, b.clusterSize);
    var q0 := Times(k, b.clusterSize) + j;
    if FileSector(b, cs, q) == s {
      SectorsApart(b, g, cs, Quot(q, b.clusterSize), Rem(q, b.clusterSize), k, j);
      assert q == q0;
    } else {
      QuotRemOf(k, j, b.clusterSize);
      assert q != q0;
      if q < q0 {
        TimesApart(q, q0, b.sectorSize);
      } else {
        TimesApart(q0, q, b.sectorSize);
      }
    }
  }

  /** Position pos is byte d of sector j of the k-th cluster. */
  ghost predicate Place(b: Bpb, pos: nat, k: nat, j: nat, d: nat) {
    pos == Times(Times(k, b.clusterSize) + j, b.sectorSize) + d
  }

  /** out is the slice of the file that starts at pos. */
  ghost predicate IsSlice(b: Bpb, flat: seq<Sector>, cs: seq<nat>, pos: nat, out: seq<Byte>) {
    && IsFile(b, flat, cs) && pos + |out| <= Capacity(b, |cs|)
    && forall i :: 0 <= i < |out| ==> out[i] == FileByte(b, flat, cs, pos + i)
  }

  /** Reading part of one sector extends the slice. */
  lemma ReadOneSector(b: Bpb, flat: seq<Sector>, cs: seq<nat>, pos: nat, out: seq<Byte>, k: nat, j: nat, d: nat, m: nat)
    requires IsSlice(b, flat, cs, pos, out) && k < |cs| && j < b.clusterSize && d + m <= b.sectorSize
    requires Place(b, pos + |out|, k, j, d)
    ensures ClusterSector(b, cs[k]) + j < |flat|
    ensures IsSlice(b, flat, cs, pos, out + flat[ClusterSector(b, cs[k]) + j][d..d + m])
  {
    hide Times, Quot, Rem;
    PlaceBelow(b, |cs|, k, j);
    var all := out + flat[ClusterSector(b, cs[k]) + j][d..d + m];
    forall i | |out| <= i < |all|
      ensures all[i] == FileByte(b, flat, cs, pos + i)
    {
      QuotRemOf(Times(k, b.clusterSize) + j, d + (i - |out|), b.sectorSize);
      QuotRemOf(k, j, b.clusterSize);
    }
  }

  /** After the last byte of a sector comes the next sector; after the last sector, the next cluster. */
  lemma NextPlace(b: Bpb, pos: nat, k: nat, j: nat, d: nat, m: nat)
    requires Place(b, pos, k, j, d) && d + m == b.sectorSize
    ensures Place(b, pos + m, k, j + 1, 0)
    ensures j + 1 == b.clusterSize ==> Place(b, pos + m, k + 1, 0, 0)
  {
  }

  /** A place before the end of the file is in one of its clusters. */
  lemma PlaceInFile(b: Bpb, pos: nat, k: nat, j: nat, d: nat, n: nat)
    requires Place(b, pos, k, j, d) && pos < Capacity(b, n)
    ensures k < n
  {
    if n <= k {
      TimesMonotone(n, k, b.clusterSize);
      TimesMonotone(Times(n, b.clusterSize), Times(k, b.clusterSize) + j, b.sectorSize);
    }
  }

  /** A sector of a copy of the table belongs to no file. */
  lemma TableOwnedByNone(b: Bpb, size: nat, cs: seq<nat>, s: nat)
    requires b.Fits(size) && s < b.FatStart(b.fatCount)
    ensures !Owns(b, cs, s)
  {
  }

  /** Writing a file leaves every copy of the table alone. */
  lemma WrittenKeepsTable(b: Bpb, f: seq<Sector>, g: seq<Sector>, cs: seq<nat>, pos: nat, data: seq<Byte>, m: nat)
    requires Written(b, f, g, cs, pos, data) && m < b.fatCount
    ensures Table(b, g, m) == Table(b, f, m)
  {
    hide Times, Quot, Rem, FileByte;
    forall c | 0 <= c < b.Entries()
      ensures RecordAt(b, g, m, c) == RecordAt(b, f, m, c)
    {
      CopyInside(b, |f|, m, FatSector(b, c));
      TableOwnedByNone(b, |f|, cs, b.FatStart(m) + FatSector(b, c));
    }
  }

  /** Writing a file leaves every file with other clusters alone. */
  lemma WrittenKeepsOthers(b: Bpb, f: seq<Sector>, g: seq<Sector>, cs: seq<nat>, pos: nat, data: seq<Byte>,
                           ds: seq<nat>, p: nat)
    requires Written(b, f, g, cs, pos, data) && IsFile(b, f, ds) && forall c :: c in ds ==> c !in cs
    requires p < Capacity(b, |ds|)
    ensures IsFile(b, g, ds) && FileByte(b, g, ds, p) == FileByte(b, f, ds, p)
  {
    var q := Quot(p, b.sectorSize);
    QuotBelow(p, Times(|ds|, b.clusterSize), b.sectorSize);
    QuotBelow(q, |ds|, b.clusterSize);
    var c := ds[Quot(q, b.clusterSize)];
    var s := FileSector(b, ds, q);
    forall k | 0 <= k < |cs| && cs[k] >= 2
      ensures !(ClusterSector(b, cs[k]) <= s < ClusterSector(b, cs[k]) + b.clusterSize)
    {
      assert c in ds && cs[k] in cs;
      if cs[k] < c {
        TimesApart(cs[k] - 2, c - 2, b.clusterSize);
      } else {
        TimesApart(c - 2, cs[k] - 2, b.clusterSize);
      }
    }
    assert !Owns(b, cs, s);
  }

  /** Changing the tables only leaves every file alone, also seen through a longer chain. */
  lemma TableChangeKeepsFile(b: Bpb, f: seq<Sector>, g: seq<Sector>, cs: seq<nat>, ds: seq<nat>, p: nat)
    requires IsFile(b, f, cs) && IsFile(b, g, ds) && SameOutsideFat(b, f, g) && cs <= ds && p < Capacity(b, |cs|)
    ensures p < Capacity(b, |ds|) && FileByte(b, g, ds, p) == FileByte(b, f, cs, p)
  {
    hide Times, Quot, Rem, Distinct, InData;
    CapacityGrows(b, |cs|, |ds|);
    var q := Quot(p, b.sectorSize);
    QuotBelow(p, Times(|cs|, b.clusterSize), b.sectorSize);
    QuotBelow(q, |cs|, b.clusterSize);
    ClusterInside(b, |f|, cs, Quot(q, b.clusterSize));
    assert ds[Quot(q, b.clusterSize)] == cs[Quot(q, b.clusterSize)];
    QuotRem(q, b.clusterSize);
    assert FileSector(b, cs, q) == FileSector(b, ds, q) < |f|;
    assert FileSector(b, cs, q) >= b.DataStart() >= b.FatStart(b.fatCount);
  }

  lemma ClusterInside(b: Bpb, size: nat, cs: seq<nat>, k: nat)
    requires b.sectorSize >= 32 && InData(b, size, cs) && k < |cs|
    ensures cs[k] >= 2 && ClusterSector(b, cs[k]) + b.clusterSize <= size
  {
  }

  lemma CapacityGrows(b: Bpb, n: nat, m: nat)
    requires n <= m
    ensures Capacity(b, n) <= Capacity(b, m)
  {
    TimesMonotone(n, m, b.clusterSize);
    TimesMonotone(Times(n, b.clusterSize), Times(m, b.clusterSize), b.sectorSize);
  }

  /** Nothing written yet. */
  lemma WrittenNothing(b: Bpb, f: seq<Sector>, cs: seq<nat>, pos: nat)
    requires IsFile(b, f, cs) && pos <= Capacity(b, |cs|)
    ensures Written(b, f, f, cs, pos, [])
  {
  }
}
