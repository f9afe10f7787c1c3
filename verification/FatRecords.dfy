/** FAT records of the 16- and 32-bit tables: packing, unpacking and the mirrored copies
    (iop/usb_mass/fat_write.c, fat_driver.c; Microsoft FAT32 File System Specification
    v1.03, "FAT Data Structure"). */
module FatRecords {
  import opened Arith
  import opened Bytes

  datatype FatType = FAT12 | FAT16 | FAT32

  /** The parts of the BIOS parameter block that the model needs. */
  datatype Bpb = Bpb(fatType: FatType, sectorSize: nat, clusterSize: nat, resSectors: nat, fatCount: nat,
                     rootSize: nat, fatSize: nat, partStart: nat, rootDirStart: nat)
  {
    /** Records per sector: the C variable indexCount. */
    function IndexCount(): nat {
      if fatType.FAT32? then sectorSize / 4 else sectorSize / 2
    }

    function FatStart(n: nat): nat {
      partStart + resSectors + Times(n, fatSize)
    }

    /** First sector of the data area. */
    function DataStart(): nat
      requires sectorSize >= 32
    {
      if fatType.FAT32? then rootDirStart else rootDirStart + rootSize / (sectorSize / 32)
    }

    function Entries(): nat {
      Times(fatSize, IndexCount())
    }

    /** Largest value a record can hold, plus one. */
    function Modulus(): nat {
      if fatType.FAT32? then 0x10000000 else 0x10000
    }

    /** Values from here on end a chain. */
    function EndMark(): nat {
      if fatType.FAT32? then 0xFFFFFF8 else 0xFFF8
    }

    function LastRecord(): nat {
      if fatType.FAT32? then 0xFFFFFFF else 0xFFFF
    }

    /** The partition fits on a disk of `size` sectors, with its FATs before its data. */
    ghost predicate LaidOut(size: nat) {
      && sectorSize in {512, 1024, 2048, 4096}
      && clusterSize >= 1
      && fatCount >= 1
      && FatStart(fatCount) <= rootDirStart
      && DataStart() <= size
    }

    /** The same, with tables of 16- or 28-bit records. */
    ghost predicate Fits(size: nat) {
      LaidOut(size) && 2 <= Entries()
    }
  }

  ghost predicate Sized(flat: seq<Sector>, sectorSize: nat) {
    forall s :: 0 <= s < |flat| ==> |flat[s]| == sectorSize
  }

  function Le16(b0: Byte, b1: Byte): nat {
    b0 as int + 0x100 * (b1 as int)
  }

  function Le32(b0: Byte, b1: Byte, b2: Byte, b3: Byte): nat {
    b0 as int + 0x100 * (b1 as int) + 0x10000 * (b2 as int) + 0x1000000 * (b3 as int)
  }

  /** The four bytes of a value, with the top nibble of another. */
  lemma Le32Splits(v: nat, top: Byte)
    ensures var x := Le32(v % 256, v / 0x100 % 256, v / 0x10000 % 256, top / 16 * 16 + v / 0x1000000 % 16);
      x % 0x10000000 == v % 0x10000000 && x / 0x10000000 == top / 16
  {
    DivTwice(v, 0x100, 0x100);
    DivTwice(v, 0x10000, 0x100);
    DivTwice(v, 0x1000000, 0x10);
    var low := v % 0x1000000 + 0x1000000 * (v / 0x1000000 % 16);
    assert Le32(v % 256, v / 0x100 % 256, v / 0x10000 % 256, top / 16 * 16 + v / 0x1000000 % 16)
        == top / 16 * 0x10000000 + low;
    DivModOf(top / 16, low, 0x10000000);
  }

  /** All bits of record k of a FAT sector (getI16, getI32). */
  function RawRecord(sec: Sector, k: nat, wide: bool): nat
    requires if wide then 4 * k + 4 <= |sec| else 2 * k + 2 <= |sec|
  {
    if wide then Le32(sec[4 * k], sec[4 * k + 1], sec[4 * k + 2], sec[4 * k + 3])
    else Le16(sec[2 * k], sec[2 * k + 1])
  }

  /** The cluster number in record k: the top nibble of a 32-bit record is reserved. */
  function Record(sec: Sector, k: nat, wide: bool): nat
    requires if wide then 4 * k + 4 <= |sec| else 2 * k + 2 <= |sec|
  {
    if wide then RawRecord(sec, k, true) % 0x10000000 else RawRecord(sec, k, false)
  }

  /** The byte stores of fat_saveClusterRecord16 and fat_saveClusterRecord32. */
  function PutRecord(sec: Sector, k: nat, v: nat, wide: bool): (r: Sector)
    requires if wide then 4 * k + 4 <= |sec| else 2 * k + 2 <= |sec|
    ensures |r| == |sec|
  {
    if wide then
      sec[4 * k := v % 256][4 * k + 1 := v / 0x100 % 256][4 * k + 2 := v / 0x10000 % 256]
         [4 * k + 3 := sec[4 * k + 3] / 16 * 16 + v / 0x1000000 % 16]
    else
      sec[2 * k := v % 256][2 * k + 1 := v / 0x100 % 256]
  }

  /** A stored record reads back, its reserved nibble is kept, and its neighbours stay. */
  lemma PutRecordReads(sec: Sector, k: nat, v: nat, wide: bool, j: nat)
    requires if wide then 4 * k + 4 <= |sec| && 4 * j + 4 <= |sec| else 2 * k + 2 <= |sec| && 2 * j + 2 <= |sec|
    ensures Record(PutRecord(sec, k, v, wide), j, wide) ==
            if j == k then v % (if wide then 0x10000000 else 0x10000) else Record(sec, j, wide)
    ensures wide ==> RawRecord(PutRecord(sec, k, v, wide), k, true) / 0x10000000 ==
                     RawRecord(sec, k, true) / 0x10000000
  {
    if wide {
      PutWideReads(sec, k, v, j);
    } else {
      DivTwice(v, 0x100, 0x100);
    }
  }

  lemma PutWideReads(sec: Sector, k: nat, v: nat, j: nat)
    requires 4 * k + 4 <= |sec| && 4 * j + 4 <= |sec|
    ensures j == k ==> Record(PutRecord(sec, k, v, true), j, true) == v % 0x10000000
    ensures j != k ==> RawRecord(PutRecord(sec, k, v, true), j, true) == RawRecord(sec, j, true)
    ensures RawRecord(PutRecord(sec, k, v, true), k, true) / 0x10000000 == RawRecord(sec, k, true) / 0x10000000
  {
    hide Le32;
    Le32Splits(v, sec[4 * k + 3]);
    Le32Top(sec[4 * k], sec[4 * k + 1], sec[4 * k + 2], sec[4 * k + 3]);
  }

  lemma Le32Top(b0: Byte, b1: Byte, b2: Byte, b3: Byte)
    ensures Le32(b0, b1, b2, b3) / 0x10000000 == b3 / 16
  {
    var low := Le32(b0, b1, b2, b3 % 16);
    var top: nat := b3 / 16;
    assert Le32(b0, b1, b2, b3) == top * 0x10000000 + low;
    DivModOf(top, low, 0x10000000);
  }

  // ----- the table as a sequence of records -----

  /** A disk that holds the partition, and a table the 16/32-bit code handles. */
  ghost predicate OnDisk(b: Bpb, flat: seq<Sector>) {
    b.Fits(|flat|) && Sized(flat, b.sectorSize) && !b.fatType.FAT12?
  }

  /** Sector q of copy n lies in that copy and on the disk. */
  lemma CopyInside(b: Bpb, size: nat, n: nat, q: nat)
    requires b.LaidOut(size) && n < b.fatCount && q < b.fatSize
    ensures b.FatStart(0) <= b.FatStart(n) + q < b.FatStart(n + 1) <= b.FatStart(b.fatCount) <= b.DataStart() <= size
  {
    TimesMonotone(n + 1, b.fatCount, b.fatSize);
  }

  /** Sectors of two copies differ. */
  lemma CopiesApart(b: Bpb, size: nat, n: nat, m: nat, q: nat, r: nat)
    requires b.LaidOut(size) && n < b.fatCount && m < b.fatCount && n != m && q < b.fatSize && r < b.fatSize
    ensures b.FatStart(n) + q != b.FatStart(m) + r
  {
    if n < m { TimesApart(n, m, b.fatSize); } else { TimesApart(m, n, b.fatSize); }
  }

  /** Sector, relative to its copy, of the record of cluster c. */
  function FatSector(b: Bpb, c: nat): (q: nat)
    requires b.sectorSize in {512, 1024, 2048, 4096} && c < b.Entries()
    ensures q < b.fatSize
  {
    QuotBelow(c, b.fatSize, b.IndexCount());
    Quot(c, b.IndexCount())
  }

  /** The record of cluster c in copy n. */
  ghost function RecordAt(b: Bpb, flat: seq<Sector>, n: nat, c: nat): nat
    requires OnDisk(b, flat) && n < b.fatCount && c < b.Entries()
  {
    CopyInside(b, |flat|, n, FatSector(b, c));
    Record(flat[b.FatStart(n) + FatSector(b, c)], Rem(c, b.IndexCount()), b.fatType.FAT32?)
  }

  /** All bits of that record. */
  ghost function RawAt(b: Bpb, flat: seq<Sector>, n: nat, c: nat): nat
    requires OnDisk(b, flat) && n < b.fatCount && c < b.Entries()
  {
    CopyInside(b, |flat|, n, FatSector(b, c));
    RawRecord(flat[b.FatStart(n) + FatSector(b, c)], Rem(c, b.IndexCount()), b.fatType.FAT32?)
  }

  /** The reserved bits of the record of cluster c are zero. */
  ghost predicate PlainAt(b: Bpb, flat: seq<Sector>, c: nat)
    requires OnDisk(b, flat) && c < b.Entries()
  {
    RawAt(b, flat, 0, c) < 0x10000000
  }

  /** So are those of every cluster; 16-bit records have none. */
  ghost predicate Plain(b: Bpb, flat: seq<Sector>)
    requires OnDisk(b, flat)
  {
    forall c :: 2 <= c < b.Entries() ==> PlainAt(b, flat, c)
  }

  lemma NarrowIsPlain(b: Bpb, flat: seq<Sector>)
    requires OnDisk(b, flat) && !b.fatType.FAT32?
    ensures Plain(b, flat)
  {
    hide Times, Quot, Rem;
    forall c | 2 <= c < b.Entries()
      ensures PlainAt(b, flat, c)
    {
      CopyInside(b, |flat|, 0, FatSector(b, c));
    }
  }

  /** Only the table decides. */
  lemma PlainStays(b: Bpb, f: seq<Sector>, g: seq<Sector>)
    requires OnDisk(b, f) && OnDisk(b, g) && |f| == |g| && Plain(b, f)
    requires forall s :: b.FatStart(0) <= s < b.FatStart(1) && s < |f| ==> g[s] == f[s]
    ensures Plain(b, g)
  {
    hide Times, Quot, Rem, RawRecord;
    forall c | 2 <= c < b.Entries()
      ensures PlainAt(b, g, c)
    {
      CopyInside(b, |f|, 0, FatSector(b, c));
      assert PlainAt(b, f, c);
    }
  }

  /** Copy n of the table. */
  ghost function Table(b: Bpb, flat: seq<Sector>, n: nat): (t: seq<nat>)
    requires OnDisk(b, flat) && n < b.fatCount
    ensures |t| == b.Entries()
  {
    seq(b.Entries(), c requires 0 <= c < b.Entries() => RecordAt(b, flat, n, c))
  }

  /** A record without reserved bits is the number it holds. */
  lemma PlainRecord(b: Bpb, flat: seq<Sector>, c: nat)
    requires OnDisk(b, flat) && c < b.Entries() && PlainAt(b, flat, c)
    ensures RawAt(b, flat, 0, c) == Table(b, flat, 0)[c] < b.Modulus()
    ensures RawAt(b, flat, 0, c) % b.Modulus() == RawAt(b, flat, 0, c)
  {
    hide RawAt, RecordAt;
    RecordOfRaw(b, flat, c);
  }

  /** What a record holds, from all its bits. */
  lemma RecordOfRaw(b: Bpb, flat: seq<Sector>, c: nat)
    requires OnDisk(b, flat) && c < b.Entries()
    ensures b.fatType.FAT32? ==> RecordAt(b, flat, 0, c) == RawAt(b, flat, 0, c) % 0x10000000
    ensures !b.fatType.FAT32? ==> RecordAt(b, flat, 0, c) == RawAt(b, flat, 0, c) < 0x10000
  {
    hide Times, Quot, Rem, RawRecord;
    CopyInside(b, |flat|, 0, FatSector(b, c));
    if !b.fatType.FAT32? {
      NarrowRecord(flat[b.FatStart(0) + FatSector(b, c)], Rem(c, b.IndexCount()));
    }
  }

  lemma NarrowRecord(sec: Sector, k: nat)
    requires 2 * k + 2 <= |sec|
    ensures RawRecord(sec, k, false) < 0x10000
  {
  }

  /** The sectors outside the tables are the same. */
  ghost predicate SameOutsideFat(b: Bpb, f: seq<Sector>, g: seq<Sector>) {
    |f| == |g| && forall s :: 0 <= s < |f| && !(b.FatStart(0) <= s < b.FatStart(b.fatCount)) ==> f[s] == g[s]
  }

  /** The disk after the first n copies of record c have been stored. */
  ghost function Saved(b: Bpb, flat: seq<Sector>, c: nat, v: nat, n: nat): (g: seq<Sector>)
    requires OnDisk(b, flat) && n <= b.fatCount && c < b.Entries()
    ensures OnDisk(b, g) && SameOutsideFat(b, flat, g)
  {
    if n == 0 then flat
    else
      var g := Saved(b, flat, c, v, n - 1);
      CopyInside(b, |flat|, n - 1, FatSector(b, c));
      var s := b.FatStart(n - 1) + FatSector(b, c);
      g[s := PutRecord(g[s], Rem(c, b.IndexCount()), v, b.fatType.FAT32?)]
  }

  /** Storing the copies one by one sets record c in each of them and nothing else. */
  lemma {:induction false} SavedTable(b: Bpb, flat: seq<Sector>, c: nat, v: nat, n: nat, m: nat)
    requires OnDisk(b, flat) && n <= b.fatCount && m < b.fatCount && c < b.Entries()
    ensures Table(b, Saved(b, flat, c, v, n), m) ==
            if m < n then Table(b, flat, m)[c := v % b.Modulus()] else Table(b, flat, m)
  {
    hide Times, Quot, Rem, RecordAt, PutRecord;
    if n > 0 {
      SavedTable(b, flat, c, v, n - 1, m);
      CopyInside(b, |flat|, n - 1, FatSector(b, c));
      var g := Saved(b, flat, c, v, n - 1);
      var s := b.FatStart(n - 1) + FatSector(b, c);
      assert Saved(b, flat, c, v, n) == g[s := PutRecord(g[s], Rem(c, b.IndexCount()), v, b.fatType.FAT32?)];
      StoreOneCopy(b, g, c, v, n - 1, m);
    }
  }

  lemma StoreOneCopy(b: Bpb, g: seq<Sector>, c: nat, v: nat, n: nat, m: nat)
    requires OnDisk(b, g) && n < b.fatCount && m < b.fatCount && c < b.Entries()
    requires b.FatStart(n) + FatSector(b, c) < |g|
    ensures var s := b.FatStart(n) + FatSector(b, c);
      var h := g[s := PutRecord(g[s], Rem(c, b.IndexCount()), v, b.fatType.FAT32?)];
      Table(b, h, m) == if m == n then Table(b, g, m)[c := v % b.Modulus()] else Table(b, g, m)
  {
    var s := b.FatStart(n) + FatSector(b, c);
    var h := g[s := PutRecord(g[s], Rem(c, b.IndexCount()), v, b.fatType.FAT32?)];
    forall d | 0 <= d < b.Entries()
      ensures RecordAt(b, h, m, d) == if m == n && d == c then v % b.Modulus() else RecordAt(b, g, m, d)
    {
      StoreOneRecord(b, g, h, c, v, n, m, d);
    }
  }

  lemma StoreOneRecord(b: Bpb, g: seq<Sector>, h: seq<Sector>, c: nat, v: nat, n: nat, m: nat, d: nat)
    requires OnDisk(b, g) && OnDisk(b, h) && n < b.fatCount && m < b.fatCount && c < b.Entries() && d < b.Entries()
    requires b.FatStart(n) + FatSector(b, c) < |g|
    requires var s := b.FatStart(n) + FatSector(b, c);
      h == g[s := PutRecord(g[s], Rem(c, b.IndexCount()), v, b.fatType.FAT32?)]
    ensures RecordAt(b, h, m, d) == if m == n && d == c then v % b.Modulus() else RecordAt(b, g, m, d)
  {
    CopyInside(b, |g|, m, FatSector(b, d));
    if m != n {
      CopiesApart(b, |g|, n, m, FatSector(b, c), FatSector(b, d));
    } else if FatSector(b, d) == FatSector(b, c) {
      PutRecordReads(g[b.FatStart(n) + FatSector(b, c)], Rem(c, b.IndexCount()), v, b.fatType.FAT32?, Rem(d, b.IndexCount()));
      QuotRem(c, b.IndexCount());
      QuotRem(d, b.IndexCount());
    }
  }

  /** Storing a record touches no bit of any other. */
  lemma StoreOneRaw(b: Bpb, g: seq<Sector>, h: seq<Sector>, c: nat, v: nat, n: nat, m: nat, d: nat)
    requires OnDisk(b, g) && OnDisk(b, h) && n < b.fatCount && m < b.fatCount && c < b.Entries() && d < b.Entries() && d != c
    requires b.FatStart(n) + FatSector(b, c) < |g|
    requires var s := b.FatStart(n) + FatSector(b, c);
      h == g[s := PutRecord(g[s], Rem(c, b.IndexCount()), v, b.fatType.FAT32?)]
    ensures RawAt(b, h, m, d) == RawAt(b, g, m, d)
  {
    hide Times, Quot, Rem, Le32;
    CopyInside(b, |g|, m, FatSector(b, d));
    if m != n {
      CopiesApart(b, |g|, n, m, FatSector(b, c), FatSector(b, d));
    } else if FatSector(b, d) == FatSector(b, c) {
      QuotRem(c, b.IndexCount());
      QuotRem(d, b.IndexCount());
    }
  }

  lemma {:induction false} SavedRaw(b: Bpb, flat: seq<Sector>, c: nat, v: nat, n: nat, m: nat, d: nat)
    requires OnDisk(b, flat) && n <= b.fatCount && m < b.fatCount && c < b.Entries() && d < b.Entries() && d != c
    ensures RawAt(b, Saved(b, flat, c, v, n), m, d) == RawAt(b, flat, m, d)
  {
    hide Times, Quot, Rem, RawAt, PutRecord;
    if n > 0 {
      SavedRaw(b, flat, c, v, n - 1, m, d);
      CopyInside(b, |flat|, n - 1, FatSector(b, c));
      StoreOneRaw(b, Saved(b, flat, c, v, n - 1), Saved(b, flat, c, v, n), c, v, n - 1, m, d);
    }
  }

  /** Storing a record leaves its reserved bits as they are. */
  lemma {:induction false} SavedPlain(b: Bpb, flat: seq<Sector>, c: nat, v: nat, n: nat, d: nat)
    requires OnDisk(b, flat) && n <= b.fatCount && c < b.Entries() && d < b.Entries()
    ensures PlainAt(b, Saved(b, flat, c, v, n), d) <==> PlainAt(b, flat, d)
  {
    hide Times, Quot, Rem, RawRecord, PutRecord;
    if n > 0 {
      SavedPlain(b, flat, c, v, n - 1, d);
      CopyInside(b, |flat|, n - 1, FatSector(b, c));
      var g := Saved(b, flat, c, v, n - 1);
      var s := b.FatStart(n - 1) + FatSector(b, c);
      if d != c {
        StoreOneRaw(b, g, Saved(b, flat, c, v, n), c, v, n - 1, 0, d);
      } else if n == 1 {
        PlainPut(g[s], Rem(c, b.IndexCount()), v, b.fatType.FAT32?);
      } else {
        CopyInside(b, |flat|, 0, FatSector(b, c));
        CopiesApart(b, |flat|, 0, n - 1, FatSector(b, c), FatSector(b, c));
      }
    }
  }

  lemma PlainPut(sec: Sector, k: nat, v: nat, wide: bool)
    requires if wide then 4 * k + 4 <= |sec| else 2 * k + 2 <= |sec|
    ensures RawRecord(PutRecord(sec, k, v, wide), k, wide) < 0x10000000 <==> RawRecord(sec, k, wide) < 0x10000000
  {
    if wide {
      PutWideReads(sec, k, v, k);
    }
  }

  /** The walk looks the next record up under all bits of this one: sector and place are those of the
      cluster it names if and only if its reserved bits are zero. */
  lemma ReservedBits(b: Bpb, flat: seq<Sector>, c: nat)
    requires OnDisk(b, flat) && c < b.Entries()
    ensures var raw, next, k := RawAt(b, flat, 0, c), Table(b, flat, 0)[c], b.IndexCount();
      Quot(raw, k) == Quot(next, k) && Rem(raw, k) == Rem(next, k) <==> PlainAt(b, flat, c)
  {
    hide Quot, Rem, Times, RawAt, RecordAt;
    RecordOfRaw(b, flat, c);
    var raw, next, k := RawAt(b, flat, 0, c), Table(b, flat, 0)[c], b.IndexCount();
    QuotRem(raw, k);
    QuotRem(next, k);
    assert next == RecordAt(b, flat, 0, c);
  }
}
