/** Packed 12-bit FAT records, which share bytes with their neighbours and may straddle two
    sectors (iop/usb_mass/fat_write.c, fat_driver.c; Microsoft FAT32 File System
    Specification v1.03, "FAT Data Structure"). */
module Fat12 {
  import opened Arith
  import opened Bytes
  import opened FatRecords
  import SectorCache

  /** Byte offset of a record from the start of the table. */
  function RecordOffset(c: nat): nat {
    c * 3 / 2
  }

  /** fat_getClusterRecord12 on the two bytes of the record. */
  function Unpack(b0: Byte, b1: Byte, odd: bool): nat {
    if odd then b1 as int * 16 + b0 as int / 16 else (b1 as int % 16) * 256 + b0 as int
  }

  /** fat_setClusterRecord12: part 1 is the first byte, part 2 the second. */
  function Part1(b0: Byte, v: nat, odd: bool): Byte {
    if odd then b0 as int % 16 + (v % 16) * 16 else v % 256
  }

  function Part2(b1: Byte, v: nat, odd: bool): Byte {
    if odd then v / 16 % 256 else b1 as int / 16 * 16 + v / 256 % 16
  }

  /** A packed record reads back as its low 12 bits; the nibble it shares stays. */
  lemma PackReads(b0: Byte, b1: Byte, v: nat, odd: bool)
    ensures Unpack(Part1(b0, v, odd), Part2(b1, v, odd), odd) == v % 4096
    ensures if odd then Part1(b0, v, odd) % 16 == b0 % 16 else Part2(b1, v, odd) / 16 == b1 / 16
  {
    if odd {
      DivTwice(v, 16, 256);
    } else {
      DivTwice(v, 256, 16);
    }
  }

  ghost predicate OnDisk12(b: Bpb, flat: seq<Sector>) {
    b.LaidOut(|flat|) && Sized(flat, b.sectorSize)
  }

  /** The table has a record for cluster c. */
  ghost predicate InTable(b: Bpb, c: nat) {
    RecordOffset(c) + 1 < Times(b.fatSize, b.sectorSize)
  }

  function PutByte(sec: Sector, k: nat, x: Byte): (r: Sector)
    requires k < |sec|
    ensures |r| == |sec|
  {
    sec[k := x]
  }

  /** Byte o of copy n of the table. */
  ghost function FatByte(b: Bpb, flat: seq<Sector>, n: nat, o: nat): Byte
    requires OnDisk12(b, flat) && n < b.fatCount && o < Times(b.fatSize, b.sectorSize)
  {
    QuotBelow(o, b.fatSize, b.sectorSize);
    CopyInside(b, |flat|, n, Quot(o, b.sectorSize));
    flat[b.FatStart(n) + Quot(o, b.sectorSize)][Rem(o, b.sectorSize)]
  }

  /** The disk with byte o of copy n replaced. */
  ghost function WithByte(b: Bpb, flat: seq<Sector>, n: nat, o: nat, x: Byte): (g: seq<Sector>)
    requires OnDisk12(b, flat) && n < b.fatCount && o < Times(b.fatSize, b.sectorSize)
    ensures OnDisk12(b, g) && SameOutsideFat(b, flat, g)
  {
    QuotBelow(o, b.fatSize, b.sectorSize);
    CopyInside(b, |flat|, n, Quot(o, b.sectorSize));
    var s := b.FatStart(n) + Quot(o, b.sectorSize);
    flat[s := PutByte(flat[s], Rem(o, b.sectorSize), x)]
  }

  lemma WithByteReads(b: Bpb, flat: seq<Sector>, n: nat, o: nat, x: Byte, m: nat, p: nat)
    requires OnDisk12(b, flat) && n < b.fatCount && o < Times(b.fatSize, b.sectorSize)
    requires m < b.fatCount && p < Times(b.fatSize, b.sectorSize)
    ensures FatByte(b, WithByte(b, flat, n, o, x), m, p) == if m == n && p == o then x else FatByte(b, flat, m, p)
  {
    hide Times, Quot, Rem;
    var ss := b.sectorSize;
    QuotBelow(o, b.fatSize, ss);
    QuotBelow(p, b.fatSize, ss);
    CopyInside(b, |flat|, n, Quot(o, ss));
    CopyInside(b, |flat|, m, Quot(p, ss));
    if m != n {
      CopiesApart(b, |flat|, n, m, Quot(o, ss), Quot(p, ss));
    } else if p != o {
      QuotRem(o, ss);
      QuotRem(p, ss);
    }
  }

  /** The record of cluster c in copy n. */
  ghost function Record12(b: Bpb, flat: seq<Sector>, n: nat, c: nat): nat
    requires OnDisk12(b, flat) && n < b.fatCount && InTable(b, c)
  {
    Unpack(FatByte(b, flat, n, RecordOffset(c)), FatByte(b, flat, n, RecordOffset(c) + 1), c % 2 == 1)
  }

  /** Two records fill three bytes: the first has the low byte and the low half of the middle one, the
      second the other half and the high byte. */
  lemma ThreeBytes(b: Bpb, flat: seq<Sector>, n: nat, k: nat)
    requires OnDisk12(b, flat) && n < b.fatCount && InTable(b, 2 * k + 1)
    ensures 3 * k + 2 < Times(b.fatSize, b.sectorSize) && InTable(b, 2 * k)
    ensures var x, y, z := FatByte(b, flat, n, 3 * k) as int, FatByte(b, flat, n, 3 * k + 1) as int, FatByte(b, flat, n, 3 * k + 2) as int;
      Record12(b, flat, n, 2 * k) == x + 256 * (y % 16) && Record12(b, flat, n, 2 * k + 1) == y / 16 + 16 * z
  {
    hide FatByte, Times;
    OffsetOf(2 * k);
    OffsetOf(2 * k + 1);
  }

  /** The disk with record c of copy n replaced. */
  ghost function WithRecord(b: Bpb, flat: seq<Sector>, n: nat, c: nat, v: nat): (g: seq<Sector>)
    requires OnDisk12(b, flat) && n < b.fatCount && InTable(b, c)
    ensures OnDisk12(b, g) && SameOutsideFat(b, flat, g)
  {
    var o, odd := RecordOffset(c), c % 2 == 1;
    var g := WithByte(b, flat, n, o, Part1(FatByte(b, flat, n, o), v, odd));
    WithByte(b, g, n, o + 1, Part2(FatByte(b, flat, n, o + 1), v, odd))
  }

  /** Storing a record sets it to its low 12 bits and keeps every other record, also the two
      that share a byte with it, in every copy. */
  lemma WithRecordReads(b: Bpb, flat: seq<Sector>, n: nat, c: nat, v: nat, m: nat, d: nat)
    requires OnDisk12(b, flat) && n < b.fatCount && InTable(b, c) && m < b.fatCount && InTable(b, d)
    ensures Record12(b, WithRecord(b, flat, n, c, v), m, d) ==
            if m == n && d == c then v % 4096 else Record12(b, flat, m, d)
  {
    hide OnDisk12, FatByte, WithByte, SameOutsideFat, Times;
    var o, odd := RecordOffset(c), c % 2 == 1;
    var b0, b1 := FatByte(b, flat, n, o), FatByte(b, flat, n, o + 1);
    var g := WithByte(b, flat, n, o, Part1(b0, v, odd));
    var q := RecordOffset(d);
    WithByteReads(b, flat, n, o, Part1(b0, v, odd), m, q);
    WithByteReads(b, flat, n, o, Part1(b0, v, odd), m, q + 1);
    WithByteReads(b, g, n, o + 1, Part2(b1, v, odd), m, q);
    WithByteReads(b, g, n, o + 1, Part2(b1, v, odd), m, q + 1);
    PackReads(b0, b1, v, odd);
    Overlap(c, d);
  }

  /** Two records fill three bytes. */
  lemma OffsetOf(c: nat)
    ensures RecordOffset(c) == 3 * (c / 2) + c % 2
  {
    var k := c / 2;
    assert c == 2 * k + c % 2;
    if c % 2 == 0 {
      assert c * 3 == 2 * (3 * k);
    } else {
      assert c * 3 == 2 * (3 * k + 1) + 1;
    }
  }

  /** Which bytes two records share. */
  lemma Overlap(c: nat, d: nat)
    ensures var o, q := RecordOffset(c), RecordOffset(d);
      c != d ==> o != q && (q == o + 1 ==> c % 2 == 0 && d % 2 == 1) && (o == q + 1 ==> d % 2 == 0 && c % 2 == 1)
  {
    hide RecordOffset;
    OffsetOf(c);
    OffsetOf(d);
  }

  /** The disk after the first n copies of record c have been stored. */
  ghost function Saved12(b: Bpb, flat: seq<Sector>, c: nat, v: nat, n: nat): (g: seq<Sector>)
    requires OnDisk12(b, flat) && n <= b.fatCount && InTable(b, c)
    ensures OnDisk12(b, g) && SameOutsideFat(b, flat, g)
  {
    if n == 0 then flat else WithRecord(b, Saved12(b, flat, c, v, n - 1), n - 1, c, v)
  }

  /** Saving sets the record in every copy, so equal copies stay equal. */
  lemma {:induction false} Saved12Reads(b: Bpb, flat: seq<Sector>, c: nat, v: nat, n: nat, m: nat, d: nat)
    requires OnDisk12(b, flat) && n <= b.fatCount && InTable(b, c) && m < b.fatCount && InTable(b, d)
    ensures Record12(b, Saved12(b, flat, c, v, n), m, d) ==
            if m < n && d == c then v % 4096 else Record12(b, flat, m, d)
  {
    hide OnDisk12, Record12, WithRecord, SameOutsideFat;
    if n > 0 {
      Saved12Reads(b, flat, c, v, n - 1, m, d);
      WithRecordReads(b, Saved12(b, flat, c, v, n - 1), n - 1, c, v, m, d);
    }
  }

  // ----- the driver's stores and lookups -----

  /** Where the two bytes of a record lie. */
  lemma TwoBytes(b: Bpb, flat: seq<Sector>, n: nat, o: nat)
    requires OnDisk12(b, flat) && n < b.fatCount && o + 1 < Times(b.fatSize, b.sectorSize)
    ensures var ss := b.sectorSize; var s := b.FatStart(n) + Quot(o, ss);
      && s < |flat| && FatByte(b, flat, n, o) == flat[s][Rem(o, ss)]
      && (Rem(o, ss) < ss - 1 ==> Quot(o + 1, ss) == Quot(o, ss) && Rem(o + 1, ss) == Rem(o, ss) + 1
                                  && FatByte(b, flat, n, o + 1) == flat[s][Rem(o, ss) + 1])
      && (Rem(o, ss) == ss - 1 ==> Quot(o + 1, ss) == Quot(o, ss) + 1 && Rem(o + 1, ss) == 0
                                   && s + 1 < |flat| && FatByte(b, flat, n, o + 1) == flat[s + 1][0])
  {
    hide Times, Quot, Rem;
    var ss := b.sectorSize;
    QuotBelow(o, b.fatSize, ss);
    QuotBelow(o + 1, b.fatSize, ss);
    CopyInside(b, |flat|, n, Quot(o, ss));
    CopyInside(b, |flat|, n, Quot(o + 1, ss));
    QuotRem(o, ss);
    if Rem(o, ss) < ss - 1 {
      QuotRemOf(Quot(o, ss), Rem(o, ss) + 1, ss);
    } else {
      NextStretch(Quot(o, ss), ss);
      QuotRemOf(Quot(o, ss) + 1, 0, ss);
    }
  }

  lemma NextStretch(q: nat, l: nat)
    ensures Times(q + 1, l) == Times(q, l) + l
  {
  }

  /** One round of the copy loop of fat_saveClusterRecord12. */
  method SaveCopy(cache: SectorCache.Cache, b: Bpb, n: nat, c: nat, v: nat) returns (ret: int)
    requires cache.Valid() && OnDisk12(b, cache.flat) && cache.sectorSize == b.sectorSize && n < b.fatCount && InTable(b, c)
    modifies cache.Repr()
    ensures cache.Valid() && ret >= 0 && cache.flat == WithRecord(b, old(cache.flat), n, c, v)
  {
    hide SectorCache.Cache.Valid, Times, Quot, Rem, FatByte, RecordOffset, Part1, Part2;
    var ss := b.sectorSize;
    var recordOffset := RecordOffset(c);
    var odd := c % 2 == 1;
    ghost var f := cache.flat;
    TwoBytes(b, f, n, recordOffset);
    var fatSector := b.partStart + b.resSectors + Times(n, b.fatSize) + Quot(recordOffset, ss);
    var at := Rem(recordOffset, ss);
    var p := cache.ReadSector(fatSector);
    var sec := cache.sectorBuf[p];
    if ss - at > 1 {
      ret := cache.Store(p, fatSector, PutByte(PutByte(sec, at, Part1(sec[at], v, odd)), at + 1, Part2(sec[at + 1], v, odd)));
    } else {
      ret := cache.Store(p, fatSector, PutByte(sec, at, Part1(sec[at], v, odd)));
      fatSector := fatSector + 1;
      p := cache.ReadSector(fatSector);
      sec := cache.sectorBuf[p];
      ret := cache.Store(p, fatSector, PutByte(sec, 0, Part2(sec[0], v, odd)));
    }
  }

  /** fat_saveClusterRecord12. */
  method SaveClusterRecord12(cache: SectorCache.Cache, b: Bpb, c: nat, v: nat) returns (ret: int)
    requires cache.Valid() && OnDisk12(b, cache.flat) && cache.sectorSize == b.sectorSize && InTable(b, c)
    modifies cache.Repr()
    ensures cache.Valid() && ret >= 0 && OnDisk12(b, cache.flat) && SameOutsideFat(b, old(cache.flat), cache.flat)
    ensures forall m, d :: 0 <= m < b.fatCount && InTable(b, d) ==>
              Record12(b, cache.flat, m, d) == if d == c then v % 4096 else old(Record12(b, cache.flat, m, d))
  {
    hide SectorCache.Cache.Valid, Times, Quot, Rem, FatByte, Record12, WithRecord, InTable;
    ret := -1;
    ghost var f := cache.flat;
    for n := 0 to b.fatCount
      invariant cache.Valid() && (n > 0 ==> ret >= 0)
      invariant cache.flat == Saved12(b, f, c, v, n)
    {
      ret := SaveCopy(cache, b, n, c, v);
    }
    forall m, d | 0 <= m < b.fatCount && InTable(b, d)
      ensures Record12(b, cache.flat, m, d) == if d == c then v % 4096 else Record12(b, f, m, d)
    {
      Saved12Reads(b, f, c, v, b.fatCount, m, d);
    }
  }

  /** The lookup of fat_getClusterChain12 for one cluster, with nothing read before: a record
      that straddles two sectors is put together in a buffer of four bytes. */
  method LookUp12(cache: SectorCache.Cache, b: Bpb, c: nat) returns (v: nat)
    requires cache.Valid() && OnDisk12(b, cache.flat) && cache.sectorSize == b.sectorSize && InTable(b, c)
    modifies cache.Repr()
    ensures cache.Valid() && cache.flat == old(cache.flat) && v == Record12(b, cache.flat, 0, c)
  {
    hide SectorCache.Cache.Valid, Times, Quot, Rem, FatByte, RecordOffset;
    var ss := b.sectorSize;
    var recordOffset := RecordOffset(c);
    TwoBytes(b, cache.flat, 0, recordOffset);
    StartOfFat(b);
    var fatSector := Quot(recordOffset, ss);
    var at := Rem(recordOffset, ss);
    var p := cache.ReadSector(b.partStart + b.resSectors + fatSector);
    if at == ss - 1 {
      var x0, x1 := cache.sectorBuf[p][ss - 2], cache.sectorBuf[p][ss - 1];
      p := cache.ReadSector(b.partStart + b.resSectors + fatSector + 1);
      var xbuf := [x0, x1, cache.sectorBuf[p][0], cache.sectorBuf[p][1]];
      v := Unpack(xbuf[at - (ss - 2)], xbuf[at - (ss - 2) + 1], c % 2 == 1);
    } else {
      v := Unpack(cache.sectorBuf[p][at], cache.sectorBuf[p][at + 1], c % 2 == 1);
    }
  }

  lemma StartOfFat(b: Bpb)
    ensures b.FatStart(0) == b.partStart + b.resSectors
  {
  }
}
