/** Long-name directory entries, as written by createDirentry and read by fat_getDirentry
    (iop/usb_mass/fat_write.c, fat_driver.c; Microsoft FAT32 File System Specification v1.03,
    "FAT Long Directory Entries"). */
module LongNames {
  import opened Arith
  import opened Bytes
  import opened FatRecords

  const ENTRY := 32
  const UNITS := 13
  const FAT_MAX_NAME := 128

  /** The 26 bytes of the three name fields of a long-name entry. */
  function NameField(e: seq<Byte>): (f: seq<Byte>)
    requires |e| == ENTRY
    ensures |f| == 2 * UNITS
  {
    e[1..11] + e[14..26] + e[28..32]
  }

  /** f are the bytes of part `part` of the name: each character with a zero byte behind it, then,
      if there is room, a zero character, then 0xFF. */
  ghost predicate Spells(f: seq<Byte>, name: seq<Byte>, part: nat) {
    && |f| == 26 && 13 * part < |name|
    && var m := if |name| - 13 * part < 13 then |name| - 13 * part else 13;
    && (forall i :: 0 <= i < m ==> f[2 * i] == name[13 * part + i] && f[2 * i + 1] == 0)
    && (m < 13 ==> f[2 * m] == 0 && f[2 * m + 1] == 0)
    && (forall j :: 2 * m + 2 <= j < 26 ==> f[j] == 0xFF)
  }

  /** A name the file functions accept. */
  ghost predicate GoodName(name: seq<Byte>) {
    1 <= |name| < FAT_MAX_NAME && forall i :: 0 <= i < |name| ==> name[i] != 0
  }

  /** getDirentrySize: number of long-name entries. */
  function Parts(name: seq<Byte>): (n: nat)
    ensures UNITS * n >= |name| && (|name| > 0 ==> UNITS * (n - 1) < |name|)
  {
    |name| / UNITS + if |name| % UNITS > 0 then 1 else 0
  }

  /** The fields of a long-name entry that the reader looks at, as the writer sets them. */
  ghost predicate IsLfn(e: seq<Byte>, name: seq<Byte>, part: nat, maxPart: nat, chsum: Byte) {
    && |e| == ENTRY
    && e[0] as int == part + 1 + (if part == maxPart then 64 else 0)
    && e[11] == 0x0F && e[12] == 0 && e[13] == chsum && e[26] == e[27] == 0
    && Spells(e[1..11] + e[14..26] + e[28..32], name, part)
  }

  /** Entry j of a buffer. */
  function EntryOf(b: seq<Byte>, j: nat): seq<Byte>
    requires ENTRY * j + ENTRY <= |b|
  {
    b[ENTRY * j..ENTRY * j + ENTRY]
  }

  /** Only entry j of the buffer may differ. */
  ghost predicate OnlyEntry(b: seq<Byte>, c: seq<Byte>, j: nat) {
    |b| == |c| && forall k :: 0 <= k < |b| && !(ENTRY * j <= k < ENTRY * j + ENTRY) ==> c[k] == b[k]
  }

  lemma LastFlag(part: nat, maxPart: nat)
    requires part <= maxPart
    ensures (if maxPart == 0 then 1 else part / maxPart) == if part == maxPart then 1 else 0
  {
  }

  lemma EntryBytes(b: seq<Byte>, j: nat)
    requires ENTRY * j + ENTRY <= |b|
    ensures |EntryOf(b, j)| == ENTRY && forall k :: 0 <= k < ENTRY ==> EntryOf(b, j)[k] == b[ENTRY * j + k]
  {
  }

  lemma OtherEntry(b: seq<Byte>, c: seq<Byte>, j: nat, i: nat)
    requires OnlyEntry(b, c, j) && i != j && ENTRY * i + ENTRY <= |b|
    ensures EntryOf(c, i) == EntryOf(b, i)
  {
  }

  /** setLfnEntry: fill one entry of the buffer. */
  method SetLfnEntry(lname: seq<Byte>, chsum: Byte, buffer: array<Byte>, part: nat, maxPart: nat)
    requires GoodName(lname) && part <= maxPart == Parts(lname) - 1 && ENTRY * (maxPart + 1) <= buffer.Length
    modifies buffer
    ensures IsLfn(EntryOf(buffer[..], maxPart - part), lname, part, maxPart, chsum)
    ensures OnlyEntry(old(buffer[..]), buffer[..], maxPart - part)
  {
    hide Spells, Parts, EntryOf;
    var offset := ENTRY * (maxPart - part);
    var name := NameUnits(lname, part);
    var i := if maxPart == 0 then 1 else part / maxPart;
    LastFlag(part, maxPart);
    SetLfnFixed(buffer, offset, part + 1 + i * 64, chsum);
    SetLfnName(buffer, offset, name);
    ghost var e := EntryOf(buffer[..], maxPart - part);
    EntryBytes(buffer[..], maxPart - part);
    assert e[1..11] == name[..10] && e[14..26] == name[10..22] && e[28..32] == name[22..];
    assert name[..10] + name[10..22] + name[22..] == name[..];
  }

  /** The three name fields of an entry. */
  method SetLfnName(buffer: array<Byte>, o: nat, name: array<Byte>)
    requires o + ENTRY <= buffer.Length && name.Length == 26 && buffer != name
    modifies buffer
    ensures buffer[o + 1..o + 11] == name[..10] && buffer[o + 14..o + 26] == name[10..22] && buffer[o + 28..o + 32] == name[22..]
    ensures forall k :: 0 <= k < buffer.Length && !(o + 1 <= k < o + 11) && !(o + 14 <= k < o + 26) && !(o + 28 <= k < o + 32) ==>
              buffer[k] == old(buffer[k])
  {
    CopyField(buffer, o + 1, name, 0, 10);
    CopyField(buffer, o + 14, name, 10, 12);
    CopyField(buffer, o + 28, name, 22, 4);
  }

  method SetLfnFixed(buffer: array<Byte>, o: nat, seqno: Byte, chsum: Byte)
    requires o + ENTRY <= buffer.Length
    modifies buffer
    ensures buffer[o] == seqno && buffer[o + 11] == 0x0F && buffer[o + 12] == 0 && buffer[o + 13] == chsum
    ensures buffer[o + 26] == 0 && buffer[o + 27] == 0
    ensures forall k :: 0 <= k < buffer.Length && !(o <= k < o + ENTRY) ==> buffer[k] == old(buffer[k])
  {
    buffer[o], buffer[o + 13] := seqno, chsum;
    buffer[o + 11], buffer[o + 12], buffer[o + 26], buffer[o + 27] := 0x0F, 0, 0, 0;
  }

  /** The unicode buffer: characters, terminator and padding. */
  method NameUnits(lname: seq<Byte>, part: nat) returns (name: array<Byte>)
    requires UNITS * part < |lname|
    ensures fresh(name) && name.Length == 26 && Spells(name[..], lname, part)
  {
    name := new Byte[26](_ => 0);
    var nameStart := UNITS * part;
    var j := |lname| - nameStart;
    if j > UNITS {
      j := UNITS;
    }
    for i := 0 to j
      invariant forall u :: 0 <= u < i ==> name[2 * u] == lname[nameStart + u] && name[2 * u + 1] == 0
    {
      name[i * 2] := lname[nameStart + i];
      name[i * 2 + 1] := 0;
    }
    for i := j to UNITS
      invariant forall u :: 0 <= u < j ==> name[2 * u] == lname[nameStart + u] && name[2 * u + 1] == 0
      invariant i > j ==> name[2 * j] == 0 && name[2 * j + 1] == 0
      invariant forall k :: 2 * j + 2 <= k < 2 * i ==> name[k] == 0xFF
    {
      if i == j {
        name[i * 2], name[i * 2 + 1] := 0, 0;
      } else {
        name[i * 2], name[i * 2 + 1] := 0xFF, 0xFF;
      }
    }
  }

  method CopyField(buffer: array<Byte>, at: nat, name: array<Byte>, from: nat, n: nat)
    requires at + n <= buffer.Length && from + n <= name.Length && buffer != name
    modifies buffer
    ensures forall k :: 0 <= k < buffer.Length ==> buffer[k] == if at <= k < at + n then name[from + k - at] else old(buffer[k])
  {
    for i := 0 to n
      invariant forall k :: 0 <= k < buffer.Length ==> buffer[k] == if at <= k < at + i then name[from + k - at] else old(buffer[k])
    {
      buffer[at + i] := name[from + i];
    }
  }

  /** The fields of a short-name entry that the reader looks at, as the writer sets them. */
  ghost predicate IsSfn(e: seq<Byte>, sname: seq<Byte>, directory: bool, cluster: nat) {
    && |e| == ENTRY && |sname| == 11 && e[..11] == sname
    && e[11] == (if directory then 16 else 32)
    && Le32(e[26], e[27], e[20], e[21]) == cluster
    && e[28] == e[29] == e[30] == e[31] == 0
  }

  /** setSfnEntry, with the bytes of the clock. */
  method SetSfnEntry(sname: seq<Byte>, directory: bool, buffer: array<Byte>, j: nat, cluster: nat, clock: seq<Byte>)
    requires |sname| == 11 && ENTRY * j + ENTRY <= buffer.Length && cluster < 0x1_0000_0000 && |clock| == 4
    modifies buffer
    ensures IsSfn(EntryOf(buffer[..], j), sname, directory, cluster)
    ensures OnlyEntry(old(buffer[..]), buffer[..], j)
  {
    hide Le32;
    var o := ENTRY * j;
    for i := 0 to 11
      invariant forall k :: 0 <= k < buffer.Length ==> buffer[k] == if o <= k < o + i then sname[k - o] else old(buffer[k])
    {
      buffer[o + i] := sname[i];
    }
    assert forall k :: 0 <= k < 11 ==> buffer[o + k] == sname[k];
    SetSfnRest(buffer, o, directory, cluster);
    SetSfnDate(buffer, o, clock);
    FourBytes(cluster);
    assert EntryOf(buffer[..], j)[..11] == sname;
  }

  method SetSfnRest(buffer: array<Byte>, o: nat, directory: bool, cluster: nat)
    requires o + ENTRY <= buffer.Length
    modifies buffer
    ensures buffer[o + 11] == if directory then 16 else 32
    ensures buffer[o + 20] == cluster / 0x10000 % 256 && buffer[o + 21] == cluster / 0x1000000 % 256
    ensures buffer[o + 26] == cluster % 256 && buffer[o + 27] == cluster / 0x100 % 256
    ensures buffer[o + 28] == buffer[o + 29] == buffer[o + 30] == buffer[o + 31] == 0
    ensures forall k :: 0 <= k < buffer.Length && !(o + 11 <= k < o + ENTRY) ==> buffer[k] == old(buffer[k])
  {
    buffer[o + 11], buffer[o + 12] := if directory then 16 else 32, 0;
    buffer[o + 20], buffer[o + 21] := cluster / 0x10000 % 256, cluster / 0x1000000 % 256;
    buffer[o + 26], buffer[o + 27] := cluster % 256, cluster / 0x100 % 256;
    buffer[o + 28], buffer[o + 29], buffer[o + 30], buffer[o + 31] := 0, 0, 0, 0;
  }

  /** setSfnDate for a new entry. */
  method SetSfnDate(buffer: array<Byte>, o: nat, clock: seq<Byte>)
    requires o + ENTRY <= buffer.Length && |clock| == 4
    modifies buffer
    ensures forall k :: 0 <= k < buffer.Length && !(o + 14 <= k < o + 20) && !(o + 22 <= k < o + 26) ==>
              buffer[k] == old(buffer[k])
    ensures buffer[o + 22..o + 26] == clock
  {
    buffer[o + 14], buffer[o + 15], buffer[o + 16], buffer[o + 17] := clock[0], clock[1], clock[2], clock[3];
    buffer[o + 18], buffer[o + 19] := clock[2], clock[3];
    buffer[o + 22], buffer[o + 23], buffer[o + 24], buffer[o + 25] := clock[0], clock[1], clock[2], clock[3];
  }

  lemma FourBytes(v: nat)
    requires v < 0x1_0000_0000
    ensures Le32(v % 256, v / 0x100 % 256, v / 0x10000 % 256, v / 0x1000000 % 256) == v
  {
  }

  /** The checksum of the first n bytes: rotate right by one bit, add the next byte. */
  function Checksum(sname: seq<Byte>, n: nat): Byte
    requires n <= |sname|
  {
    if n == 0 then 0
    else (Rotated(Checksum(sname, n - 1)) as int + sname[n - 1] as int) % 256
  }

  /** A byte rotated right by one bit. */
  function Rotated(c: Byte): Byte {
    0x80 * (c % 2) + c / 2
  }

  /** The checksum starts at 0; before each byte is added, the lowest bit moves to the top and the
      others down by one. */
  lemma ChecksumIs(sname: seq<Byte>, n: nat)
    requires n < |sname|
    ensures var c, r := Checksum(sname, n), Rotated(Checksum(sname, n));
      && Checksum(sname, 0) == 0 && Checksum(sname, n + 1) == (r + sname[n]) % 256
      && r / 128 == c % 2 && r % 128 == c / 2
  {
    var c := Checksum(sname, n);
    var low: nat := c as int / 2;
    DivModOf(c as int % 2, low, 128);
  }

  lemma RotatedDiffers(c: Byte, d: Byte)
    requires c != d
    ensures Rotated(c) != Rotated(d)
  {
    assert c as int == 2 * (c as int / 2) + c as int % 2 && d as int == 2 * (d as int / 2) + d as int % 2;
  }

  lemma SumDiffers(x: nat, y: nat, c: nat)
    requires x < 256 && y < 256 && c < 256 && x != y
    ensures (x + c) % 256 != (y + c) % 256
  {
  }

  /** The checksum tells any two names apart that differ in one byte: rotating and adding lose
      nothing. */
  lemma {:induction false} ChecksumDetects(x: seq<Byte>, y: seq<Byte>, n: nat, i: nat)
    requires |x| == |y| && i < n <= |x| && x[i] != y[i] && forall j :: 0 <= j < n && j != i ==> x[j] == y[j]
    ensures Checksum(x, n) != Checksum(y, n)
  {
    hide Rotated;
    if i == n - 1 {
      ChecksumLocal(x, y, i);
      SumDiffers(x[i], y[i], Rotated(Checksum(x, i)));
    } else {
      ChecksumDetects(x, y, n - 1, i);
      RotatedDiffers(Checksum(x, n - 1), Checksum(y, n - 1));
      SumDiffers(Rotated(Checksum(x, n - 1)), Rotated(Checksum(y, n - 1)), x[n - 1]);
    }
  }

  lemma {:induction false} ChecksumLocal(x: seq<Byte>, y: seq<Byte>, n: nat)
    requires n <= |x| && n <= |y| && forall j :: 0 <= j < n ==> x[j] == y[j]
    ensures Checksum(x, n) == Checksum(y, n)
  {
    if n > 0 {
      ChecksumLocal(x, y, n - 1);
    }
  }

  /** computeNameChecksum. */
  method NameChecksum(sname: seq<Byte>) returns (result: Byte)
    requires |sname| == 11
    ensures result == Checksum(sname, 11)
  {
    result := 0;
    for i := 0 to 11
      invariant result == Checksum(sname, i)
    {
      result := 0x80 * (result % 2) + result / 2;
      result := (result as int + sname[i] as int) % 256;
    }
  }

  /** createDirentry: the long-name entries, last part first, and the short-name entry. */
  method CreateDirentry(lname: seq<Byte>, sname: seq<Byte>, directory: bool, cluster: nat, buffer: array<Byte>,
                        clock: seq<Byte>)
    returns (n: nat, ghost chsum: Byte)
    requires GoodName(lname) && |sname| == 11 && cluster < 0x1_0000_0000 && |clock| == 4
    requires ENTRY * (Parts(lname) + 1) <= buffer.Length
    modifies buffer
    ensures n == Parts(lname) + 1 && chsum == Checksum(sname, 11)
    ensures forall i :: 0 <= i < n - 1 ==> IsLfn(EntryOf(buffer[..], i), lname, n - 2 - i, n - 2, chsum)
    ensures IsSfn(EntryOf(buffer[..], n - 1), sname, directory, cluster)
    ensures forall k :: ENTRY * n <= k < buffer.Length ==> buffer[k] == old(buffer[k])
  {
    hide IsLfn, IsSfn, EntryOf;
    var lsize := Parts(lname) - 1;
    var sum := NameChecksum(sname);
    chsum := sum;
    for i := 0 to lsize + 1
      invariant forall j :: 0 <= j < i ==> IsLfn(EntryOf(buffer[..], j), lname, lsize - j, lsize, sum)
      invariant forall k :: ENTRY * i <= k < buffer.Length ==> buffer[k] == old(buffer[k])
    {
      ghost var before := buffer[..];
      SetLfnEntry(lname, sum, buffer, lsize - i, lsize);
      forall j | 0 <= j < i
        ensures EntryOf(buffer[..], j) == EntryOf(before, j)
      {
        OtherEntry(before, buffer[..], i, j);
      }
    }
    ghost var before := buffer[..];
    SetSfnEntry(sname, directory, buffer, lsize + 1, cluster, clock);
    forall j | 0 <= j <= lsize
      ensures EntryOf(buffer[..], j) == EntryOf(before, j)
    {
      OtherEntry(before, buffer[..], lsize + 1, j);
    }
    n := lsize + 2;
  }

  // ----- reading entries -----

  /** What fat_getDirentry fills in. */
  class Direntry {
    var attr: Byte
    var size: nat
    var cluster: nat
    const name: array<Byte>
    const sname: array<Byte>

    ghost predicate Valid() {
      name.Length == FAT_MAX_NAME && sname.Length == 13 && name != sname
    }

    constructor ()
      ensures Valid() && fresh(name) && fresh(sname) && name[0] == 0
    {
      attr, size, cluster := 0, 0, 0;
      name := new Byte[FAT_MAX_NAME](_ => 0);
      sname := new Byte[13](_ => 0);
    }
  }

  predicate ZeroUnit(e: seq<Byte>, i: nat)
    requires |e| == ENTRY && i < UNITS
  {
    NameField(e)[2 * i] == 0 && NameField(e)[2 * i + 1] == 0
  }

  /** A long-name entry holds n characters before its terminator or its end. */
  ghost predicate HoldsChars(e: seq<Byte>, n: nat) {
    && |e| == ENTRY && n <= UNITS
    && (forall i :: 0 <= i < n ==> !ZeroUnit(e, i)) && (n < UNITS ==> ZeroUnit(e, n))
  }

  /** After i of the characters of e, of which n count, have been copied to base. */
  ghost predicate Copied(e: seq<Byte>, n: nat, base: nat, i: nat, offset: nat, cont: bool, was: seq<Byte>, now: seq<Byte>) {
    && HoldsChars(e, n) && |was| == |now| == FAT_MAX_NAME && base + n < FAT_MAX_NAME && i <= UNITS
    && (if cont then i <= n && offset == base + i else n < i && offset == base + n && now[offset] == 0)
    && (forall k :: base <= k < offset ==> now[k] == NameField(e)[2 * (k - base)])
    && (forall k :: 0 <= k < |now| && !(base <= k < offset) && (cont || k != offset) ==> now[k] == was[k])
  }

  /** One of the three loops over the name fields of an entry: characters i0 to i1, at byte `at`. */
  method CopyUnits(e: seq<Byte>, at: nat, i0: nat, i1: nat, dir: Direntry, offset0: nat, cont0: bool, ghost n: nat, ghost base: nat,
                   ghost was: seq<Byte>)
    returns (offset: nat, cont: bool)
    requires dir.Valid() && i0 <= i1 <= UNITS && Copied(e, n, base, i0, offset0, cont0, was, dir.name[..])
    requires at + 2 * (i1 - i0) <= ENTRY && NameField(e)[2 * i0..2 * i1] == e[at..at + 2 * (i1 - i0)]
    modifies dir.name
    ensures Copied(e, n, base, i1, offset, cont, was, dir.name[..])
  {
    hide NameField;
    offset, cont := offset0, cont0;
    var i := i0;
    while i < i1 && cont
      invariant i0 <= i <= i1
      invariant Copied(e, n, base, if cont then i else i1, offset, cont, was, dir.name[..])
      decreases i1 - i, cont
    {
      FieldAt(e, at, i0, i1, i);
      if e[at + 2 * (i - i0)] == 0 && e[at + 2 * (i - i0) + 1] == 0 {
        assert ZeroUnit(e, i);
        dir.name[offset] := 0;
        cont := false;
      } else {
        assert !ZeroUnit(e, i);
        dir.name[offset] := e[at + 2 * (i - i0)];
        offset := offset + 1;
        i := i + 1;
      }
    }
  }

  lemma FieldAt(e: seq<Byte>, at: nat, i0: nat, i1: nat, i: nat)
    requires |e| == ENTRY && i0 <= i < i1 <= UNITS && at + 2 * (i1 - i0) <= ENTRY
    requires NameField(e)[2 * i0..2 * i1] == e[at..at + 2 * (i1 - i0)]
    ensures NameField(e)[2 * i] == e[at + 2 * (i - i0)] && NameField(e)[2 * i + 1] == e[at + 2 * (i - i0) + 1]
  {
    hide NameField;
    var f, g := NameField(e)[2 * i0..2 * i1], e[at..at + 2 * (i1 - i0)];
    assert f[2 * (i - i0)] == g[2 * (i - i0)] && f[2 * (i - i0) + 1] == g[2 * (i - i0) + 1];
  }

  lemma Fields(e: seq<Byte>)
    requires |e| == ENTRY
    ensures NameField(e)[0..10] == e[1..11] && NameField(e)[10..22] == e[14..26] && NameField(e)[22..26] == e[28..32]
  {
  }

  /** The long-name branch: the characters land at their place, followed by a terminator when
      the entry holds one or is marked as the last. */
  method ReadLfn(e: seq<Byte>, dir: Direntry, ghost n: nat)
    requires HoldsChars(e, n) && dir.Valid() && e[0] % 64 >= 1 && Base(e) + n < FAT_MAX_NAME
    modifies dir.name
    ensures NameRead(e, n, old(dir.name[..]), dir.name[..])
  {
    hide NameField;
    Fields(e);
    var offset := UNITS * (e[0] as int % 64 - 1);
    ghost var base: nat := offset;
    ghost var was := dir.name[..];
    var cont := true;
    offset, cont := CopyUnits(e, 1, 0, 5, dir, offset, cont, n, base, was);
    offset, cont := CopyUnits(e, 14, 5, 11, dir, offset, cont, n, base, was);
    offset, cont := CopyUnits(e, 28, 11, 13, dir, offset, cont, n, base, was);
    if e[0] as int / 64 % 2 == 1 {
      dir.name[offset] := 0;
    }
  }

  /** The name buffer after entry e, which holds n characters, has been read into it. */
  ghost predicate NameRead(e: seq<Byte>, n: nat, was: seq<Byte>, now: seq<Byte>) {
    && |e| == ENTRY && n <= UNITS && |was| == |now| == FAT_MAX_NAME && e[0] % 64 >= 1
    && Base(e) + n < FAT_MAX_NAME
    && (forall k :: Base(e) <= k < Base(e) + n ==> now[k] == NameField(e)[2 * (k - Base(e))])
    && now[Base(e) + n] == (if n < UNITS || e[0] as int / 64 % 2 == 1 then 0 else was[Base(e) + n])
    && (forall k :: 0 <= k < |now| && !(Base(e) <= k <= Base(e) + n) ==> now[k] == was[k])
  }

  /** Where the characters of a long-name entry go: its number is in the low six bits. */
  function Base(e: seq<Byte>): nat
    requires |e| == ENTRY && e[0] % 64 >= 1
  {
    UNITS * (e[0] as int % 64 - 1)
  }

  /** The long-name branch stores at place k of the name buffer, if e holds n characters. */
  predicate StoresAt(e: seq<Byte>, n: nat, k: int)
    requires |e| == ENTRY
  {
    var offset := UNITS * (e[0] as int % 64 - 1);
    offset <= k < offset + n || (k == offset + n && (n < UNITS || e[0] as int / 64 % 2 == 1))
  }

  /** Nothing is checked: the stores stay inside the buffer exactly for the entries that ReadLfn
      is about. An entry numbered 0, or beyond the tenth part, is stored outside it. */
  lemma InsideExactly(e: seq<Byte>, n: nat)
    requires |e| == ENTRY && n <= UNITS
    ensures (forall k :: StoresAt(e, n, k) ==> 0 <= k < FAT_MAX_NAME) <==> e[0] % 64 >= 1 && Base(e) + n < FAT_MAX_NAME
  {
    var offset := UNITS * (e[0] as int % 64 - 1);
    if forall k :: StoresAt(e, n, k) ==> 0 <= k < FAT_MAX_NAME {
      assert StoresAt(e, n, if n > 0 then offset else offset + n);
      assert n > 0 ==> StoresAt(e, n, offset + n - 1);
      assert n < UNITS ==> StoresAt(e, n, offset + n);
    }
  }

  // ----- the short-name branch -----

  /** Bytes before the first space. */
  function Trimmed(s: seq<Byte>): (r: seq<Byte>)
    ensures |r| <= |s| && r <= s
  {
    if s == [] || s[0] == 32 then [] else [s[0]] + Trimmed(s[1..])
  }

  /** The dotted form of an 8.3 name. */
  function ShortText(e: seq<Byte>): (r: seq<Byte>)
    requires |e| == ENTRY
    ensures |r| <= 12
  {
    var ext := Trimmed(e[8..11]);
    Trimmed(e[..8]) + (if ext == [] then [] else [46] + ext)
  }

  lemma {:induction false} TrimmedStep(s: seq<Byte>, i: nat)
    requires i <= |s| && Trimmed(s) == s[..i] + Trimmed(s[i..])
    ensures i == |s| || s[i] == 32 ==> Trimmed(s) == s[..i]
    ensures i < |s| && s[i] != 32 ==> Trimmed(s) == s[..i + 1] + Trimmed(s[i + 1..])
  {
    var r := s[i..];
    if i < |s| && s[i] != 32 {
      var t := Trimmed(s[i + 1..]);
      assert r[1..] == s[i + 1..];
      assert Trimmed(r) == [s[i]] + t;
      assert s[..i] + ([s[i]] + t) == s[..i] + [s[i]] + t && s[..i] + [s[i]] == s[..i + 1];
    } else {
      assert Trimmed(r) == [];
    }
  }

  /** The loop over the eight bytes of the name. */
  method CopyBase(e: seq<Byte>, dir: Direntry) returns (i: nat)
    requires |e| == ENTRY && dir.Valid()
    modifies dir.sname
    ensures i == |Trimmed(e[..8])| && dir.sname[..i] == Trimmed(e[..8])
  {
    hide Trimmed;
    ghost var base := e[..8];
    i := 0;
    assert base[..0] == [] && base[0..] == base;
    while i < 8 && e[i] != 32
      invariant 0 <= i <= 8 && dir.sname[..i] == base[..i] && Trimmed(base) == base[..i] + Trimmed(base[i..])
    {
      TrimmedStep(base, i);
      dir.sname[i] := e[i];
      i := i + 1;
    }
    TrimmedStep(base, i);
  }

  lemma OneMore(s: seq<Byte>, m: nat, x: Byte)
    requires m < |s|
    ensures s[m := x][..m + 1] == s[..m] + [x]
  {
  }

  /** An extension with its dot. */
  function Dotted(ext: seq<Byte>): seq<Byte> {
    if ext == [] then [] else [46] + ext
  }

  lemma DottedStep(ext: seq<Byte>, j: nat)
    requires j < |ext|
    ensures Dotted(ext[..j + 1]) == (if j == 0 then [46] else Dotted(ext[..j])) + [ext[j]]
  {
    assert ext[..j + 1] == ext[..j] + [ext[j]];
  }

  lemma FrontAndBack(s: seq<Byte>, n: nat, m: nat, a: seq<Byte>, b: seq<Byte>)
    requires n <= m <= |s| && s[..m] == a + b && |a| == n
    ensures s[..n] == a && s[n..m] == b
  {
    assert s[..n] == s[..m][..n] && s[n..m] == s[..m][n..];
  }

  /** The loop over the three bytes of the extension, behind a dot. */
  method CopyExtension(e: seq<Byte>, dir: Direntry, n: nat) returns (end: nat)
    requires |e| == ENTRY && dir.Valid() && n <= 8
    modifies dir.sname
    ensures var ext := Trimmed(e[8..11]); var tail := if ext == [] then [] else [46] + ext;
      && end == n + |tail| <= 12 && dir.sname[..n] == old(dir.sname[..n]) && dir.sname[n..end] == tail
  {
    hide Trimmed;
    ghost var ext, was := e[8..11], dir.sname[..n];
    var i, j := n, 0;
    assert ext[..0] == [] && ext[0..] == ext;
    while j < 3 && e[8 + j] != 32
      invariant 0 <= j <= 3 && Trimmed(ext) == ext[..j] + Trimmed(ext[j..])
      invariant i == if j == 0 then n else n + 1
      invariant dir.sname[..i + j] == was + Dotted(ext[..j])
    {
      TrimmedStep(ext, j);
      DottedStep(ext, j);
      if j == 0 {
        OneMore(dir.sname[..], i, 46);
        dir.sname[i] := 46;
        i := i + 1;
      }
      OneMore(dir.sname[..], i + j, e[8 + j]);
      dir.sname[i + j] := e[8 + j];
      j := j + 1;
    }
    TrimmedStep(ext, j);
    end := i + j;
    FrontAndBack(dir.sname[..], n, end, was, Dotted(Trimmed(ext)));
  }

  /** The dotted short name. */
  method CopyShort(e: seq<Byte>, dir: Direntry)
    requires |e| == ENTRY && dir.Valid()
    modifies dir.sname
    ensures HoldsText(dir.sname[..], ShortText(e))
  {
    hide Trimmed;
    var i := CopyBase(e, dir);
    var end := CopyExtension(e, dir, i);
    assert dir.sname[..end] == dir.sname[..i] + dir.sname[i..end];
    ghost var t := dir.sname[..end];
    dir.sname[end] := 0;
    assert dir.sname[..][..end] == t;
  }

  /** The name buffer holds the string t. */
  ghost predicate HoldsText(b: seq<Byte>, t: seq<Byte>) {
    |t| < |b| && b[..|t|] == t && b[|t|] == 0
  }

  /** fat_getDirentry: 0 no more entries, 1 short name, 2 long name, 3 deleted. */
  method GetDirentry(e: seq<Byte>, dir: Direntry, ghost n: nat) returns (kind: nat)
    requires |e| == ENTRY && dir.Valid()
    requires Kind(e) == 2 ==> HoldsChars(e, n) && e[0] % 64 >= 1 && Base(e) + n < FAT_MAX_NAME
    modifies dir, dir.name, dir.sname
    ensures kind == Kind(e)
    ensures kind == 0 || kind == 3 ==> dir.name[..] == old(dir.name[..])
    ensures kind == 2 ==> NameRead(e, n, old(dir.name[..]), dir.name[..])
    ensures kind == 1 ==> dir.attr == e[11] && dir.size == Le32(e[28], e[29], e[30], e[31])
                          && dir.cluster == Le32(e[26], e[27], e[20], e[21]) && HoldsText(dir.sname[..], ShortText(e))
    ensures kind == 1 && old(dir.name[0]) != 0 ==> dir.name[..] == old(dir.name[..])
    ensures kind == 1 && old(dir.name[0]) == 0 && 0 !in ShortText(e) ==> HoldsText(dir.name[..], ShortText(e))
  {
    hide HoldsChars, ShortText, Le32;
    if e[0] == 0 && e[1] == 0 {
      return 0;
    }
    if e[0] == 0xE5 {
      return 3;
    }
    if e[11] == 0x0F && e[12] == 0 && e[26] == 0 {
      ReadLfn(e, dir, n);
      return 2;
    }
    CopyShort(e, dir);
    if dir.name[0] == 0 {
      CopyName(dir, ShortText(e));
    }
    dir.attr := e[11];
    dir.size := Le32(e[28], e[29], e[30], e[31]);
    dir.cluster := Le32(e[26], e[27], e[20], e[21]);
    kind := 1;
  }

  predicate Kind0(e: seq<Byte>)
    requires |e| == ENTRY
  {
    e[0] == 0 && e[1] == 0
  }

  function Kind(e: seq<Byte>): nat
    requires |e| == ENTRY
  {
    if Kind0(e) then 0 else if e[0] == 0xE5 then 3 else if e[11] == 0x0F && e[12] == 0 && e[26] == 0 then 2 else 1
  }

  /** A file without a long name is shown under its short one. */
  method CopyName(dir: Direntry, ghost t: seq<Byte>)
    requires dir.Valid() && HoldsText(dir.sname[..], t) && |t| <= 12
    modifies dir.name
    ensures dir.sname[..] == old(dir.sname[..]) && (0 !in t ==> HoldsText(dir.name[..], t))
  {
    var i := 0;
    while dir.sname[i] != 0
      invariant 0 <= i <= |t| && dir.name[..i] == t[..i]
      decreases |t| - i
    {
      assert dir.sname[..][i] == dir.sname[i] && (i < |t| ==> dir.sname[..][..|t|][i] == t[i]);
      dir.name[i] := dir.sname[i];
      i := i + 1;
    }
    assert dir.sname[..][..|t|] == t;
    assert i < |t| ==> t[i] == dir.sname[i] && t[i] in t;
    ghost var copied := dir.name[..i];
    dir.name[i] := 0;
    assert dir.name[..][..i] == copied == t[..i];
  }

  // ----- the round trip -----

  /** The part of the name from part p on has been read, with its terminator. */
  ghost predicate ReadFrom(name: seq<Byte>, p: nat, b: seq<Byte>) {
    && |name| < |b| && b[|name|] == 0
    && forall k :: UNITS * p <= k < |name| ==> b[k] == name[k]
  }

  /** A written entry holds the characters of its part. */
  lemma WrittenEntry(e: seq<Byte>, name: seq<Byte>, part: nat, maxPart: nat, chsum: Byte) returns (n: nat)
    requires GoodName(name) && part <= maxPart == Parts(name) - 1 && IsLfn(e, name, part, maxPart, chsum)
    ensures n == (if part == maxPart then |name| - UNITS * part else UNITS)
    ensures Kind(e) == 2 && HoldsChars(e, n) && e[0] % 64 == part + 1 && (e[0] as int / 64 % 2 == 1 <==> part == maxPart)
    ensures Base(e) == UNITS * part && Base(e) + n < FAT_MAX_NAME
    ensures forall i :: 0 <= i < n ==> NameField(e)[2 * i] == name[UNITS * part + i]
  {
    n := if part == maxPart then |name| - UNITS * part else UNITS;
    var f := NameField(e);
    assert Spells(f, name, part);
    hide NameField;
    forall i | 0 <= i < n
      ensures !ZeroUnit(e, i) && f[2 * i] == name[UNITS * part + i]
    {
      assert name[UNITS * part + i] != 0;
    }
  }

  /** Reading the entry of part p after those of the later parts. */
  lemma ReadPart(e: seq<Byte>, name: seq<Byte>, part: nat, maxPart: nat, n: nat, was: seq<Byte>, now: seq<Byte>)
    requires GoodName(name) && part <= maxPart == Parts(name) - 1
    requires n == (if part == maxPart then |name| - UNITS * part else UNITS)
    requires NameRead(e, n, was, now) && Base(e) == UNITS * part && (e[0] as int / 64 % 2 == 1 <==> part == maxPart)
    requires forall i :: 0 <= i < n ==> NameField(e)[2 * i] == name[UNITS * part + i]
    requires part < maxPart ==> ReadFrom(name, part + 1, was)
    ensures ReadFrom(name, part, now)
  {
    hide NameField;
    forall k | UNITS * part <= k < |name|
      ensures now[k] == name[k]
    {
      if k < UNITS * part + n {
        assert NameField(e)[2 * (k - UNITS * part)] == name[UNITS * part + (k - UNITS * part)];
      } else {
        assert k == UNITS * part + n ==> now[k] == was[k];
      }
    }
  }

  /** Written entries, read in order, give back the name, the attribute, the start cluster and
      size 0: for every name of 1 to 127 bytes and every short name that does not begin with a
      mark of its own. */
  method RoundTrip(lname: seq<Byte>, sname: seq<Byte>, directory: bool, cluster: nat, buffer: array<Byte>, clock: seq<Byte>)
    returns (dir: Direntry, kinds: seq<nat>)
    requires GoodName(lname) && |sname| == 11 && sname[0] != 0 && sname[0] != 0xE5
    requires cluster < 0x1_0000_0000 && |clock| == 4 && ENTRY * (Parts(lname) + 1) <= buffer.Length
    modifies buffer
    ensures HoldsText(dir.name[..], lname)
    ensures dir.attr == (if directory then 16 else 32) && dir.cluster == cluster && dir.size == 0
    ensures kinds == seq(Parts(lname), _ => 2) + [1]
  {
    hide IsLfn, EntryOf, NameRead, Le32, ShortText, HoldsChars, Parts;
    var n, chsum := CreateDirentry(lname, sname, directory, cluster, buffer, clock);
    dir := new Direntry();
    kinds := [];
    var maxPart := n - 2;
    for i := 0 to n - 1
      invariant dir.Valid() && fresh(dir) && fresh(dir.name) && fresh(dir.sname)
      invariant kinds == seq(i, _ => 2)
      invariant i > 0 ==> ReadFrom(lname, n - 1 - i, dir.name[..])
      invariant forall j :: 0 <= j < n - 1 ==> IsLfn(EntryOf(buffer[..], j), lname, n - 2 - j, n - 2, chsum)
      invariant IsSfn(EntryOf(buffer[..], n - 1), sname, directory, cluster)
    {
      var e := buffer[ENTRY * i..ENTRY * i + ENTRY];
      EntrySlice(buffer[..], i);
      ghost var was := dir.name[..];
      ghost var len := WrittenEntry(e, lname, maxPart - i, maxPart, chsum);
      var kind := GetDirentry(e, dir, len);
      ReadPart(e, lname, maxPart - i, maxPart, len, was, dir.name[..]);
      kinds := kinds + [kind];
    }
    var e := buffer[ENTRY * (n - 1)..ENTRY * n];
    EntrySlice(buffer[..], n - 1);
    assert dir.name[..][0] == lname[0];
    WrittenShort(e, sname, directory, cluster);
    var kind := GetDirentry(e, dir, 0);
    kinds := kinds + [kind];
    assert dir.name[..][..|lname|] == lname;
  }

  lemma EntrySlice(b: seq<Byte>, j: nat)
    requires ENTRY * j + ENTRY <= |b|
    ensures b[ENTRY * j..ENTRY * j + ENTRY] == EntryOf(b, j)
  {
  }

  lemma WrittenShort(e: seq<Byte>, sname: seq<Byte>, directory: bool, cluster: nat)
    requires IsSfn(e, sname, directory, cluster) && sname[0] != 0 && sname[0] != 0xE5
    ensures Kind(e) == 1 && Le32(e[28], e[29], e[30], e[31]) == 0
  {
    assert e[..11][0] == sname[0];
  }
}
