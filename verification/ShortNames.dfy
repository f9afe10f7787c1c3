/** Numbered 8.3 names (iop/usb_mass/fat_write.c). */
module ShortNames {
  import opened Bytes
  import LongNames

  const TILDE: Byte := 126

  // ----- decimal numbers -----

  /** sprintf("%d") of a natural number. */
  function Dec(n: nat): (s: seq<Byte>)
    ensures |s| >= 1 && (forall i :: 0 <= i < |s| ==> 48 <= s[i] <= 57)
    ensures (n < 10 ==> |s| <= 1) && (n < 100 ==> |s| <= 2) && (n < 1000 ==> |s| <= 3) && (n < 10000 ==> |s| <= 4)
  {
    if n < 10 then [48 + n] else Dec(n / 10) + [48 + n % 10]
  }

  predicate IsDigit(b: Byte) {
    48 <= b <= 57
  }

  /** Value of the digits at the front. */
  function Digits(s: seq<Byte>, acc: nat): nat {
    if s == [] || !IsDigit(s[0]) then acc else Digits(s[1..], 10 * acc + (s[0] as int - 48))
  }

  predicate IsSpace(b: Byte) {
    b == 32 || 9 <= b <= 13
  }

  /** strtol in base 10: blanks, a sign, digits. */
  function Strtol(s: seq<Byte>): int {
    if s == [] then 0
    else if IsSpace(s[0]) then Strtol(s[1..])
    else if s[0] == 45 then 0 - Digits(s[1..], 0) as int
    else if s[0] == 43 then Digits(s[1..], 0)
    else Digits(s, 0)
  }

  lemma {:induction false} DigitsOf(s: seq<Byte>, t: seq<Byte>, acc: nat)
    requires forall i :: 0 <= i < |s| ==> IsDigit(s[i])
    ensures Digits(s + t, acc) == Digits(t, Digits(s, acc))
  {
    if s == [] {
      assert s + t == t;
    } else {
      assert (s + t)[0] == s[0] && (s + t)[1..] == s[1..] + t;
      DigitsOf(s[1..], t, 10 * acc + (s[0] as int - 48));
    }
  }

  /** Reading a printed number gives the number. */
  lemma {:induction false} DecReads(n: nat)
    ensures Strtol(Dec(n)) == Digits(Dec(n), 0) == n
  {
    if n < 10 {
      assert Digits([48 + n], 0) == Digits([], n);
    } else {
      DecReads(n / 10);
      var last: Byte := 48 + n % 10;
      DigitsOf(Dec(n / 10), [last], 0);
      assert Digits([last], n / 10) == Digits([], 10 * (n / 10) + n % 10);
    }
  }

  /** A sign and blanks before a number. */
  lemma SignedReads(n: nat, s: seq<Byte>)
    ensures Strtol([45] + Dec(n)) == 0 - n as int && Strtol([43] + Dec(n)) == n && Strtol([32] + s) == Strtol(s)
  {
    DecReads(n);
    assert ([45] + Dec(n))[1..] == Dec(n) && ([43] + Dec(n))[1..] == Dec(n) && ([32] + s)[1..] == s;
  }

  // ----- the number of a name -----

  /** Position of the last tilde behind the first character, or 0. */
  function TildeAt(name: seq<Byte>, i: nat): (r: nat)
    requires i < |name|
    ensures r <= i && (r > 0 ==> name[r] == TILDE) && forall k :: r < k <= i ==> name[k] != TILDE
  {
    if i == 0 || name[i] == TILDE then i else TildeAt(name, i - 1)
  }

  /** getShortNameSequence: the number of an 8.3 name that matches the mask, else 0. */
  function NumberOf(name: seq<Byte>, ext: seq<Byte>, mask: seq<Byte>): int
    requires |name| == 8 && |ext| == 3 && |mask| == 11
  {
    if ext != mask[8..] then 0
    else
      var i := TildeAt(name, 7);
      if i == 0 || name[..i] != mask[..i] then 0 else Strtol(name[i + 1..])
  }

  /** The numbered name: a tilde and the digits end at the eighth character. */
  function Numbered(mask: seq<Byte>, k: nat): (r: seq<Byte>)
    requires |mask| == 11 && k < 10000
    ensures |r| == 11
  {
    var d := Dec(k);
    mask[..7 - |d|] + [TILDE] + d + mask[8..]
  }

  /** A numbered name carries its number, so a different number means a different name. */
  lemma NumberedReads(mask: seq<Byte>, k: nat)
    requires |mask| == 11 && k < 10000
    ensures var r, n := Numbered(mask, k), |Dec(k)|;
      && NumberOf(r[..8], r[8..], mask) == k && r[0] == mask[0] && r[8..] == mask[8..]
      && r[7 - n] == 126 && r[8 - n..8] == Dec(k) && r[..7 - n] == mask[..7 - n]
  {
    hide Dec, Strtol, Digits;
    var d := Dec(k);
    var r := Numbered(mask, k);
    var name := r[..8];
    var at := 7 - |d|;
    assert r[8..] == mask[8..];
    assert name == mask[..at] + [TILDE] + d;
    assert name[at + 1..] == d && name[..at] == mask[..at];
    TildeFound(name, at);
    DecReads(k);
  }

  /** A name has a number only if it agrees with the mask up to its last tilde, and in the extension. */
  lemma NumberOfIs(name: seq<Byte>, ext: seq<Byte>, mask: seq<Byte>)
    requires |name| == 8 && |ext| == 3 && |mask| == 11 && NumberOf(name, ext, mask) != 0
    ensures ext == mask[8..]
    ensures exists i :: 1 <= i < 8 && name[i] == 126 && 126 !in name[i + 1..] && name[..i] == mask[..i]
                        && NumberOf(name, ext, mask) == Strtol(name[i + 1..])
  {
    var i := TildeAt(name, 7);
    assert name[i] == 126 && 126 !in name[i + 1..];
  }

  lemma TildeFound(name: seq<Byte>, at: nat)
    requires |name| == 8 && 0 < at < 8 && name[at] == TILDE && forall k :: at < k < 8 ==> name[k] != TILDE
    ensures TildeAt(name, 7) == at
  {
  }

  // ----- choosing a number -----

  /** The number of record i as the scan decodes it: six bits here, six more in the record of
      the long-name entry before it. */
  function Decoded(entry: seq<Byte>, i: nat): nat
    requires i < |entry|
  {
    var low := entry[i] as int / 4;
    if low != 0 && i > 0 && entry[i - 1] % 4 == 2 then low + 64 * (entry[i - 1] as int / 4) else low
  }

  /** The largest of the first n numbers, and how many of them are not 0. */
  function MaxSeq(entry: seq<Byte>, n: nat): (m: nat)
    requires n <= |entry|
    ensures m < 4096
    ensures forall i :: 0 <= i < n ==> Decoded(entry, i) <= m
    ensures m > 0 ==> exists i :: 0 <= i < n && Decoded(entry, i) == m
  {
    if n == 0 then 0
    else
      var m := MaxSeq(entry, n - 1);
      if Decoded(entry, n - 1) > m then Decoded(entry, n - 1) else m
  }

  function Hits(entry: seq<Byte>, n: nat): nat
    requires n <= |entry|
  {
    if n == 0 then 0 else Hits(entry, n - 1) + if Decoded(entry, n - 1) != 0 then 1 else 0
  }

  ghost function Values(entry: seq<Byte>, n: nat): set<nat>
    requires n <= |entry|
  {
    set i | 0 <= i < n && Decoded(entry, i) != 0 :: Decoded(entry, i)
  }

  lemma {:induction false} ValuesFewerThanHits(entry: seq<Byte>, n: nat)
    requires n <= |entry|
    ensures |Values(entry, n)| <= Hits(entry, n)
  {
    if n > 0 {
      ValuesFewerThanHits(entry, n - 1);
      var d := Decoded(entry, n - 1);
      if d != 0 {
        assert Values(entry, n) == Values(entry, n - 1) + {d};
      } else {
        assert Values(entry, n) == Values(entry, n - 1);
      }
    }
  }

  /** The numbers 1 to m. */
  ghost function Upto(m: nat): (s: set<nat>)
    ensures forall k :: k in s <==> 1 <= k <= m
  {
    if m == 0 then {} else Upto(m - 1) + {m}
  }

  lemma {:induction false} UptoSize(m: nat)
    ensures |Upto(m)| == m
  {
    if m > 0 {
      UptoSize(m - 1);
    }
  }

  lemma {:induction false} SubsetSize(a: set<nat>, b: set<nat>)
    requires a <= b
    ensures |a| <= |b|
  {
    if a != {} {
      var x :| x in a;
      SubsetSize(a - {x}, b - {x});
    }
  }

  /** Pigeonhole: with fewer hits than the largest number, a smaller number is missing. */
  lemma SomeMissing(entry: seq<Byte>)
    requires Hits(entry, |entry|) < MaxSeq(entry, |entry|)
    ensures exists j :: 0 <= j < MaxSeq(entry, |entry|) && !Occurs(entry, j, |entry|)
  {
    var m := MaxSeq(entry, |entry|);
    if forall j :: 0 <= j < m ==> Occurs(entry, j, |entry|) {
      forall k | k in Upto(m)
        ensures k in Values(entry, |entry|)
      {
        if k < m {
          assert Occurs(entry, k, |entry|);
        }
        var i :| 0 <= i < |entry| && Decoded(entry, i) == k;
      }
      SubsetSize(Upto(m), Values(entry, |entry|));
      UptoSize(m);
      ValuesFewerThanHits(entry, |entry|);
    }
  }

  /** Number j is among the first n. */
  ghost predicate Occurs(entry: seq<Byte>, j: nat, n: nat)
    requires n <= |entry|
  {
    exists i :: 0 <= i < n && Decoded(entry, i) == j
  }

  /** setShortNameSequence: the chosen number occurs in no record, and it is the least missing
      one when there are gaps. */
  method ChooseSequence(entry: seq<Byte>) returns (seqno: nat)
    ensures !Occurs(entry, seqno, |entry|) && seqno <= 4096
    ensures if Hits(entry, |entry|) < MaxSeq(entry, |entry|)
            then forall j :: 0 <= j < seqno ==> Occurs(entry, j, |entry|)
            else seqno == MaxSeq(entry, |entry|) + 1
  {
    var maxSeq, hit := 0, 0;
    for i := 0 to |entry|
      invariant maxSeq == MaxSeq(entry, i) && hit == Hits(entry, i)
    {
      var s := Decoded(entry, i);
      if s > maxSeq {
        maxSeq := s;
      }
      if s != 0 {
        hit := hit + 1;
      }
    }
    if hit < maxSeq {
      SomeMissing(entry);
      seqno := LeastMissing(entry, maxSeq);
    } else {
      seqno := maxSeq + 1;
    }
  }

  /** The search for a gap below maxSeq. */
  method LeastMissing(entry: seq<Byte>, maxSeq: nat) returns (seqno: nat)
    requires exists j :: 0 <= j < maxSeq && !Occurs(entry, j, |entry|)
    ensures seqno < maxSeq && !Occurs(entry, seqno, |entry|)
    ensures forall j :: 0 <= j < seqno ==> Occurs(entry, j, |entry|)
  {
    hide Occurs;
    seqno := 0;
    var cont := true;
    var j := 0;
    while j < maxSeq && cont
      invariant 0 <= j <= maxSeq
      invariant cont ==> forall k :: 0 <= k < j ==> Occurs(entry, k, |entry|)
      invariant !cont ==> seqno < j && !Occurs(entry, seqno, |entry|) && forall k :: 0 <= k < seqno ==> Occurs(entry, k, |entry|)
    {
      cont := Missing(entry, j);
      if cont {
        seqno := j;
      }
      cont := !cont;
      j := j + 1;
    }
  }

  /** The scan for one number. */
  method Missing(entry: seq<Byte>, j: nat) returns (cont: bool)
    ensures cont <==> !Occurs(entry, j, |entry|)
  {
    cont := true;
    var i := 0;
    while i < |entry| && cont
      invariant 0 <= i <= |entry|
      invariant if cont then !Occurs(entry, j, i) else Occurs(entry, j, |entry|)
    {
      if Decoded(entry, i) == j {
        cont := false;
      }
      i := i + 1;
    }
  }

  // ----- the scan of the directory -----

  /** What the scan meets: long-name entries, short names, the volume label, deleted entries. */
  datatype Item = Long | Short(name: seq<Byte>, ext: seq<Byte>) | Label | Deleted

  ghost predicate GoodItem(it: Item) {
    it.Short? ==> |it.name| == 8 && |it.ext| == 3
  }

  function ItemNumber(it: Item, mask: seq<Byte>): int {
    if it.Short? && |it.name| == 8 && |it.ext| == 3 && |mask| == 11 then NumberOf(it.name, it.ext, mask) else 0
  }

  /** Record i of the scanned items: the type of the item, with the low six bits of its number,
      or for a long-name entry the next six bits of the number that follows it. */
  function RecordOf(items: seq<Item>, mask: seq<Byte>, i: nat): (r: Byte)
    requires i < |items|
  {
    match items[i]
    case Deleted => 0
    case Label => 3
    case Short(_, _) => 1 + 4 * (ItemNumber(items[i], mask) % 64)
    case Long => if i + 1 < |items| && ItemNumber(items[i + 1], mask) > 63
                 then 2 + 4 * (ItemNumber(items[i + 1], mask) / 64 % 64) else 2
  }

  /** A short name with a number above 63 must follow a long-name entry. */
  predicate Placed(items: seq<Item>, mask: seq<Byte>, i: nat)
    requires i < |items|
  {
    ItemNumber(items[i], mask) > 63 ==> i > 0 && items[i - 1].Long?
  }

  ghost predicate Recorded(items: seq<Item>, mask: seq<Byte>, record: seq<Byte>) {
    && |record| == |items| && (forall i :: 0 <= i < |items| ==> record[i] == RecordOf(items, mask, i))
    && (forall i :: 0 <= i < |items| ==> Placed(items, mask, i))
  }

  /** The record part of fat_fillDirentryInfo; -EFAULT when a large number has no long-name
      entry before it. */
  method FillRecords(items: seq<Item>, mask: seq<Byte>) returns (ok: bool, record: seq<Byte>)
    requires |mask| == 11 && forall i :: 0 <= i < |items| ==> GoodItem(items[i])
    ensures ok ==> Recorded(items, mask, record)
    ensures ok <==> forall i :: 0 <= i < |items| ==> Placed(items, mask, i)
  {
    hide Recorded, RecordOf;
    record, ok := [], true;
    NothingRecorded(mask);
    assert items[..0] == [];
    for j := 0 to |items|
      invariant Recorded(items[..j], mask, record) && forall i :: 0 <= i < j ==> Placed(items, mask, i)
    {
      assert items[..j + 1] == items[..j] + [items[j]];
      RecordMore(items[..j], mask, record, items[j]);
      match items[j] {
        case Long =>
          record := record + [2];
        case Label =>
          record := record + [3];
        case Deleted =>
          record := record + [0];
        case Short(name, ext) =>
          assert GoodItem(items[j]);
          var seqno := NumberOf(name, ext, mask);
          if seqno > 63 {
            if j > 0 && record[j - 1] % 4 == 2 {
              record := record[j - 1 := record[j - 1] as int + 4 * (seqno / 64 % 64)];
            } else {
              assert !Placed(items, mask, j);
              return false, record;
            }
          }
          record := record + [1 + 4 * (seqno % 64)];
      }
    }
    assert items[..|items|] == items;
  }

  lemma NothingRecorded(mask: seq<Byte>)
    ensures Recorded([], mask, [])
  {
  }

  /** The record of the next item, and what it adds to the one before. */
  lemma RecordMore(items: seq<Item>, mask: seq<Byte>, record: seq<Byte>, it: Item)
    requires Recorded(items, mask, record)
    ensures |record| == |items|
    ensures var t := ItemNumber(it, mask); var n := |items|;
      var own := match it { case Deleted => 0 case Label => 3 case Long => 2 case Short(_, _) => 1 + 4 * (t % 64) };
      && (n > 0 ==> (record[n - 1] % 4 == 2 <==> items[n - 1].Long?))
      && (t <= 63 ==> Recorded(items + [it], mask, record + [own]))
      && (t > 63 && n > 0 && items[n - 1].Long? ==>
            && record[n - 1] == 2
            && Recorded(items + [it], mask, record[n - 1 := 2 + 4 * (t / 64 % 64)] + [own]))
  {
    var more, n := items + [it], |items|;
    forall i | 0 <= i < n
      ensures i < n - 1 ==> RecordOf(more, mask, i) == RecordOf(items, mask, i)
      ensures i == n - 1 && !(items[i].Long? && ItemNumber(it, mask) > 63) ==> RecordOf(more, mask, i) == RecordOf(items, mask, i)
      ensures Placed(more, mask, i)
    {
      assert Placed(items, mask, i);
    }
  }

  /** A number that is 0 or not a multiple of 64 is decoded as stored. */
  lemma DecodedNumber(items: seq<Item>, mask: seq<Byte>, record: seq<Byte>, i: nat)
    requires Recorded(items, mask, record) && i < |items| && items[i].Short?
    requires 0 <= ItemNumber(items[i], mask) < 4096 && (ItemNumber(items[i], mask) == 0 || ItemNumber(items[i], mask) % 64 != 0)
    ensures Decoded(record, i) == ItemNumber(items[i], mask)
  {
    var t := ItemNumber(items[i], mask);
    assert record[i] == RecordOf(items, mask, i) && Placed(items, mask, i);
    assert i > 0 ==> record[i - 1] == RecordOf(items, mask, i - 1);
  }

  /** The generated name differs from every short name of the directory, as long as no matching
      number there is a positive multiple of 64. */
  lemma FreshName(items: seq<Item>, mask: seq<Byte>, record: seq<Byte>, k: nat, i: nat)
    requires Recorded(items, mask, record) && k <= 4096 && !Occurs(record, k, |record|)
    requires |mask| == 11 && i < |items| && items[i].Short? && GoodItem(items[i])
    requires ItemNumber(items[i], mask) > 0 ==> ItemNumber(items[i], mask) % 64 != 0
    ensures items[i].name + items[i].ext != Numbered(mask, k)
  {
    var r := Numbered(mask, k);
    NumberedReads(mask, k);
    if items[i].name + items[i].ext == r {
      assert r[..8] == items[i].name && r[8..] == items[i].ext;
      DecodedNumber(items, mask, record, i);
    }
  }

  /** No record is decoded as a positive multiple of 64. */
  lemma NeverDecoded(entry: seq<Byte>, i: nat)
    requires i < |entry|
    ensures Decoded(entry, i) == 0 || Decoded(entry, i) % 64 != 0
  {
  }

  /** What the scan records of a directory. */
  ghost function Records(items: seq<Item>, mask: seq<Byte>): seq<Byte> {
    seq(|items|, i requires 0 <= i < |items| => RecordOf(items, mask, i))
  }

  ghost predicate Present(items: seq<Item>, name: seq<Byte>) {
    exists i :: 0 <= i < |items| && items[i].Short? && items[i].name + items[i].ext == name
  }

  /** When the numbering fails: below a gap, every number up to 63 occurs, so that the search
      stops at 64, and ~64 is there; without a gap, the next number is a multiple of 64 that is
      there. */
  ghost predicate Clashes(items: seq<Item>, mask: seq<Byte>)
    requires |mask| == 11
  {
    var r := Records(items, mask);
    var max := MaxSeq(r, |r|);
    if Hits(r, |r|) < max then (forall j :: 0 <= j < 64 ==> Occurs(r, j, |r|)) && Present(items, Numbered(mask, 64))
    else (max + 1) % 64 == 0 && Present(items, Numbered(mask, max + 1))
  }

  /** A number that occurs in no record can be that of a name only if it is a multiple of 64. */
  lemma TakenNumber(items: seq<Item>, mask: seq<Byte>, record: seq<Byte>, k: nat)
    requires Recorded(items, mask, record) && k <= 4096 && !Occurs(record, k, |record|)
    requires |mask| == 11 && forall i :: 0 <= i < |items| ==> GoodItem(items[i])
    ensures Present(items, Numbered(mask, k)) ==> k > 0 && k % 64 == 0
  {
    hide Recorded, Occurs, NumberOf, Numbered;
    if Present(items, Numbered(mask, k)) {
      var r := Numbered(mask, k);
      var i :| 0 <= i < |items| && items[i].Short? && items[i].name + items[i].ext == r;
      NumberedReads(mask, k);
      assert GoodItem(items[i]) && r[..8] == items[i].name && r[8..] == items[i].ext;
      assert ItemNumber(items[i], mask) == k;
      if k == 0 || k % 64 != 0 {
        FreshName(items, mask, record, k, i);
      }
    }
  }

  /** The number chosen is a number in use exactly in the directories where the numbering fails. */
  lemma ClashExactly(items: seq<Item>, mask: seq<Byte>, record: seq<Byte>, k: nat)
    requires Recorded(items, mask, record) && k <= 4096 && !Occurs(record, k, |record|)
    requires |mask| == 11 && forall i :: 0 <= i < |items| ==> GoodItem(items[i])
    requires if Hits(record, |record|) < MaxSeq(record, |record|)
             then forall j :: 0 <= j < k ==> Occurs(record, j, |record|)
             else k == MaxSeq(record, |record|) + 1
    ensures Present(items, Numbered(mask, k)) <==> Clashes(items, mask)
  {
    hide NumberOf, Numbered, Present, Decoded;
    assert record == Records(items, mask);
    TakenNumber(items, mask, record, k);
    if Occurs(record, 64, |record|) {
      var i :| 0 <= i < |record| && Decoded(record, i) == 64;
      NeverDecoded(record, i);
    }
  }

  /** Scan, choose and number: the new short name is different from every short name of the
      directory exactly when the numbering does not fail there. */
  method NewShortName(items: seq<Item>, mask: seq<Byte>) returns (ok: bool, name: seq<Byte>)
    requires |mask| == 11 && forall i :: 0 <= i < |items| ==> GoodItem(items[i])
    ensures ok <==> forall i :: 0 <= i < |items| ==> Placed(items, mask, i)
    ensures ok ==> |name| == 11 && name[0] == mask[0] && name[8..] == mask[8..]
    ensures ok ==> exists k :: 0 <= k <= 4096 && name == Numbered(mask, k)
    ensures ok ==> (Present(items, name) <==> Clashes(items, mask))
  {
    hide Recorded, Occurs, NumberOf, Numbered, Decoded, Present, Clashes;
    name := [];
    var record;
    ok, record := FillRecords(items, mask);
    if !ok {
      return;
    }
    var k := ChooseSequence(record);
    name := Numbered(mask, k);
    NumberedReads(mask, k);
    ClashExactly(items, mask, record, k);
  }

  // ----- where the numbering fails -----

  /** A directory with the names ~1 to ~64, each behind one long-name entry. */
  ghost function Crowded(mask: seq<Byte>): seq<Item>
    requires |mask| == 11
  {
    seq(128, j requires 0 <= j < 128 =>
      if j % 2 == 0 then Long
      else var r := Numbered(mask, (j + 1) / 2); Short(r[..8], r[8..]))
  }

  lemma CrowdedNumber(mask: seq<Byte>, j: nat)
    requires |mask| == 11 && j < 128
    ensures ItemNumber(Crowded(mask)[j], mask) == if j % 2 == 0 then 0 else (j + 1) / 2
  {
    if j % 2 == 1 {
      NumberedReads(mask, (j + 1) / 2);
    }
  }

  lemma CrowdedDecoded(mask: seq<Byte>, record: seq<Byte>, j: nat)
    requires |mask| == 11 && Recorded(Crowded(mask), mask, record) && j < 128
    ensures Decoded(record, j) == if j == 126 then 1 else if j % 2 == 0 || j == 127 then 0 else (j + 1) / 2
  {
    hide Numbered, NumberOf;
    var items := Crowded(mask);
    CrowdedNumber(mask, j);
    assert record[j] == RecordOf(items, mask, j);
    if j + 1 < 128 {
      CrowdedNumber(mask, j + 1);
    }
    if j > 0 {
      CrowdedNumber(mask, j - 1);
      assert record[j - 1] == RecordOf(items, mask, j - 1);
    }
  }

  lemma {:induction false} CrowdedScan(mask: seq<Byte>, record: seq<Byte>, n: nat)
    requires |mask| == 11 && Recorded(Crowded(mask), mask, record) && n <= 126 && |record| == 128
    ensures MaxSeq(record, n) == n / 2 && Hits(record, n) == n / 2
  {
    hide Recorded, Decoded;
    if n > 0 {
      CrowdedScan(mask, record, n - 1);
      CrowdedDecoded(mask, record, n - 1);
    }
  }

  /** With 64 numbered files, number 64 is decoded as 0, so it is chosen again. */
  lemma CrowdedClash(mask: seq<Byte>, record: seq<Byte>)
    requires |mask| == 11 && Recorded(Crowded(mask), mask, record)
    ensures |record| == 128 && Hits(record, 128) >= MaxSeq(record, 128) == 63
    ensures Clashes(Crowded(mask), mask)
  {
    var it := Crowded(mask)[127];
    assert it.Short? && it.name + it.ext == Numbered(mask, 64);
    assert Present(Crowded(mask), Numbered(mask, 64));
    assert record == Records(Crowded(mask), mask);
    CrowdedScan(mask, record, 126);
    CrowdedDecoded(mask, record, 126);
    CrowdedDecoded(mask, record, 127);
    hide Recorded, Decoded, Numbered;
    assert MaxSeq(record, 127) == 63 && Hits(record, 127) == 64;
    assert MaxSeq(record, 128) == 63 && Hits(record, 128) == 64;
  }

  // ----- the mask -----

  function Upper(c: Byte): Byte {
    if 96 < c < 123 then c - 32 else c
  }

  /** The weight of dots and spaces: one for a dot, two for a space. */
  function Weight(s: seq<Byte>): nat {
    if s == [] then 0 else (if s[0] == 46 then 1 else if s[0] == 32 then 2 else 0) + Weight(s[1..])
  }

  /** Position of the first dot, or the length. */
  function FirstDot(s: seq<Byte>): (r: nat)
    ensures r <= |s| && (r < |s| ==> s[r] == 46) && forall k :: 0 <= k < r ==> s[k] != 46
  {
    if s == [] || s[0] == 46 then 0 else 1 + FirstDot(s[1..])
  }

  /** Position of the last dot, or -1. */
  function LastDot(s: seq<Byte>): (r: int)
    ensures -1 <= r < |s| && (r >= 0 ==> s[r] == 46) && forall k :: r < k < |s| ==> s[k] != 46
  {
    if s == [] then -1 else if s[|s| - 1] == 46 then |s| - 1 else LastDot(s[..|s| - 1])
  }

  function Stem(lname: seq<Byte>): seq<Byte> {
    lname[..FirstDot(lname)]
  }

  function Extension(lname: seq<Byte>): seq<Byte> {
    if LastDot(lname) < 0 then [] else lname[LastDot(lname) + 1..]
  }

  /** The name has no space, at most one dot, and parts that fit. */
  predicate Lossless(lname: seq<Byte>) {
    Weight(lname) <= 1 && |Stem(lname)| <= 8 && |Extension(lname)| <= 3
  }

  /** The 8.3 form: upper case, spaces of the stem as underscores, both parts cut and padded. */
  function Mask(lname: seq<Byte>, pad: Byte): (m: seq<Byte>)
    ensures |m| == 11
  {
    seq(11, i requires 0 <= i < 11 => if i < 8 then StemByte(lname, pad, i) else ExtensionByte(lname, i - 8))
  }

  function StemByte(lname: seq<Byte>, pad: Byte, i: nat): Byte {
    if i >= |Stem(lname)| then pad else if Stem(lname)[i] == 32 then 95 else Upper(Stem(lname)[i])
  }

  function ExtensionByte(lname: seq<Byte>, j: nat): Byte {
    if j < |Extension(lname)| then Upper(Extension(lname)[j]) else 32
  }

  function Uppers(s: seq<Byte>): seq<Byte> {
    seq(|s|, i requires 0 <= i < |s| => Upper(s[i]))
  }

  /** Byte c of the name as it goes into the mask: lower-case letters become capitals, and no other
      byte changes but a space of the stem. */
  predicate Capital(c: Byte, m: Byte, space: Byte) {
    if c == 32 then m == space else if 97 <= c <= 122 then m == c - 32 else m == c
  }

  /** The bytes of a mask, from the name up to its first dot and behind its last one. */
  lemma MaskIs(lname: seq<Byte>, pad: Byte, i: nat)
    requires i < 11
    ensures var m, n := Mask(lname, pad), FirstDot(lname);
      i < 8 ==> if i < n then Capital(lname[i], m[i], 95) else m[i] == pad
    ensures var m, d := Mask(lname, pad), LastDot(lname);
      i >= 8 ==> if 0 <= d && d + 1 + (i - 8) < |lname| then Capital(lname[d + 1 + (i - 8)], m[i], 32) else m[i] == 32
    ensures !(97 <= pad <= 122) ==> !(97 <= Mask(lname, pad)[i] <= 122)
  {
    hide FirstDot, LastDot;
    if i < 8 {
      assert Mask(lname, pad)[i] == StemByte(lname, pad, i);
    } else {
      assert Mask(lname, pad)[i] == ExtensionByte(lname, i - 8);
    }
  }

  /** A mask is lossless if and only if the name has no space, at most one dot, at most 8 bytes before
      it and at most 3 behind. */
  lemma LosslessIs(lname: seq<Byte>)
    ensures Lossless(lname) <==> && 32 !in lname
                                 && (forall k, l :: 0 <= k < l < |lname| ==> !(lname[k] == 46 && lname[l] == 46))
                                 && FirstDot(lname) <= 8 && (LastDot(lname) >= 0 ==> |lname| - 1 - LastDot(lname) <= 3)
  {
    hide FirstDot, LastDot;
    if Weight(lname) <= 1 {
      Light(lname);
    } else if 32 !in lname {
      Heavy(lname);
    }
  }

  lemma {:induction false} Heavy(s: seq<Byte>)
    requires Weight(s) > 1 && 32 !in s
    ensures exists k, l :: 0 <= k < l < |s| && s[k] == 46 && s[l] == 46
  {
    var t := s[1..];
    assert forall k :: 0 <= k < |t| ==> t[k] == s[k + 1];
    if s[0] == 46 {
      SomeDot(t);
    } else {
      Heavy(t);
      var k, l :| 0 <= k < l < |t| && t[k] == 46 && t[l] == 46;
      assert s[k + 1] == 46 && s[l + 1] == 46;
    }
  }

  lemma {:induction false} SomeDot(s: seq<Byte>)
    requires Weight(s) > 0 && 32 !in s
    ensures 46 in s
  {
    if s[0] != 46 {
      SomeDot(s[1..]);
    }
  }

  lemma {:induction false} Light(s: seq<Byte>)
    requires Weight(s) <= 1
    ensures forall k :: 0 <= k < |s| ==> s[k] != 32
    ensures forall k, l :: 0 <= k < l < |s| ==> !(s[k] == 46 && s[l] == 46)
  {
    if s != [] {
      Light(s[1..]);
      assert forall k :: 0 < k < |s| ==> s[k] == s[1..][k - 1];
      if s[0] == 46 {
        Weightless(s[1..]);
      }
    }
  }

  lemma {:induction false} Weightless(s: seq<Byte>)
    requires Weight(s) == 0
    ensures forall k :: 0 <= k < |s| ==> s[k] != 46
  {
    if s != [] {
      Weightless(s[1..]);
      assert forall k :: 0 < k < |s| ==> s[k] == s[1..][k - 1];
    }
  }

  /** Padding is trimmed off again. */
  lemma {:induction false} TrimmedPart(s: seq<Byte>, n: nat)
    requires n <= |s| && (forall k :: 0 <= k < n ==> s[k] != 32) && (n < |s| ==> s[n] == 32)
    ensures LongNames.Trimmed(s) == s[..n]
  {
    if n > 0 {
      TrimmedPart(s[1..], n - 1);
      assert s[..n] == [s[0]] + s[1..][..n - 1];
    }
  }

  /** A lossless mask reads back as the name in upper case, unless the name ends in a dot. */
  lemma MaskReadsBack(lname: seq<Byte>, e: seq<Byte>)
    requires |lname| > 0 && lname[0] != 46 && Lossless(lname) && |e| == LongNames.ENTRY && e[..11] == Mask(lname, 32)
    ensures LongNames.ShortText(e) == Uppers(lname) <==> lname[|lname| - 1] != 46
  {
    hide LongNames.Trimmed, FirstDot, LastDot, Weight, Mask;
    Light(lname);
    var stem, ext := Stem(lname), Extension(lname);
    MaskParts(lname, e);
    TrimmedPart(e[..8], |stem|);
    TrimmedPart(e[8..11], |ext|);
    UppersOf(lname);
  }

  lemma {:induction false} UppersOf(lname: seq<Byte>)
    requires forall k, l :: 0 <= k < l < |lname| ==> !(lname[k] == 46 && lname[l] == 46)
    ensures Uppers(lname) == if LastDot(lname) < 0 then Uppers(Stem(lname)) else Uppers(Stem(lname)) + [46] + Uppers(Extension(lname))
    ensures LastDot(lname) < 0 ==> Extension(lname) == []
    ensures |lname| > 0 ==> (lname[|lname| - 1] == 46 <==> LastDot(lname) >= 0 && Extension(lname) == [])
  {
    hide FirstDot, LastDot, Uppers;
    var d := LastDot(lname);
    if d >= 0 {
      assert FirstDot(lname) == d;
      UppersJoin(lname[..d], lname[d + 1..]);
      assert lname == lname[..d] + [46] + lname[d + 1..];
    } else {
      assert lname[..FirstDot(lname)] == lname;
    }
  }

  lemma UppersJoin(x: seq<Byte>, y: seq<Byte>)
    ensures Uppers(x + [46] + y) == Uppers(x) + [46] + Uppers(y)
  {
  }

  /** The two parts of a lossless mask. */
  lemma MaskParts(lname: seq<Byte>, e: seq<Byte>)
    requires Lossless(lname) && |e| >= 11 && e[..11] == Mask(lname, 32) && forall k :: 0 <= k < |lname| ==> lname[k] != 32
    ensures var s, n := e[..8], |Stem(lname)|;
      s[..n] == Uppers(Stem(lname)) && (forall k :: 0 <= k < n ==> s[k] != 32) && (n < 8 ==> s[n] == 32)
    ensures var s, n := e[8..11], |Extension(lname)|;
      s[..n] == Uppers(Extension(lname)) && (forall k :: 0 <= k < n ==> s[k] != 32) && (n < 3 ==> s[n] == 32)
  {
    hide FirstDot, LastDot, Weight;
    var m := Mask(lname, 32);
    assert forall i :: 0 <= i < 8 ==> e[..8][i] == e[..11][i] == m[i] == StemByte(lname, 32, i);
    assert forall j :: 0 <= j < 3 ==> e[8..11][j] == e[..11][8 + j] == m[8 + j] == ExtensionByte(lname, j);
  }

  const EINVAL := 22

  /** createShortNameMask: the long name squeezed into 8.3 form; 0 when nothing was cut or
      replaced. The first byte marks the entry neither as free nor as deleted. */
  method CreateShortNameMask(lname: seq<Byte>) returns (ret: int, sname: seq<Byte>)
    requires |lname| > 0 && forall i :: 0 <= i < |lname| ==> lname[i] != 0
    ensures ret == -EINVAL <==> lname[0] == 46
    ensures ret == -EINVAL || ret == 1 || ret == 0
    ensures ret == 0 <==> lname[0] != 46 && Lossless(lname)
    ensures ret >= 0 ==> sname == Mask(lname, if ret == 0 then 32 else 95)
    ensures ret >= 0 && lname[0] != 0xE5 ==> sname[0] != 0 && sname[0] != 0xE5
  {
    hide FirstDot, LastDot, Weight, StemByte, ExtensionByte;
    sname := [];
    if lname[0] == 46 {
      return -EINVAL, sname;
    }
    var fit := if Weight(lname) <= 1 then 1 else 0;
    sname := seq(11, _ => 32);
    var whole;
    sname, whole := PutStem(lname, sname);
    if whole {
      fit := fit + 1;
    }
    sname, whole := PutExtension(lname, sname);
    if whole {
      fit := fit + 1;
    }
    FirstByte(lname, 32);
    FirstByte(lname, 95);
    assert sname == Mask(lname, 32);
    if fit == 3 {
      return 0, sname;
    }
    sname := Underscores(lname, sname);
    ret := 1;
  }

  lemma FirstByte(lname: seq<Byte>, pad: Byte)
    requires |lname| > 0 && lname[0] != 0 && lname[0] != 46
    ensures Mask(lname, pad)[0] != 0 && (lname[0] != 0xE5 ==> Mask(lname, pad)[0] != 0xE5)
  {
    hide LastDot;
  }

  /** The loop over the stem, which is whole if it ends within eight bytes. */
  method PutStem(lname: seq<Byte>, sname0: seq<Byte>) returns (sname: seq<Byte>, whole: bool)
    requires |sname0| == 11 && forall k :: 0 <= k < 11 ==> sname0[k] == 32
    ensures |sname| == 11 && (forall k :: 0 <= k < 8 ==> sname[k] == StemByte(lname, 32, k))
    ensures (forall k :: 8 <= k < 11 ==> sname[k] == 32) && (whole <==> |Stem(lname)| <= 8)
  {
    hide FirstDot;
    sname := sname0;
    var i := 0;
    while i < |lname| && lname[i] != 46 && i < 8
      invariant 0 <= i <= 8 && i <= FirstDot(lname) && |sname| == 11
      invariant forall k :: 0 <= k < i ==> sname[k] == StemByte(lname, 32, k)
      invariant forall k :: i <= k < 11 ==> sname[k] == 32
    {
      var u := Upper(lname[i]);
      sname := sname[i := if u == 32 then 95 else u];
      i := i + 1;
    }
    whole := i == |lname| || lname[i] == 46;
  }

  /** The search for the last dot and the loop behind it. */
  method PutExtension(lname: seq<Byte>, sname0: seq<Byte>) returns (sname: seq<Byte>, whole: bool)
    requires |lname| > 0 && |sname0| == 11 && forall k :: 8 <= k < 11 ==> sname0[k] == 32
    ensures |sname| == 11 && (forall k :: 0 <= k < 8 ==> sname[k] == sname0[k])
    ensures (forall k :: 8 <= k < 11 ==> sname[k] == ExtensionByte(lname, k - 8)) && (whole <==> |Extension(lname)| <= 3)
  {
    hide LastDot;
    sname := sname0;
    var i := |lname| - 1;
    while i > 0 && lname[i] != 46
      invariant LastDot(lname) <= i < |lname| && i >= 0
    {
      i := i - 1;
    }
    whole := true;
    if lname[i] == 46 {
      i := i + 1;
      var j := 0;
      while i < |lname| && j < 3
        invariant 0 <= j <= 3 && i == LastDot(lname) + 1 + j <= |lname| && |sname| == 11
        invariant forall k :: 0 <= k < 8 ==> sname[k] == sname0[k]
        invariant forall k :: 8 <= k < 8 + j ==> sname[k] == ExtensionByte(lname, k - 8)
        invariant forall k :: 8 + j <= k < 11 ==> sname[k] == 32
      {
        sname := sname[j + 8 := Upper(lname[i])];
        i, j := i + 1, j + 1;
      }
      whole := i == |lname|;
    }
  }

  /** No spaces in a stem that will be numbered. */
  method Underscores(lname: seq<Byte>, sname0: seq<Byte>) returns (sname: seq<Byte>)
    requires sname0 == Mask(lname, 32)
    ensures sname == Mask(lname, 95)
  {
    hide FirstDot, LastDot;
    sname := sname0;
    for k := 0 to 8
      invariant |sname| == 11 && forall l :: 0 <= l < 11 ==> sname[l] == if l < k then Mask(lname, 95)[l] else sname0[l]
    {
      if sname[k] == 32 {
        sname := sname[k := 95];
      }
    }
  }
}
