/** The live entries of a directory after a name has been created in it (fat_modifyDirSpace,
    iop/usb_mass/fat_write.c). */
module DirLive {
  import opened Bytes
  import opened FatRecords
  import opened FatFileView
  import opened DirSlots
  import opened DirScan
  import opened DirClear
  import opened DirCreate
  import ShortNames
  import LongNames

  ghost function KindAt(b: Bpb, flat: seq<Sector>, cs: seq<nat>, j: nat): nat
    requires IsFile(b, flat, cs) && j < EntryCount(b, |cs|)
  {
    LongNames.Kind(EntryAt(b, flat, cs, j))
  }

  /** No end mark is written behind new entries. Entries behind the range that were beyond the end
      of the directory come to life, up to the next end mark. */
  ghost predicate StaleBehind(b: Bpb, f: seq<Sector>, cs: seq<nat>, at: nat, n: nat) {
    && IsFile(b, f, cs)
    && exists j :: ComesToLife(b, f, cs, at, n, j)
  }

  ghost predicate ComesToLife(b: Bpb, f: seq<Sector>, cs: seq<nat>, at: nat, n: nat, j: nat)
    requires IsFile(b, f, cs)
  {
    at + n <= j < EntryCount(b, |cs|) && Goes(b, f, cs, at + n, j) && !Live(b, f, cs, j)
  }

  /** Entry j is not deleted, and no end mark lies from `from` up to it. */
  ghost predicate Goes(b: Bpb, f: seq<Sector>, cs: seq<nat>, from: nat, j: nat)
    requires IsFile(b, f, cs) && j < EntryCount(b, |cs|)
  {
    KindAt(b, f, cs, j) != 3 && forall k :: from <= k <= j ==> KindAt(b, f, cs, k) != 0
  }

  lemma LiveIs(b: Bpb, f: seq<Sector>, cs: seq<nat>, j: nat)
    requires IsFile(b, f, cs)
    ensures Live(b, f, cs, j) <==> j < EntryCount(b, |cs|) && Goes(b, f, cs, 0, j)
  {
    hide EntryAt, IsFile, EntryCount, LongNames.Kind;
    if Live(b, f, cs, j) {
      assert forall k :: 0 <= k <= j ==> KindAt(b, f, cs, k) != 0;
    }
    if j < EntryCount(b, |cs|) && Goes(b, f, cs, 0, j) {
      assert forall k :: 0 <= k <= j ==> LongNames.Kind(EntryAt(b, f, cs, k)) == KindAt(b, f, cs, k);
    }
  }

  /** The place chosen lies before the end mark. */
  lemma NoEndBefore(b: Bpb, f: seq<Sector>, cs: seq<nat>, items: seq<ShortNames.Item>, lname: seq<Byte>, at: nat, n: nat, k: nat)
    requires Scanned(b, f, cs, items) && n > 0 && |items| > 0 && Chosen(RecordsOf(items, lname), n, at) && k < at
    ensures at <= EntryCount(b, |cs|) && KindAt(b, f, cs, k) != 0
  {
    hide EntryAt, IsFile, EntryCount, LongNames.Kind, ShortNames.RecordOf, ItemOf, Chosen, HasSlot, Empty, MaskOf;
    var record := RecordsOf(items, lname);
    ChosenIsFree(record, n, at);
    var last := |items| - 1;
    EmptyIsFree(items, MaskOf(lname), last, EntryAt(b, f, cs, last));
    assert record[last] == ShortNames.RecordOf(items, MaskOf(lname), last);
  }

  /** The kinds of the new entries: the short one is a deleted entry if the name begins with 0xE5. */
  lemma NewKinds(buffer: seq<Byte>, lname: seq<Byte>, sname: seq<Byte>, directory: bool, cluster: nat, i: nat)
    requires LongNames.GoodName(lname) && IsEntries(buffer, lname, sname, directory, cluster) && lname[0] != 46
    requires sname[0] == MaskOf(lname)[0] && i < LongNames.Parts(lname) + 1
    ensures var kind := LongNames.Kind(LongNames.EntryOf(buffer, i));
      kind != 0 && (kind == 3 <==> i == LongNames.Parts(lname) && lname[0] == 0xE5)
  {
    hide LongNames.EntryOf, LongNames.Checksum, MaskOf;
    var n := LongNames.Parts(lname) + 1;
    var e := LongNames.EntryOf(buffer, i);
    if i < n - 1 {
      var _ := LongNames.WrittenEntry(e, lname, n - 2 - i, n - 2, LongNames.Checksum(sname, 11));
    } else {
      MaskStarts(lname);
      assert e[..11][0] == sname[0];
    }
  }

  lemma MaskStarts(lname: seq<Byte>)
    requires LongNames.GoodName(lname) && lname[0] != 46
    ensures MaskOf(lname)[0] != 0 && (MaskOf(lname)[0] == 0xE5 <==> lname[0] == 0xE5)
  {
    hide ShortNames.LastDot, ShortNames.Lossless;
  }

  lemma BlankEnds()
    ensures LongNames.Kind(Blank(ENTRY)) == 0
  {
  }

  /** The kinds of the entries of the new directory. */
  lemma KindAfter(b: Bpb, f: seq<Sector>, cs: seq<nat>, g: seq<Sector>, ds: seq<nat>, at: nat, n: nat, dbuf: seq<Byte>, j: nat)
    requires Stored(b, f, cs, g, ds, at, n, dbuf) && j < EntryCount(b, |ds|)
    ensures at <= j < at + n ==> KindAt(b, g, ds, j) == LongNames.Kind(LongNames.EntryOf(dbuf, j - at))
    ensures !(at <= j < at + n) && j < EntryCount(b, |cs|) ==> KindAt(b, g, ds, j) == KindAt(b, f, cs, j)
    ensures !(at <= j < at + n) && j >= EntryCount(b, |cs|) ==> KindAt(b, g, ds, j) == 0
  {
    hide EntryAt, IsFile, EntryCount, LongNames.Kind, LongNames.EntryOf, Blank;
    BlankEnds();
  }

  /** Which entries of the new directory are live. */
  lemma LiveAfter(b: Bpb, f: seq<Sector>, cs: seq<nat>, g: seq<Sector>, ds: seq<nat>, at: nat, n: nat, dbuf: seq<Byte>,
                  lname: seq<Byte>, sname: seq<Byte>, directory: bool, cluster: nat, items: seq<ShortNames.Item>, j: nat)
    requires Stored(b, f, cs, g, ds, at, n, dbuf) && n == LongNames.Parts(lname) + 1 && Scanned(b, f, cs, items) && |items| > 0
    requires LongNames.GoodName(lname) && lname[0] != 46 && IsEntries(dbuf, lname, sname, directory, cluster)
    requires sname[0] == MaskOf(lname)[0] && Chosen(RecordsOf(items, lname), n, at)
    ensures j < at ==> (Live(b, g, ds, j) <==> Live(b, f, cs, j))
    ensures at <= j < at + n ==> (Live(b, g, ds, j) <==> j < at + n - 1 || lname[0] != 0xE5)
    ensures at + n <= j ==> (Live(b, g, ds, j) <==> j < EntryCount(b, |cs|) && Goes(b, f, cs, at + n, j))
  {
    hide EntryAt, IsFile, EntryCount, LongNames.Kind, LongNames.EntryOf, KindAt, Live, IsEntries, Scanned, Chosen, MaskOf, RecordsOf,
         LongNames.Parts;
    LiveIs(b, g, ds, j);
    LiveIs(b, f, cs, j);
    if at > 0 {
      NoEndBefore(b, f, cs, items, lname, at, n, 0);
    }
    forall k | 0 <= k < at
      ensures KindAt(b, f, cs, k) != 0
    {
      NoEndBefore(b, f, cs, items, lname, at, n, k);
    }
    forall k | 0 <= k < EntryCount(b, |ds|)
      ensures at <= k < at + n ==> KindAt(b, g, ds, k) != 0 && (KindAt(b, g, ds, k) == 3 <==> k == at + n - 1 && lname[0] == 0xE5)
      ensures !(at <= k < at + n) && k < EntryCount(b, |cs|) ==> KindAt(b, g, ds, k) == KindAt(b, f, cs, k)
      ensures !(at <= k < at + n) && k >= EntryCount(b, |cs|) ==> KindAt(b, g, ds, k) == 0
    {
      KindAfter(b, f, cs, g, ds, at, n, dbuf, k);
      if at <= k < at + n {
        NewKinds(dbuf, lname, sname, directory, cluster, k - at);
      }
    }
    assert at <= j < at + n ==> forall k :: 0 <= k <= j ==> KindAt(b, g, ds, k) != 0;
  }

  /** Creating a name makes exactly its entries live, and leaves the others as they were, if and only
      if the name does not begin with 0xE5 and no entry behind its own comes to life. */
  lemma LiveExactly(b: Bpb, f: seq<Sector>, cs: seq<nat>, g: seq<Sector>, ds: seq<nat>, at: nat, n: nat, dbuf: seq<Byte>,
                    lname: seq<Byte>, sname: seq<Byte>, directory: bool, cluster: nat, items: seq<ShortNames.Item>)
    requires Stored(b, f, cs, g, ds, at, n, dbuf) && n == LongNames.Parts(lname) + 1 && Scanned(b, f, cs, items) && |items| > 0
    requires LongNames.GoodName(lname) && lname[0] != 46 && IsEntries(dbuf, lname, sname, directory, cluster)
    requires sname[0] == MaskOf(lname)[0] && Chosen(RecordsOf(items, lname), n, at)
    ensures (forall j: nat :: Live(b, g, ds, j) <==> at <= j < at + n || Live(b, f, cs, j)) <==>
            lname[0] != 0xE5 && !StaleBehind(b, f, cs, at, n)
  {
    hide EntryAt, IsFile, EntryCount, LongNames.Kind, LongNames.EntryOf, Live, IsEntries, Scanned, Chosen, MaskOf, RecordsOf,
         LongNames.Parts, Goes;
    forall j: nat
      ensures j < at ==> (Live(b, g, ds, j) <==> Live(b, f, cs, j))
      ensures at <= j < at + n ==> (Live(b, g, ds, j) <==> j < at + n - 1 || lname[0] != 0xE5)
      ensures at + n <= j ==> (Live(b, g, ds, j) <==> j < EntryCount(b, |cs|) && Goes(b, f, cs, at + n, j))
      ensures at + n <= j && Live(b, f, cs, j) ==> Live(b, g, ds, j)
    {
      LiveAfter(b, f, cs, g, ds, at, n, dbuf, lname, sname, directory, cluster, items, j);
      if Live(b, f, cs, j) {
        LiveGoes(b, f, cs, at + n, j);
      }
    }
    forall j: nat | at + n <= j && Live(b, g, ds, j) && !Live(b, f, cs, j)
      ensures ComesToLife(b, f, cs, at, n, j)
    {
    }
    if StaleBehind(b, f, cs, at, n) {
      var j :| ComesToLife(b, f, cs, at, n, j);
      assert Live(b, g, ds, j) && !Live(b, f, cs, j);
    }
    assert !Live(b, g, ds, at + n - 1) || lname[0] != 0xE5;
  }

  /** An end mark that is overwritten, with an old entry right behind the new ones, is such a case. */
  lemma StaleRevives(b: Bpb, f: seq<Sector>, cs: seq<nat>, at: nat, n: nat)
    requires IsFile(b, f, cs) && n > 0 && at + n < EntryCount(b, |cs|)
    requires KindAt(b, f, cs, at) == 0 && KindAt(b, f, cs, at + n) != 0 && KindAt(b, f, cs, at + n) != 3
    ensures StaleBehind(b, f, cs, at, n)
  {
    hide EntryAt, IsFile, EntryCount, LongNames.Kind;
    LiveIs(b, f, cs, at + n);
    assert ComesToLife(b, f, cs, at, n, at + n);
  }

  lemma LiveGoes(b: Bpb, f: seq<Sector>, cs: seq<nat>, from: nat, j: nat)
    requires IsFile(b, f, cs) && Live(b, f, cs, j)
    ensures j < EntryCount(b, |cs|) && Goes(b, f, cs, from, j)
  {
    hide EntryAt, IsFile, EntryCount, LongNames.Kind;
    LiveIs(b, f, cs, j);
  }
}
