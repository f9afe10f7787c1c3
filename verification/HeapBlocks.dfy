/** Block headers inside the heap's bytes (iop/SMSTCPIP/mem.c). */
module HeapBlocks {
  import opened Bytes

  const MEM_SIZE := 0x2000
  const HEADER := 8
  const MEM_ALIGNMENT := 4
  const MIN_SIZE := 12

  /** struct mem: two 16-bit links and a used flag. */
  datatype Header = Header(next: nat, prev: nat, used: bool)

  type Ram = seq<Byte>

  function U16(r: Ram, k: nat): nat
    requires k + 2 <= |r|
  {
    r[k] as int + 256 * (r[k + 1] as int)
  }

  function PutU16(r: Ram, k: nat, v: nat): (r': Ram)
    requires k + 2 <= |r|
    ensures |r'| == |r|
  {
    r[k := v % 256][k + 1 := (v / 256) % 256]
  }

  function At(r: Ram, o: nat): Header
    requires o + HEADER <= |r|
  {
    Header(U16(r, o), U16(r, o + 2), r[o + 4..o + 8] != [0, 0, 0, 0])
  }

  /** Only the header at o may differ. */
  ghost predicate SameBut(r: Ram, r': Ram, o: nat) {
    |r| == |r'| && forall k :: 0 <= k < |r| && !(o <= k < o + HEADER) ==> r'[k] == r[k]
  }

  function PutNext(r: Ram, o: nat, v: nat): (r': Ram)
    requires o + HEADER <= |r|
    ensures |r'| == |r|
  {
    PutU16(r, o, v)
  }

  function PutPrev(r: Ram, o: nat, v: nat): (r': Ram)
    requires o + HEADER <= |r|
    ensures |r'| == |r|
  {
    PutU16(r, o + 2, v)
  }

  function PutUsed(r: Ram, o: nat, u: bool): (r': Ram)
    requires o + HEADER <= |r|
    ensures |r'| == |r|
  {
    r[o + 4 := if u then 1 else 0][o + 5 := 0][o + 6 := 0][o + 7 := 0]
  }

  /** A header store changes its own field of its own header and nothing else. */
  lemma PutReads(r: Ram, o: nat, v: nat, u: bool)
    requires o + HEADER <= |r| && v < 0x10000
    ensures At(PutNext(r, o, v), o) == At(r, o).(next := v) && SameBut(r, PutNext(r, o, v), o)
    ensures At(PutPrev(r, o, v), o) == At(r, o).(prev := v) && SameBut(r, PutPrev(r, o, v), o)
    ensures At(PutUsed(r, o, u), o) == At(r, o).(used := u) && SameBut(r, PutUsed(r, o, u), o)
  {
    assert PutNext(r, o, v)[o + 4..o + 8] == r[o + 4..o + 8];
    assert PutPrev(r, o, v)[o + 4..o + 8] == r[o + 4..o + 8];
    assert PutUsed(r, o, u)[o + 4..o + 8] == [if u then 1 else 0, 0, 0, 0];
  }

  lemma OtherHeader(r: Ram, r': Ram, o: nat, p: nat)
    requires SameBut(r, r', o) && p + HEADER <= |r| && (p + HEADER <= o || o + HEADER <= p)
    ensures At(r', p) == At(r, p)
  {
    assert r'[p + 4..p + 8] == r[p + 4..p + 8];
  }

  // ----- the list of blocks -----

  /** Where block i ends. */
  function End(bs: seq<nat>, i: nat): nat
    requires i < |bs|
  {
    if i + 1 < |bs| then bs[i + 1] else MEM_SIZE
  }

  /** bs are the offsets of blocks that partition [0, MEM_SIZE): aligned, ascending, each with
      room for its header. */
  ghost predicate Partition(bs: seq<nat>) {
    && |bs| >= 1 && bs[0] == 0
    && (forall i :: 0 <= i < |bs| ==> bs[i] % MEM_ALIGNMENT == 0 && bs[i] + HEADER <= End(bs, i))
  }

  lemma {:induction false} Ascending(bs: seq<nat>, i: nat, j: nat)
    requires Partition(bs) && i < j < |bs|
    ensures End(bs, i) <= bs[j] && bs[i] + HEADER <= bs[j] < MEM_SIZE
    decreases |bs| - j, j - i
  {
    if j + 1 < |bs| {
      Ascending(bs, j, j + 1);
    }
    if i + 1 < j {
      Ascending(bs, i + 1, j);
    }
  }

  lemma {:induction false} EndInside(bs: seq<nat>, i: nat)
    requires Partition(bs) && i < |bs|
    ensures bs[i] + HEADER <= End(bs, i) <= MEM_SIZE
    decreases |bs| - i
  {
    if i + 1 < |bs| {
      EndInside(bs, i + 1);
    }
  }

  /** Two blocks are far enough apart for their headers. */
  lemma Apart(bs: seq<nat>, i: nat, j: nat)
    requires Partition(bs) && i < |bs| && j < |bs| && i != j
    ensures bs[i] + HEADER <= bs[j] || bs[j] + HEADER <= bs[i]
  {
    if i < j {
      Ascending(bs, i, j);
    } else {
      Ascending(bs, j, i);
    }
  }

  /** The header of block i links it to its neighbours. */
  ghost predicate LinkedAt(r: Ram, bs: seq<nat>, i: nat) {
    && |r| == MEM_SIZE + HEADER && i < |bs| && bs[i] < MEM_SIZE
    && At(r, bs[i]).next == End(bs, i) && At(r, bs[i]).prev == if i == 0 then 0 else bs[i - 1]
  }

  /** The headers link the blocks, and the header behind the heap is marked used. */
  ghost predicate Linked(r: Ram, bs: seq<nat>) {
    && |r| == MEM_SIZE + HEADER && Partition(bs) && At(r, MEM_SIZE).used
    && (forall i :: 0 <= i < |bs| ==> LinkedAt(r, bs, i))
  }

  ghost predicate Free(r: Ram, bs: seq<nat>, i: nat)
    requires Linked(r, bs) && i < |bs|
  {
    assert LinkedAt(r, bs, i);
    !At(r, bs[i]).used
  }

  /** No two adjacent blocks are free, except possibly around block m. */
  ghost predicate NoHoles(r: Ram, bs: seq<nat>, m: int)
    requires Linked(r, bs)
  {
    forall i :: 0 <= i < |bs| - 1 && i != m && i + 1 != m ==> !(Free(r, bs, i) && Free(r, bs, i + 1))
  }

  /** lfree is a free block. */
  ghost predicate LfreeOk(r: Ram, bs: seq<nat>, lfree: nat)
    requires Linked(r, bs)
  {
    exists i :: 0 <= i < |bs| && bs[i] == lfree && Free(r, bs, i)
  }

  /** Every block below lfree is used. */
  ghost predicate Lowest(r: Ram, bs: seq<nat>, lfree: nat)
    requires Linked(r, bs)
  {
    forall i :: 0 <= i < |bs| && bs[i] < lfree ==> !Free(r, bs, i)
  }

  // ----- cutting a block in two -----

  /** Block at `at` now ends at `cut`, where a free block begins that reaches to `end`. */
  ghost predicate Carved(r: Ram, r': Ram, at: nat, cut: nat, end: nat, used: bool)
    requires |r| == |r'| == MEM_SIZE + HEADER && at + HEADER <= cut && cut + HEADER <= end <= MEM_SIZE
  {
    && At(r', at) == At(r, at).(next := cut, used := used)
    && At(r', cut) == Header(end, at, false)
    && At(r', end) == (if end != MEM_SIZE then At(r, end).(prev := cut) else At(r, end))
    && (forall k :: 0 <= k < |r| && !(at <= k < at + HEADER) && !(cut <= k < cut + HEADER) && !(end <= k < end + HEADER) ==>
          r'[k] == r[k])
  }

  function Inserted(bs: seq<nat>, i: nat, x: nat): seq<nat>
    requires i < |bs|
  {
    bs[..i + 1] + [x] + bs[i + 1..]
  }

  lemma InsertedPartition(bs: seq<nat>, i: nat, x: nat)
    requires Partition(bs) && i < |bs| && x % MEM_ALIGNMENT == 0 && bs[i] + HEADER <= x && x + HEADER <= End(bs, i)
    ensures Partition(Inserted(bs, i, x))
  {
    var cs := Inserted(bs, i, x);
    forall k | 0 <= k < |cs|
      ensures cs[k] % MEM_ALIGNMENT == 0 && cs[k] + HEADER <= End(cs, k)
    {
      if k <= i {
        assert cs[k] == bs[k];
      } else if k > i + 1 {
        assert cs[k] == bs[k - 1] && bs[k - 1] + HEADER <= End(bs, k - 1);
      }
    }
  }

  /** A header that is not one of the three touched ones. */
  lemma CarvedElsewhere(r: Ram, r': Ram, at: nat, cut: nat, end: nat, used: bool, p: nat)
    requires |r| == |r'| == MEM_SIZE + HEADER && at + HEADER <= cut && cut + HEADER <= end <= MEM_SIZE
    requires Carved(r, r', at, cut, end, used) && p + HEADER <= |r|
    requires p + HEADER <= at || end + HEADER <= p
    ensures At(r', p) == At(r, p)
  {
    assert r'[p + 4..p + 8] == r[p + 4..p + 8];
  }

  /** Where a cut fits block i. */
  ghost predicate CutFits(bs: seq<nat>, i: nat, cut: nat) {
    i < |bs| && cut % MEM_ALIGNMENT == 0 && bs[i] + HEADER <= cut && cut + HEADER <= End(bs, i) <= MEM_SIZE
  }

  lemma CarvedHeader(r: Ram, r': Ram, bs: seq<nat>, i: nat, cut: nat, used: bool, k: nat)
    requires Linked(r, bs) && CutFits(bs, i, cut) && |r'| == |r|
    requires Carved(r, r', bs[i], cut, End(bs, i), used) && k < |bs|
    ensures bs[k] < MEM_SIZE
    ensures At(r', bs[k]) == if k == i then At(r, bs[k]).(next := cut, used := used)
                             else if k == i + 1 then At(r, bs[k]).(prev := cut) else At(r, bs[k])
    ensures At(r', MEM_SIZE).used
  {
    hide At, Partition;
    assert LinkedAt(r, bs, k) && LinkedAt(r, bs, i);
    if k < i {
      Ascending(bs, k, i);
      CarvedElsewhere(r, r', bs[i], cut, End(bs, i), used, bs[k]);
    } else if k > i + 1 {
      Ascending(bs, i + 1, k);
      CarvedElsewhere(r, r', bs[i], cut, End(bs, i), used, bs[k]);
    }
    if End(bs, i) != MEM_SIZE {
      EndInside(bs, i + 1);
      CarvedElsewhere(r, r', bs[i], cut, End(bs, i), used, MEM_SIZE);
    }
  }

  lemma CarvedLinkedAt(r: Ram, r': Ram, bs: seq<nat>, i: nat, cut: nat, used: bool, k: nat)
    requires Linked(r, bs) && CutFits(bs, i, cut) && |r'| == |r| && k <= |bs|
    requires Carved(r, r', bs[i], cut, End(bs, i), used)
    ensures LinkedAt(r', Inserted(bs, i, cut), k)
  {
    hide At, Partition;
    var cs := Inserted(bs, i, cut);
    if k <= i {
      assert cs[k] == bs[k] && LinkedAt(r, bs, k);
      assert k > 0 ==> cs[k - 1] == bs[k - 1];
      CarvedHeader(r, r', bs, i, cut, used, k);
    } else if k > i + 1 {
      assert cs[k] == bs[k - 1] && LinkedAt(r, bs, k - 1);
      CarvedHeader(r, r', bs, i, cut, used, k - 1);
    }
  }

  /** Cutting block i in two keeps the list linked. */
  lemma CarvedLinked(r: Ram, r': Ram, bs: seq<nat>, i: nat, cut: nat, used: bool)
    requires Linked(r, bs) && CutFits(bs, i, cut) && |r'| == |r|
    requires Carved(r, r', bs[i], cut, End(bs, i), used)
    ensures Linked(r', Inserted(bs, i, cut))
  {
    hide At, LinkedAt, Inserted;
    InsertedPartition(bs, i, cut);
    CarvedHeader(r, r', bs, i, cut, used, i);
    forall k | 0 <= k <= |bs|
      ensures LinkedAt(r', Inserted(bs, i, cut), k)
    {
      CarvedLinkedAt(r, r', bs, i, cut, used, k);
    }
    assert |Inserted(bs, i, cut)| == |bs| + 1 by { InsertedSize(bs, i, cut); }
  }

  lemma InsertedSize(bs: seq<nat>, i: nat, x: nat)
    requires i < |bs|
    ensures |Inserted(bs, i, x)| == |bs| + 1
  {
  }

  // ----- joining two blocks -----

  /** Block `at` now ends at `end`, swallowing the block in between. */
  ghost predicate Joined(r: Ram, r': Ram, at: nat, end: nat)
    requires |r| == |r'| == MEM_SIZE + HEADER && at + HEADER <= end <= MEM_SIZE
  {
    && At(r', at) == At(r, at).(next := end)
    && At(r', end) == At(r, end).(prev := at)
    && (forall k :: 0 <= k < |r| && !(at <= k < at + HEADER) && !(end <= k < end + HEADER) ==> r'[k] == r[k])
  }

  function Removed(bs: seq<nat>, i: nat): seq<nat>
    requires i < |bs|
  {
    bs[..i] + bs[i + 1..]
  }

  lemma RemovedPartition(bs: seq<nat>, i: nat)
    requires Partition(bs) && i + 1 < |bs|
    ensures Partition(Removed(bs, i + 1))
  {
    var cs := Removed(bs, i + 1);
    Ascending(bs, i, i + 1);
    forall k | 0 <= k < |cs|
      ensures cs[k] % MEM_ALIGNMENT == 0 && cs[k] + HEADER <= End(cs, k)
    {
      if k <= i {
        assert cs[k] == bs[k] && bs[k] + HEADER <= End(bs, k);
        if k == i {
          assert bs[i + 1] + HEADER <= End(bs, i + 1);
        }
      } else {
        assert cs[k] == bs[k + 1] && bs[k + 1] + HEADER <= End(bs, k + 1);
      }
    }
  }

  lemma JoinedElsewhere(r: Ram, r': Ram, at: nat, end: nat, p: nat)
    requires |r| == |r'| == MEM_SIZE + HEADER && at + HEADER <= end <= MEM_SIZE
    requires Joined(r, r', at, end) && p + HEADER <= |r|
    requires p + HEADER <= at || (at + HEADER <= p && p + HEADER <= end) || end + HEADER <= p
    ensures At(r', p) == At(r, p)
  {
    assert r'[p + 4..p + 8] == r[p + 4..p + 8];
  }

  lemma JoinedHeader(r: Ram, r': Ram, bs: seq<nat>, i: nat, k: nat)
    requires Linked(r, bs) && i + 1 < |bs| && |r'| == |r| && k < |bs| && k != i + 1
    requires bs[i] + HEADER <= End(bs, i + 1) <= MEM_SIZE && Joined(r, r', bs[i], End(bs, i + 1))
    ensures bs[k] < MEM_SIZE
    ensures At(r', bs[k]) == if k == i then At(r, bs[k]).(next := End(bs, i + 1))
                             else if k == i + 2 then At(r, bs[k]).(prev := bs[i]) else At(r, bs[k])
    ensures At(r', MEM_SIZE).used
  {
    hide At, Partition;
    assert LinkedAt(r, bs, k) && LinkedAt(r, bs, i);
    if k < i {
      Ascending(bs, k, i);
      JoinedElsewhere(r, r', bs[i], End(bs, i + 1), bs[k]);
    } else if k > i + 2 {
      Ascending(bs, i + 2, k);
      JoinedElsewhere(r, r', bs[i], End(bs, i + 1), bs[k]);
    }
    if End(bs, i + 1) != MEM_SIZE {
      EndInside(bs, i + 2);
      JoinedElsewhere(r, r', bs[i], End(bs, i + 1), MEM_SIZE);
    }
  }

  lemma JoinedLinkedAt(r: Ram, r': Ram, bs: seq<nat>, i: nat, k: nat)
    requires Linked(r, bs) && i + 1 < |bs| && |r'| == |r| && k + 1 < |bs|
    requires bs[i] + HEADER <= End(bs, i + 1) <= MEM_SIZE && Joined(r, r', bs[i], End(bs, i + 1))
    ensures LinkedAt(r', Removed(bs, i + 1), k)
  {
    hide At, Partition;
    var cs := Removed(bs, i + 1);
    var j := if k <= i then k else k + 1;
    assert cs[k] == bs[j] && LinkedAt(r, bs, j);
    assert k > 0 && k != i + 1 ==> cs[k - 1] == bs[j - 1];
    JoinedHeader(r, r', bs, i, j);
  }

  /** Joining block i with its successor keeps the list linked. */
  lemma JoinedLinked(r: Ram, r': Ram, bs: seq<nat>, i: nat)
    requires Linked(r, bs) && i + 1 < |bs| && |r'| == |r|
    requires bs[i] + HEADER <= End(bs, i + 1) <= MEM_SIZE && Joined(r, r', bs[i], End(bs, i + 1))
    ensures Linked(r', Removed(bs, i + 1))
  {
    hide At, LinkedAt;
    RemovedPartition(bs, i);
    JoinedHeader(r, r', bs, i, i);
    var cs := Removed(bs, i + 1);
    forall k | 0 <= k < |cs|
      ensures LinkedAt(r', cs, k)
    {
      JoinedLinkedAt(r, r', bs, i, k);
    }
  }

  // ----- live blocks -----

  /** The used blocks, each with its end. */
  ghost function Live(r: Ram, bs: seq<nat>): set<(nat, nat)>
    requires Linked(r, bs)
  {
    set i | 0 <= i < |bs| && !Free(r, bs, i) :: (bs[i], End(bs, i))
  }

  /** The payloads of these blocks are the same. */
  ghost predicate Untouched(r: Ram, r': Ram, blocks: set<(nat, nat)>) {
    |r| == |r'| && forall b, k :: b in blocks && b.0 + HEADER <= k < b.1 && k < |r| ==> r'[k] == r[k]
  }

  /** The payload of a block avoids every header. */
  lemma PayloadAvoids(bs: seq<nat>, i: nat, j: nat, k: nat)
    requires Partition(bs) && i < |bs| && bs[i] + HEADER <= k < End(bs, i)
    ensures j < |bs| ==> !(bs[j] <= k < bs[j] + HEADER)
    ensures k < MEM_SIZE
  {
    EndInside(bs, i);
    if j < i {
      Ascending(bs, j, i);
    } else if i < j < |bs| {
      Ascending(bs, i, j);
    }
  }

  /** Different blocks start at different offsets. */
  lemma SameBlock(bs: seq<nat>, i: nat, j: nat)
    requires Partition(bs) && i < |bs| && j < |bs| && bs[i] == bs[j]
    ensures i == j
  {
    if i != j {
      Apart(bs, i, j);
    }
  }

  lemma JoinedFree(r: Ram, r': Ram, bs: seq<nat>, i: nat, k: nat)
    requires Linked(r, bs) && i + 1 < |bs| && |r'| == |r| && k + 1 < |bs|
    requires bs[i] + HEADER <= End(bs, i + 1) <= MEM_SIZE && Joined(r, r', bs[i], End(bs, i + 1))
    requires Linked(r', Removed(bs, i + 1))
    ensures Free(r', Removed(bs, i + 1), k) == Free(r, bs, if k <= i then k else k + 1)
    ensures Removed(bs, i + 1)[k] == bs[if k <= i then k else k + 1]
    ensures k != i ==> End(Removed(bs, i + 1), k) == End(bs, if k <= i then k else k + 1)
  {
    hide At, Partition;
    JoinedHeader(r, r', bs, i, if k <= i then k else k + 1);
  }

  /** Joining two free blocks changes no live block. */
  lemma JoinedLive(r: Ram, r': Ram, bs: seq<nat>, i: nat)
    requires Linked(r, bs) && i + 1 < |bs| && |r'| == |r|
    requires bs[i] + HEADER <= End(bs, i + 1) <= MEM_SIZE && Joined(r, r', bs[i], End(bs, i + 1))
    requires Free(r, bs, i) && Free(r, bs, i + 1) && Linked(r', Removed(bs, i + 1))
    ensures Live(r', Removed(bs, i + 1)) == Live(r, bs) && Untouched(r, r', Live(r, bs))
  {
    hide At, Partition, Linked, Free, LinkedAt;
    var cs := Removed(bs, i + 1);
    forall k | 0 <= k < |cs|
      ensures Free(r', cs, k) == Free(r, bs, if k <= i then k else k + 1)
      ensures cs[k] == bs[if k <= i then k else k + 1]
      ensures k != i ==> End(cs, k) == End(bs, if k <= i then k else k + 1)
    {
      JoinedFree(r, r', bs, i, k);
    }
    forall b | b in Live(r, bs)
      ensures b in Live(r', cs)
    {
      var k :| 0 <= k < |bs| && !Free(r, bs, k) && b == (bs[k], End(bs, k));
      var j := if k <= i then k else k - 1;
      assert cs[j] == bs[k] && !Free(r', cs, j);
    }
    JoinedUntouched(r, r', bs, i);
  }

  lemma JoinedUntouched(r: Ram, r': Ram, bs: seq<nat>, i: nat)
    requires Linked(r, bs) && i + 1 < |bs| && |r'| == |r|
    requires bs[i] + HEADER <= End(bs, i + 1) <= MEM_SIZE && Joined(r, r', bs[i], End(bs, i + 1))
    ensures Untouched(r, r', Live(r, bs))
  {
    hide At, Free, LinkedAt;
    forall b, k | b in Live(r, bs) && b.0 + HEADER <= k < b.1 && k < |r|
      ensures r'[k] == r[k]
    {
      var j :| 0 <= j < |bs| && b == (bs[j], End(bs, j));
      PayloadAvoids(bs, j, i, k);
      PayloadAvoids(bs, j, i + 2, k);
    }
  }

  lemma CarvedFree(r: Ram, r': Ram, bs: seq<nat>, i: nat, cut: nat, used: bool, k: nat)
    requires Linked(r, bs) && CutFits(bs, i, cut) && |r'| == |r| && k < |bs|
    requires Carved(r, r', bs[i], cut, End(bs, i), used) && Linked(r', Inserted(bs, i, cut))
    ensures var cs, j := Inserted(bs, i, cut), if k <= i then k else k + 1;
      && cs[j] == bs[k] && Free(r', cs, j) == (if k == i then !used else Free(r, bs, k))
      && End(cs, j) == (if k == i then cut else End(bs, k))
    ensures Free(r', Inserted(bs, i, cut), i + 1) && Inserted(bs, i, cut)[i + 1] == cut
  {
    hide At, Partition;
    CarvedHeader(r, r', bs, i, cut, used, k);
    CarvedHeader(r, r', bs, i, cut, used, i);
  }

  /** Cutting a block shortens it, or makes it live, and changes no other live block. */
  lemma CarvedLive(r: Ram, r': Ram, bs: seq<nat>, i: nat, cut: nat)
    requires Linked(r, bs) && CutFits(bs, i, cut) && |r'| == |r|
    requires Carved(r, r', bs[i], cut, End(bs, i), true) && Linked(r', Inserted(bs, i, cut))
    ensures Live(r', Inserted(bs, i, cut)) == Live(r, bs) - {(bs[i], End(bs, i))} + {(bs[i], cut)}
  {
    hide At, Linked, Free, LinkedAt, Inserted;
    var cs := Inserted(bs, i, cut);
    InsertedSize(bs, i, cut);
    forall k | 0 <= k < |bs|
      ensures var j := if k <= i then k else k + 1;
        && cs[j] == bs[k] && Free(r', cs, j) == (if k == i then false else Free(r, bs, k))
        && End(cs, j) == (if k == i then cut else End(bs, k))
      ensures Free(r', cs, i + 1) && cs[i + 1] == cut
    {
      CarvedFree(r, r', bs, i, cut, true, k);
    }
    forall b | b in Live(r', cs)
      ensures b in Live(r, bs) - {(bs[i], End(bs, i))} + {(bs[i], cut)}
    {
      var j :| 0 <= j < |cs| && !Free(r', cs, j) && b == (cs[j], End(cs, j));
      var k := if j <= i then j else j - 1;
      if k != i && bs[k] == bs[i] {
        PartitionOf(r, bs);
        SameBlock(bs, k, i);
      }
    }
    forall b | b in Live(r, bs) - {(bs[i], End(bs, i))} + {(bs[i], cut)}
      ensures b in Live(r', cs)
    {
      if b == (bs[i], cut) {
        assert !Free(r', cs, i) && cs[i] == bs[i];
      } else {
        var k :| 0 <= k < |bs| && !Free(r, bs, k) && b == (bs[k], End(bs, k));
        var j := if k <= i then k else k + 1;
        assert !Free(r', cs, j) && cs[j] == bs[k];
      }
    }
  }

  lemma PartitionOf(r: Ram, bs: seq<nat>)
    requires Linked(r, bs)
    ensures Partition(bs)
  {
  }

  lemma CarvedUntouched(r: Ram, r': Ram, bs: seq<nat>, i: nat, cut: nat)
    requires Linked(r, bs) && CutFits(bs, i, cut) && |r'| == |r|
    requires Carved(r, r', bs[i], cut, End(bs, i), true)
    ensures Untouched(r, r', Live(r, bs) - {(bs[i], End(bs, i))} + {(bs[i], cut)})
  {
    hide At, Free, LinkedAt;
    forall b, k | b in Live(r, bs) - {(bs[i], End(bs, i))} + {(bs[i], cut)} && b.0 + HEADER <= k < b.1 && k < |r|
      ensures r'[k] == r[k]
    {
      if b == (bs[i], cut) {
        PayloadAvoids(bs, i, i, k);
        PayloadAvoids(bs, i, i + 1, k);
      } else {
        var j :| 0 <= j < |bs| && b == (bs[j], End(bs, j));
        PayloadAvoids(bs, j, i, k);
        PayloadAvoids(bs, j, i + 1, k);
        if j < i {
          Ascending(bs, j, i);
        } else {
          Ascending(bs, i, j);
        }
      }
    }
  }
}
