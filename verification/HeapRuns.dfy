/** Whole runs of the heap: what the owner of a block stored in it stays there whatever else
    happens (iop/SMSTCPIP/mem.c). */
module HeapRuns {
  import opened Bytes
  import opened HeapBlocks
  import opened HeapAllocator

  /** A block in someone's hands: its payload starts at p, and they have stored data there. */
  datatype Alloc = Alloc(p: nat, end: nat, data: seq<Byte>)

  datatype Op = Get(size: nat) | Release(k: nat) | Shrink(k: nat, size: nat) | Store(k: nat, bytes: seq<Byte>)

  /** The allocation is a live block and holds its data. */
  ghost predicate Holds(r: Ram, bs: seq<nat>, a: Alloc)
    requires Linked(r, bs)
  {
    && a.p >= HEADER && (a.p - HEADER, a.end) in Live(r, bs)
    && a.p + |a.data| <= a.end && a.end + HEADER <= MEM_SIZE < |r| && r[a.p..a.p + |a.data|] == a.data
  }

  /** The live blocks are exactly the allocations, which start at different places. */
  ghost predicate Owned(r: Ram, bs: seq<nat>, allocs: seq<Alloc>)
    requires Linked(r, bs)
  {
    && (forall k :: 0 <= k < |allocs| ==> Holds(r, bs, allocs[k]))
    && (forall k, l :: 0 <= k < |allocs| && 0 <= l < |allocs| && allocs[k].p == allocs[l].p ==> k == l)
    && (forall b :: b in Live(r, bs) ==> exists k :: 0 <= k < |allocs| && allocs[k].p == b.0 + HEADER)
  }

  /** Live blocks do not overlap. */
  lemma LiveApart(r: Ram, bs: seq<nat>, a: (nat, nat), b: (nat, nat))
    requires Linked(r, bs) && a in Live(r, bs) && b in Live(r, bs) && a.0 != b.0
    ensures a.1 <= b.0 || b.1 <= a.0
  {
    hide Linked, Free, Partition;
    PartitionOf(r, bs);
    var i := LiveIndex(r, bs, a.0, a.1);
    var j := LiveIndex(r, bs, b.0, b.1);
    if i < j {
      Ascending(bs, i, j);
    } else {
      Ascending(bs, j, i);
    }
  }

  /** A block has one end. */
  lemma OneEnd(r: Ram, bs: seq<nat>, at: nat, e: nat, f: nat)
    requires Linked(r, bs) && (at, e) in Live(r, bs) && (at, f) in Live(r, bs)
    ensures e == f
  {
    hide Linked, Free, Partition;
    PartitionOf(r, bs);
    var i := LiveIndex(r, bs, at, e);
    var j := LiveIndex(r, bs, at, f);
    SameBlock(bs, i, j);
  }

  /** A block whose payload is untouched and that is still live holds its data. */
  lemma StillHolds(r: Ram, bs: seq<nat>, r': Ram, cs: seq<nat>, a: Alloc)
    requires Linked(r, bs) && Linked(r', cs) && Holds(r, bs, a)
    requires (a.p - HEADER, a.end) in Live(r', cs) && Untouched(r, r', Live(r', cs))
    ensures Holds(r', cs, a)
  {
    hide Linked, Live;
    forall i | 0 <= i < |a.data|
      ensures r'[a.p + i] == a.data[i]
    {
      assert r[a.p..a.p + |a.data|][i] == a.data[i];
      var b := (a.p - HEADER, a.end);
      assert b in Live(r', cs) && b.0 + HEADER <= a.p + i < b.1;
    }
  }

  lemma AfterGet(r: Ram, bs: seq<nat>, r': Ram, cs: seq<nat>, allocs: seq<Alloc>, a: Alloc)
    requires Linked(r, bs) && Linked(r', cs) && Owned(r, bs, allocs) && Holds(r', cs, a)
    requires Live(r', cs) == Live(r, bs) + {(a.p - HEADER, a.end)} && Untouched(r, r', Live(r', cs))
    requires forall b :: b in Live(r, bs) ==> b.0 != a.p - HEADER
    ensures Owned(r', cs, allocs + [a])
  {
    hide Linked, Live, Untouched, Holds;
    var more := allocs + [a];
    forall k | 0 <= k < |allocs|
      ensures Holds(r', cs, more[k]) && allocs[k].p != a.p
    {
      HoldsLive(r, bs, allocs[k]);
      StillHolds(r, bs, r', cs, allocs[k]);
    }
    HoldsLive(r', cs, a);
    forall b | b in Live(r', cs)
      ensures exists k :: 0 <= k < |more| && more[k].p == b.0 + HEADER
    {
      if b == (a.p - HEADER, a.end) {
        assert more[|allocs|].p == b.0 + HEADER;
      } else {
        var k :| 0 <= k < |allocs| && allocs[k].p == b.0 + HEADER;
        assert more[k].p == b.0 + HEADER;
      }
    }
  }

  lemma HoldsLive(r: Ram, bs: seq<nat>, a: Alloc)
    requires Linked(r, bs) && Holds(r, bs, a)
    ensures a.p >= HEADER && (a.p - HEADER, a.end) in Live(r, bs)
  {
  }

  lemma AfterRelease(r: Ram, bs: seq<nat>, r': Ram, cs: seq<nat>, allocs: seq<Alloc>, k: nat)
    requires Linked(r, bs) && Linked(r', cs) && Owned(r, bs, allocs) && k < |allocs| && allocs[k].p >= HEADER
    requires Live(r', cs) == Live(r, bs) - {(allocs[k].p - HEADER, allocs[k].end)} && Untouched(r, r', Live(r', cs))
    ensures Owned(r', cs, allocs[..k] + allocs[k + 1..])
  {
    hide Linked, Live, Untouched, Holds;
    var less := allocs[..k] + allocs[k + 1..];
    HoldsLive(r, bs, allocs[k]);
    forall j | 0 <= j < |less|
      ensures Holds(r', cs, less[j])
    {
      var l := if j < k then j else j + 1;
      HoldsLive(r, bs, allocs[l]);
      StillHolds(r, bs, r', cs, allocs[l]);
    }
    forall b | b in Live(r', cs)
      ensures exists j :: 0 <= j < |less| && less[j].p == b.0 + HEADER
    {
      var l :| 0 <= l < |allocs| && allocs[l].p == b.0 + HEADER;
      if l == k {
        OneEnd(r, bs, b.0, b.1, allocs[k].end);
      }
      assert less[if l < k then l else l - 1].p == b.0 + HEADER;
    }
  }

  lemma AfterShrink(r: Ram, bs: seq<nat>, r': Ram, cs: seq<nat>, allocs: seq<Alloc>, k: nat, a: Alloc)
    requires Linked(r, bs) && Linked(r', cs) && Owned(r, bs, allocs) && k < |allocs| && allocs[k].p >= HEADER
    requires Live(r', cs) == Live(r, bs) - {(allocs[k].p - HEADER, allocs[k].end)} + {(a.p - HEADER, a.end)}
    requires Untouched(r, r', Live(r', cs)) && Holds(r', cs, a) && a.p == allocs[k].p
    ensures Owned(r', cs, allocs[k := a])
  {
    hide Linked, Live, Untouched, Holds;
    var now := allocs[k := a];
    forall j | 0 <= j < |now|
      ensures Holds(r', cs, now[j])
    {
      if j != k {
        HoldsLive(r, bs, allocs[j]);
        StillHolds(r, bs, r', cs, allocs[j]);
      }
    }
    forall b | b in Live(r', cs)
      ensures exists j :: 0 <= j < |now| && now[j].p == b.0 + HEADER
    {
      if b == (a.p - HEADER, a.end) {
        assert now[k].p == b.0 + HEADER;
      } else {
        var l :| 0 <= l < |allocs| && allocs[l].p == b.0 + HEADER;
        assert now[l].p == b.0 + HEADER;
      }
    }
  }

  // ----- the owner stores into a block -----

  /** Bytes written at p. */
  function Over(r: Ram, p: nat, bytes: seq<Byte>): Ram
    requires p + |bytes| <= |r|
  {
    r[..p] + bytes + r[p + |bytes|..]
  }

  /** A store inside a payload changes no header. */
  lemma StoreKeepsLinks(r: Ram, bs: seq<nat>, at: nat, end: nat, p: nat, bytes: seq<Byte>)
    requires Linked(r, bs) && (at, end) in Live(r, bs) && at + HEADER <= p && p + |bytes| <= end <= |r|
    ensures Linked(Over(r, p, bytes), bs) && Live(Over(r, p, bytes), bs) == Live(r, bs)
    ensures forall k :: 0 <= k < |bs| ==> Free(Over(r, p, bytes), bs, k) == Free(r, bs, k)
  {
    var r' := Over(r, p, bytes);
    hide At, Live, LinkedAt;
    var i := LiveIndex(r, bs, at, end);
    forall k | 0 <= k < |bs|
      ensures LinkedAt(r, bs, k) && LinkedAt(r', bs, k) && At(r', bs[k]).used == At(r, bs[k]).used
    {
      StoreKeepsHeader(r, bs, i, p, bytes, k);
    }
    StoreKeepsEnd(r, bs, i, p, bytes);
    SameLive(r, r', bs);
  }

  lemma SameLive(r: Ram, r': Ram, bs: seq<nat>)
    requires Linked(r, bs) && Linked(r', bs)
    requires forall k :: 0 <= k < |bs| ==> LinkedAt(r, bs, k) && LinkedAt(r', bs, k) && At(r', bs[k]).used == At(r, bs[k]).used
    ensures Live(r', bs) == Live(r, bs) && forall k :: 0 <= k < |bs| ==> Free(r', bs, k) == Free(r, bs, k)
  {
    hide Linked, At, LinkedAt;
    forall k | 0 <= k < |bs|
      ensures Free(r', bs, k) == Free(r, bs, k)
    {
      assert LinkedAt(r, bs, k) && LinkedAt(r', bs, k);
    }
  }

  lemma StoreKeepsHeader(r: Ram, bs: seq<nat>, i: nat, p: nat, bytes: seq<Byte>, k: nat)
    requires Linked(r, bs) && i < |bs| && bs[i] + HEADER <= p && p + |bytes| <= End(bs, i) <= |r| && k < |bs|
    ensures LinkedAt(r, bs, k) && LinkedAt(Over(r, p, bytes), bs, k)
    ensures At(Over(r, p, bytes), bs[k]).used == At(r, bs[k]).used
  {
    hide At, Partition;
    assert LinkedAt(r, bs, k);
    if k < i {
      Ascending(bs, k, i);
    } else if i < k {
      Ascending(bs, i, k);
    }
    HeaderOutside(r, p, bytes, bs[k]);
  }

  lemma HeaderOutside(r: Ram, p: nat, bytes: seq<Byte>, o: nat)
    requires p + |bytes| <= |r| && o + HEADER <= |r| && (o + HEADER <= p || p + |bytes| <= o)
    ensures |Over(r, p, bytes)| == |r| && At(Over(r, p, bytes), o) == At(r, o)
  {
    assert Over(r, p, bytes)[o + 4..o + 8] == r[o + 4..o + 8];
  }

  lemma StoreKeepsEnd(r: Ram, bs: seq<nat>, i: nat, p: nat, bytes: seq<Byte>)
    requires Linked(r, bs) && i < |bs| && bs[i] + HEADER <= p && p + |bytes| <= End(bs, i) <= |r|
    ensures |Over(r, p, bytes)| == |r| && At(Over(r, p, bytes), MEM_SIZE).used == At(r, MEM_SIZE).used
  {
    hide At;
    EndInside(bs, i);
    HeaderOutside(r, p, bytes, MEM_SIZE);
  }

  /** A block found by the fit test was not live. */
  lemma FoundIsNew(r: Ram, bs: seq<nat>, lfree: nat, size: nat, at: nat)
    requires Linked(r, bs) && FirstFit(r, bs, lfree, size, at)
    ensures forall b :: b in Live(r, bs) ==> b.0 != at
  {
    hide Linked, Free, Live;
    var i :| 0 <= i < |bs| && bs[i] == at && Fits(r, bs, i, size);
    forall b | b in Live(r, bs)
      ensures b.0 != at
    {
      var j := LiveIndex(r, bs, b.0, b.1);
      if b.0 == at {
        PartitionOf(r, bs);
        SameBlock(bs, i, j);
      }
    }
  }

  /** Storing into allocation k leaves every other allocation as it was. */
  lemma AfterStore(r: Ram, bs: seq<nat>, allocs: seq<Alloc>, k: nat, bytes: seq<Byte>)
    requires Linked(r, bs) && Owned(r, bs, allocs) && k < |allocs| && |bytes| <= |allocs[k].data|
    ensures var a := allocs[k];
      && a.p + |bytes| <= |r| && Linked(Over(r, a.p, bytes), bs)
      && Owned(Over(r, a.p, bytes), bs, allocs[k := a.(data := bytes + a.data[|bytes|..])])
  {
    hide Linked, Live, Holds;
    var a := allocs[k];
    var now := allocs[k := a.(data := bytes + a.data[|bytes|..])];
    HoldsInside(r, bs, a);
    var r' := Over(r, a.p, bytes);
    StoreKeepsLinks(r, bs, a.p - HEADER, a.end, a.p, bytes);
    forall j | 0 <= j < |now|
      ensures Holds(r', bs, now[j])
    {
      StoreHolds(r, bs, a, bytes, allocs[j]);
      if j == k {
        StoreHeld(r, bs, a, bytes);
      }
    }
    forall b | b in Live(r', bs)
      ensures exists j :: 0 <= j < |now| && now[j].p == b.0 + HEADER
    {
      var j :| 0 <= j < |allocs| && allocs[j].p == b.0 + HEADER;
      assert now[j].p == b.0 + HEADER;
    }
  }

  lemma HoldsInside(r: Ram, bs: seq<nat>, a: Alloc)
    requires Linked(r, bs) && Holds(r, bs, a)
    ensures a.p >= HEADER && (a.p - HEADER, a.end) in Live(r, bs) && a.p + |a.data| <= a.end && a.end + HEADER <= MEM_SIZE < |r|
  {
  }

  lemma StoreHeld(r: Ram, bs: seq<nat>, a: Alloc, bytes: seq<Byte>)
    requires Linked(r, bs) && Holds(r, bs, a) && |bytes| <= |a.data| && Linked(Over(r, a.p, bytes), bs)
    requires Live(Over(r, a.p, bytes), bs) == Live(r, bs)
    ensures Holds(Over(r, a.p, bytes), bs, a.(data := bytes + a.data[|bytes|..]))
  {
    hide Linked, Live;
  }

  lemma StoreHolds(r: Ram, bs: seq<nat>, a: Alloc, bytes: seq<Byte>, c: Alloc)
    requires Linked(r, bs) && Holds(r, bs, a) && |bytes| <= |a.data| && Linked(Over(r, a.p, bytes), bs)
    requires Live(Over(r, a.p, bytes), bs) == Live(r, bs) && Holds(r, bs, c)
    ensures c.p != a.p ==> Holds(Over(r, a.p, bytes), bs, c)
  {
    hide Linked, Live;
    if c.p != a.p {
      LiveApart(r, bs, (a.p - HEADER, a.end), (c.p - HEADER, c.end));
    }
  }

  /** What is left of the data of allocation k after an operation that does not move it. */
  function Prefix(data: seq<Byte>, n: nat): seq<Byte> {
    if n < |data| then data[..n] else data
  }

  ghost predicate InOrder(h: Heap, allocs: seq<Alloc>)
    reads h, h.ram
  {
    h.Valid() && Owned(h.ram[..], h.bs, allocs)
  }

  /** The heap and the allocations at one moment of a run. */
  datatype Moment = Moment(ram: Ram, bs: seq<nat>, lfree: nat, allocs: seq<Alloc>)

  ghost function Now(h: Heap, allocs: seq<Alloc>): Moment
    reads h, h.ram
  {
    Moment(h.ram[..], h.bs, h.lfree, allocs)
  }

  /** What the 16-bit rounding leaves of a size. */
  function Effective(size: nat): nat {
    if size <= 65532 then size else 0
  }

  /** A request is granted exactly when a block from lfree on fits, and gets the first of them. */
  ghost predicate Got(s: Moment, next: seq<Alloc>, size: nat) {
    && Linked(s.ram, s.bs)
    && (next == s.allocs <==> size == 0 || Aligned(size) > MEM_SIZE || !SomeFit(s.ram, s.bs, s.lfree, Aligned(size)))
    && (next != s.allocs ==>
          && |next| == |s.allocs| + 1 && next[..|s.allocs|] == s.allocs && |next[|s.allocs|].data| == Effective(size)
          && FirstFit(s.ram, s.bs, s.lfree, Aligned(size), next[|s.allocs|].p as int - HEADER))
  }

  /** mem_malloc. */
  method DoGet(h: Heap, allocs: seq<Alloc>, size: nat) returns (next: seq<Alloc>)
    requires InOrder(h, allocs) && size < 0x10000
    modifies h, h.ram
    ensures InOrder(h, next) && (old(h.LowestFree()) ==> h.LowestFree())
    ensures Got(old(Now(h, allocs)), next, size)
  {
    hide Linked, Live, Untouched, NoHoles, LfreeOk, Lowest, Owned, Aligned, FirstFit, SomeFit;
    next := allocs;
    ghost var r, cs, l := h.ram[..], h.bs, h.lfree;
    AlignedExact(size);
    var ok, p := h.Malloc(size);
    if ok {
      var n := Effective(size);
      var a := Alloc(p, p + Aligned(size), h.ram[p..p + n]);
      assert h.ram[..][p..p + n] == h.ram[p..p + n];
      FoundIsNew(r, cs, l, Aligned(size), p - HEADER);
      AfterGet(r, cs, h.ram[..], h.bs, allocs, a);
      next := allocs + [a];
    } else {
      assert h.ram[..] == r;
    }
  }

  method DoRelease(h: Heap, allocs: seq<Alloc>, k: nat) returns (next: seq<Alloc>)
    requires InOrder(h, allocs) && k < |allocs|
    modifies h, h.ram
    ensures InOrder(h, next) && (old(h.LowestFree()) ==> h.LowestFree())
    ensures next == allocs[..k] + allocs[k + 1..]
  {
    hide Linked, Live, Untouched, NoHoles, LfreeOk, Lowest, Owned;
    ghost var r, cs := h.ram[..], h.bs;
    OwnedAt(r, cs, allocs, k);
    h.MemFree(allocs[k].p, allocs[k].end);
    AfterRelease(r, cs, h.ram[..], h.bs, allocs, k);
    next := allocs[..k] + allocs[k + 1..];
  }

  lemma OwnedAt(r: Ram, bs: seq<nat>, allocs: seq<Alloc>, k: nat)
    requires Linked(r, bs) && Owned(r, bs, allocs) && k < |allocs|
    ensures Holds(r, bs, allocs[k]) && allocs[k].p < MEM_SIZE
    ensures allocs[k].p >= HEADER && (allocs[k].p - HEADER, allocs[k].end) in Live(r, bs)
  {
    hide Linked, Live, Free;
    assert Holds(r, bs, allocs[k]);
  }

  /** mem_realloc. A block is never grown or moved. */
  method DoShrink(h: Heap, allocs: seq<Alloc>, k: nat, size: nat) returns (next: seq<Alloc>)
    requires InOrder(h, allocs) && k < |allocs| && size < 0x10000
    modifies h, h.ram
    ensures InOrder(h, next) && |next| == |allocs|
    ensures next[k].p == allocs[k].p && next[k].data == Prefix(allocs[k].data, Effective(size))
    ensures forall j :: 0 <= j < |allocs| && j != k ==> next[j] == allocs[j]
  {
    hide Linked, Live, Untouched, NoHoles, LfreeOk, Lowest, Owned, Aligned, Holds;
    ghost var r, cs := h.ram[..], h.bs;
    OwnedAt(r, cs, allocs, k);
    AlignedExact(size);
    var a := allocs[k];
    var _ := h.Realloc(a.p, size, a.end);
    var cut := a.(data := Prefix(a.data, Effective(size)));
    if Shrinks(a.p, size, a.end) {
      cut := cut.(end := a.p + Aligned(size));
      ShrunkHolds(r, cs, h.ram[..], h.bs, a, size);
    } else {
      PrefixHolds(r, cs, a, Effective(size));
    }
    next := allocs[k := cut];
    if Shrinks(a.p, size, a.end) {
      AfterShrink(r, cs, h.ram[..], h.bs, allocs, k, cut);
    } else {
      Unmoved(r, Live(r, cs));
      AfterShrink(r, cs, r, cs, allocs, k, cut);
    }
  }

  lemma PrefixHolds(r: Ram, bs: seq<nat>, a: Alloc, n: nat)
    requires Linked(r, bs) && Holds(r, bs, a)
    ensures Holds(r, bs, a.(data := Prefix(a.data, n)))
    ensures Live(r, bs) == Live(r, bs) - {(a.p - HEADER, a.end)} + {(a.p - HEADER, a.end)}
  {
    hide Linked, Live;
    if n < |a.data| {
      assert r[a.p..a.p + n] == r[a.p..a.p + |a.data|][..n];
    }
  }

  lemma ShrunkHolds(r: Ram, bs: seq<nat>, r': Ram, cs: seq<nat>, a: Alloc, size: nat)
    requires Linked(r, bs) && Linked(r', cs) && Holds(r, bs, a) && Effective(size) <= Aligned(size) && a.p + Aligned(size) <= a.end
    requires (a.p - HEADER, a.p + Aligned(size)) in Live(r', cs) && Untouched(r, r', Live(r', cs))
    ensures Holds(r', cs, a.(data := Prefix(a.data, Effective(size)), end := a.p + Aligned(size)))
  {
    hide Linked, Live, Aligned;
    var d := Prefix(a.data, Effective(size));
    var b := (a.p - HEADER, a.p + Aligned(size));
    forall i | 0 <= i < |d|
      ensures r'[a.p + i] == d[i]
    {
      assert r[a.p..a.p + |a.data|][i] == a.data[i];
      assert b in Live(r', cs) && b.0 + HEADER <= a.p + i < b.1;
    }
    LinkedSize(r', cs);
  }

  lemma LinkedSize(r: Ram, bs: seq<nat>)
    requires Linked(r, bs)
    ensures |r| == MEM_SIZE + HEADER
  {
  }

  /** The owner writes into its block. */
  method DoStore(h: Heap, allocs: seq<Alloc>, k: nat, bytes: seq<Byte>) returns (next: seq<Alloc>)
    requires InOrder(h, allocs) && k < |allocs| && |bytes| <= |allocs[k].data|
    modifies h.ram
    ensures InOrder(h, next) && (old(h.LowestFree()) ==> h.LowestFree())
    ensures next == allocs[k := allocs[k].(data := bytes + allocs[k].data[|bytes|..])]
  {
    hide Linked, Live, Untouched, NoHoles, LfreeOk, Lowest, Owned, Holds;
    ghost var r := h.ram[..];
    AfterStore(r, h.bs, allocs, k, bytes);
    OwnedAt(r, h.bs, allocs, k);
    HoldsInside(r, h.bs, allocs[k]);
    StoreKeepsValid(r, h.bs, allocs[k].p - HEADER, allocs[k].end, allocs[k].p, bytes, h.lfree);
    var p := allocs[k].p;
    forall i | 0 <= i < |bytes| {
      h.ram[p + i] := bytes[i];
    }
    assert h.ram[..] == Over(r, p, bytes);
    next := allocs[k := allocs[k].(data := bytes + allocs[k].data[|bytes|..])];
  }

  lemma StoreKeepsValid(r: Ram, bs: seq<nat>, at: nat, end: nat, p: nat, bytes: seq<Byte>, lfree: nat)
    requires Linked(r, bs) && (at, end) in Live(r, bs) && at + HEADER <= p && p + |bytes| <= end <= |r|
    requires NoHoles(r, bs, NONE) && LfreeOk(r, bs, lfree)
    ensures var r' := Over(r, p, bytes);
      && Linked(r', bs) && NoHoles(r', bs, NONE) && LfreeOk(r', bs, lfree)
      && (Lowest(r, bs, lfree) ==> Lowest(r', bs, lfree))
  {
    hide Linked, Live, Free;
    StoreKeepsLinks(r, bs, at, end, p, bytes);
    var l :| 0 <= l < |bs| && bs[l] == lfree && Free(r, bs, l);
    assert Free(Over(r, p, bytes), bs, l);
  }

  /** One operation of a run; operations on allocations that do not exist do nothing. */
  method Perform(h: Heap, allocs: seq<Alloc>, op: Op) returns (next: seq<Alloc>)
    requires InOrder(h, allocs) && Legal(op)
    modifies h, h.ram
    ensures InOrder(h, next) && Step(op, old(Now(h, allocs)), Now(h, next))
    ensures old(h.LowestFree()) && !op.Shrink? ==> h.LowestFree()
  {
    hide InOrder, Got;
    next := allocs;
    match op
    case Get(size) =>
      next := DoGet(h, allocs, size);
    case Release(k) =>
      if k < |allocs| {
        next := DoRelease(h, allocs, k);
      }
    case Shrink(k, size) =>
      if k < |allocs| {
        next := DoShrink(h, allocs, k, size);
      }
    case Store(k, bytes) =>
      if k < |allocs| && |bytes| <= |allocs[k].data| {
        next := DoStore(h, allocs, k, bytes);
      }
  }

  predicate Legal(op: Op) {
    (op.Get? || op.Shrink?) ==> op.size < 0x10000
  }

  /** What an operation does to the allocations. */
  ghost predicate Step(op: Op, s: Moment, n: Moment) {
    var allocs, next := s.allocs, n.allocs;
    match op
    case Get(size) => Got(s, next, size)
    case Release(k) => next == if k < |allocs| then allocs[..k] + allocs[k + 1..] else allocs
    case Shrink(k, size) =>
      if k < |allocs| then
        |next| == |allocs| && next[k].p == allocs[k].p && next[k].data == Prefix(allocs[k].data, Effective(size))
        && forall j :: 0 <= j < |allocs| && j != k ==> next[j] == allocs[j]
      else next == allocs
    case Store(k, bytes) =>
      next == if k < |allocs| && |bytes| <= |allocs[k].data|
              then allocs[k := allocs[k].(data := bytes + allocs[k].data[|bytes|..])] else allocs
  }

  ghost predicate IsRun(ops: seq<Op>, trace: seq<Moment>) {
    |trace| == |ops| + 1 && forall i :: 0 <= i < |ops| ==> Step(ops[i], trace[i], trace[i + 1])
  }

  /** Any run of allocations, releases, shrinks and stores: the live blocks are exactly the
      allocations, disjoint, and each holds what its owner stored; without shrinks, lfree is
      the lowest free block. */
  method Run(h: Heap, allocs0: seq<Alloc>, ops: seq<Op>) returns (allocs: seq<Alloc>, ghost trace: seq<Moment>)
    requires InOrder(h, allocs0) && forall i :: 0 <= i < |ops| ==> Legal(ops[i])
    modifies h, h.ram
    ensures InOrder(h, allocs) && IsRun(ops, trace) && trace[0] == old(Now(h, allocs0)) && trace[|ops|] == Now(h, allocs)
    ensures old(h.LowestFree()) && (forall i :: 0 <= i < |ops| ==> !ops[i].Shrink?) ==> h.LowestFree()
  {
    hide Linked, Step, Owned, Lowest, NoHoles, LfreeOk;
    allocs := allocs0;
    trace := [Now(h, allocs)];
    for n := 0 to |ops|
      invariant InOrder(h, allocs) && IsRun(ops[..n], trace) && trace[0] == old(Now(h, allocs0)) && trace[n] == Now(h, allocs)
      invariant old(h.LowestFree()) && (forall i :: 0 <= i < n ==> !ops[i].Shrink?) ==> h.LowestFree()
    {
      var next := Perform(h, allocs, ops[n]);
      assert ops[..n + 1] == ops[..n] + [ops[n]];
      allocs := next;
      trace := trace + [Now(h, allocs)];
    }
    assert ops[..|ops|] == ops;
  }
}
