/** A run of the heap after which room below lfree is not found (iop/SMSTCPIP/mem.c). */
module HeapWitness {
  import opened Bytes
  import opened HeapBlocks
  import opened HeapAllocator

  /** The live blocks decide the layout: a block is live or free, and behind a free block comes
      a live one. */
  lemma BlockIs(r: Ram, bs: seq<nat>, i: nat)
    requires Linked(r, bs) && NoHoles(r, bs, NONE) && i < |bs|
    ensures Free(r, bs, i) <==> (bs[i], End(bs, i)) !in Live(r, bs)
    ensures Free(r, bs, i) && i + 1 < |bs| ==> (bs[i + 1], End(bs, i + 1)) in Live(r, bs)
    ensures bs[0] == 0 && bs[i] + HEADER <= End(bs, i) <= MEM_SIZE && (i > 0 ==> bs[i] == End(bs, i - 1))
  {
    hide Linked, Free, Partition;
    if Free(r, bs, i) {
      FreeIsDead(r, bs, i);
    }
    PartitionOf(r, bs);
    PartitionStart(bs);
    EndInside(bs, i);
    if i > 0 {
      EndInside(bs, i - 1);
    }
  }

  lemma PartitionStart(bs: seq<nat>)
    requires Partition(bs)
    ensures |bs| > 0 && bs[0] == 0
  {
  }

  /** Blocks with the same start have the same end. */
  lemma LiveEnd(r: Ram, bs: seq<nat>, i: nat, at: nat, end: nat)
    requires Linked(r, bs) && i < |bs| && (at, end) in Live(r, bs) && bs[i] == at
    ensures End(bs, i) == end
  {
    hide Linked, Free, Partition, Live;
    var j := LiveIndex(r, bs, at, end);
    PartitionOf(r, bs);
    SameBlock(bs, i, j);
  }

  lemma Layout1(r: Ram, bs: seq<nat>)
    requires Linked(r, bs) && NoHoles(r, bs, NONE) && Live(r, bs) == {(0, 5008)}
    ensures bs == [0, 5008] && Free(r, bs, 1) && !Free(r, bs, 0)
  {
    hide Linked, Free, Partition, Live, NoHoles;
    PartitionOf(r, bs);
    PartitionStart(bs);
    BlockIs(r, bs, 0);
    LiveEnd(r, bs, 0, 0, 5008);
    BlockIs(r, bs, 1);
    if |bs| > 2 {
      BlockIs(r, bs, 2);
    }
  }

  lemma Layout2(r: Ram, bs: seq<nat>)
    requires Linked(r, bs) && NoHoles(r, bs, NONE) && Live(r, bs) == {(0, 5008), (5008, 8184)}
    ensures bs == [0, 5008, 8184] && Free(r, bs, 2) && !Free(r, bs, 0) && !Free(r, bs, 1)
  {
    hide Linked, Free, Partition, Live, NoHoles;
    PartitionOf(r, bs);
    PartitionStart(bs);
    BlockIs(r, bs, 0);
    LiveEnd(r, bs, 0, 0, 5008);
    BlockIs(r, bs, 1);
    LiveEnd(r, bs, 1, 5008, 8184);
    BlockIs(r, bs, 2);
    if |bs| > 3 {
      BlockIs(r, bs, 3);
    }
  }

  lemma Layout3(r: Ram, bs: seq<nat>)
    requires Linked(r, bs) && NoHoles(r, bs, NONE) && Live(r, bs) == {(0, 108), (5008, 8184)}
    ensures bs == [0, 108, 5008, 8184] && Free(r, bs, 1) && Free(r, bs, 3) && !Free(r, bs, 0) && !Free(r, bs, 2)
  {
    hide Linked, Free, Partition, Live, NoHoles;
    PartitionOf(r, bs);
    PartitionStart(bs);
    BlockIs(r, bs, 0);
    LiveEnd(r, bs, 0, 0, 108);
    BlockIs(r, bs, 1);
    if |bs| > 2 {
      BlockIs(r, bs, 2);
      LiveEnd(r, bs, 2, 5008, 8184);
      BlockIs(r, bs, 3);
      if |bs| > 4 {
        BlockIs(r, bs, 4);
      }
    } else {
      var j := LiveIndex(r, bs, 5008, 8184);
    }
  }

  /** lfree is one of the free blocks. */
  lemma LfreeIs(r: Ram, bs: seq<nat>, lfree: nat)
    requires Linked(r, bs) && LfreeOk(r, bs, lfree)
    ensures exists i :: 0 <= i < |bs| && bs[i] == lfree && Free(r, bs, i)
  {
  }

  /** Two allocations fill the heap, the first block is shrunk, and a request that would fit into
      the room this makes fails: lfree lies behind it. */
  method ShrinkHidesRoom() returns (h: Heap, ok: bool)
    ensures h.Valid() && !ok && SomeFit(h.ram[..], h.bs, 0, 1000)
  {
    hide Linked, Free, Partition, Live, NoHoles, LfreeOk, Lowest, Untouched;
    h := new Heap();
    var p, q;
    LfreeIs(h.ram[..], h.bs, h.lfree);
    assert Fits(h.ram[..], h.bs, 0, 5000);
    ok, p := h.Malloc(5000);
    Layout1(h.ram[..], h.bs);
    LfreeIs(h.ram[..], h.bs, h.lfree);
    assert Fits(h.ram[..], h.bs, 1, 3168) && h.lfree == 5008;
    ok, q := h.Malloc(3168);
    assert q == 5016 && h.Valid();
    assert {(0, 5008)} + {(5008, 8184)} == {(0, 5008), (5008, 8184)};
    Layout2(h.ram[..], h.bs);
    LfreeIs(h.ram[..], h.bs, h.lfree);
    ok := h.Realloc(p, 100, 5008);
    Layout3(h.ram[..], h.bs);
    LfreeIs(h.ram[..], h.bs, h.lfree);
    IfLowest(h.ram[..], h.bs, h.lfree);
    assert Fits(h.ram[..], h.bs, 1, 1000) && !Fits(h.ram[..], h.bs, 3, 1000);
    ok, q := h.Malloc(1000);
  }

  lemma IfLowest(r: Ram, bs: seq<nat>, lfree: nat)
    requires Linked(r, bs) && bs == [0, 108, 5008, 8184] && !Free(r, bs, 0) && !Lowest(r, bs, lfree)
    ensures lfree != 108
  {
    hide Linked, Free;
  }
}
