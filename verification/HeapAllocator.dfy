/** The first-fit coalescing heap (iop/SMSTCPIP/mem.c). */
module HeapAllocator {
  import opened Bytes
  import opened HeapBlocks

  /** No block is excepted. */
  const NONE := -2

  /** The rounded size, in 16 bits. */
  function Aligned(size: nat): nat {
    if size % MEM_ALIGNMENT != 0
    then (size + MEM_ALIGNMENT - (size + HEADER) % MEM_ALIGNMENT) % 0x10000
    else size
  }

  /** Rounding up gives at least the requested size exactly for sizes up to 65532; the three
      sizes above wrap around to nothing. */
  lemma AlignedExact(size: nat)
    requires size < 0x10000
    ensures Aligned(size) % MEM_ALIGNMENT == 0
    ensures Aligned(size) >= size <==> size <= 65532
    ensures size <= 65532 ==> Aligned(size) < size + MEM_ALIGNMENT
    ensures size > 65532 ==> Aligned(size) == 0
  {
    assert (size + HEADER) % MEM_ALIGNMENT == size % MEM_ALIGNMENT;
    var q := size / MEM_ALIGNMENT;
    assert size == MEM_ALIGNMENT * q + size % MEM_ALIGNMENT;
    if size % MEM_ALIGNMENT != 0 {
      assert size + MEM_ALIGNMENT - (size + HEADER) % MEM_ALIGNMENT == MEM_ALIGNMENT * (q + 1);
    }
  }

  /** The fit test of mem_malloc: room for the payload and for the header of the rest. */
  ghost predicate Fits(r: Ram, bs: seq<nat>, i: nat, size: nat)
    requires Linked(r, bs) && i < |bs|
  {
    Free(r, bs, i) && End(bs, i) - (bs[i] + HEADER) >= size + HEADER
  }

  // ----- the used flag -----

  lemma MarkedHeader(r: Ram, bs: seq<nat>, i: nat, k: nat)
    requires Linked(r, bs) && i < |bs| && k < |bs|
    ensures LinkedAt(r, bs, i) && LinkedAt(PutUsed(r, bs[i], false), bs, k)
    ensures var r' := PutUsed(r, bs[i], false);
      At(r', bs[k]).used == (At(r, bs[k]).used && k != i) && At(r', MEM_SIZE) == At(r, MEM_SIZE)
  {
    hide At, Partition, PutUsed;
    assert LinkedAt(r, bs, k) && LinkedAt(r, bs, i);
    PutReads(r, bs[i], 0, false);
    if k != i {
      Apart(bs, i, k);
      OtherHeader(r, PutUsed(r, bs[i], false), bs[i], bs[k]);
    }
    EndInside(bs, i);
    OtherHeader(r, PutUsed(r, bs[i], false), bs[i], MEM_SIZE);
  }

  /** Marking block i free removes it from the live blocks and touches no payload. */
  lemma Marked(r: Ram, bs: seq<nat>, i: nat)
    requires Linked(r, bs) && i < |bs|
    ensures bs[i] < MEM_SIZE
    ensures var r' := PutUsed(r, bs[i], false);
      && Linked(r', bs) && (forall k :: 0 <= k < |bs| ==> Free(r', bs, k) == (Free(r, bs, k) || k == i))
      && Live(r', bs) == Live(r, bs) - {(bs[i], End(bs, i))} && Untouched(r, r', Live(r, bs))
  {
    hide At, PutUsed;
    assert LinkedAt(r, bs, i);
    var r' := PutUsed(r, bs[i], false);
    MarkedHeader(r, bs, i, i);
    PutReads(r, bs[i], 0, false);
    forall k | 0 <= k < |bs|
      ensures LinkedAt(r', bs, k) && At(r', bs[k]).used == (At(r, bs[k]).used && k != i)
    {
      MarkedHeader(r, bs, i, k);
    }
    MarkedLive(r, r', bs, i);
    forall b, k | b in Live(r, bs) && b.0 + HEADER <= k < b.1 && k < |r|
      ensures r'[k] == r[k]
    {
      var j :| 0 <= j < |bs| && b == (bs[j], End(bs, j));
      PayloadAvoids(bs, j, i, k);
    }
  }

  lemma MarkedLive(r: Ram, r': Ram, bs: seq<nat>, i: nat)
    requires Linked(r, bs) && Linked(r', bs) && i < |bs|
    requires forall k :: 0 <= k < |bs| ==> Free(r', bs, k) == (Free(r, bs, k) || k == i)
    ensures Live(r', bs) == Live(r, bs) - {(bs[i], End(bs, i))}
  {
    hide Linked, Free, Partition;
    PartitionOf(r, bs);
    forall b | b in Live(r', bs)
      ensures b in Live(r, bs) && b != (bs[i], End(bs, i))
    {
      var k :| 0 <= k < |bs| && !Free(r', bs, k) && b == (bs[k], End(bs, k));
      if bs[k] == bs[i] {
        SameBlock(bs, k, i);
      }
    }
  }

  class Heap {
    const ram: array<Byte>
    var lfree: nat

    /** Offsets of the blocks. */
    ghost var bs: seq<nat>

    ghost predicate Shaped()
      reads this, ram
    {
      ram.Length == MEM_SIZE + HEADER && Linked(ram[..], bs)
    }

    /** The blocks partition the heap, no two adjacent ones are free, and lfree is free. */
    ghost predicate Valid()
      reads this, ram
    {
      Shaped() && NoHoles(ram[..], bs, NONE) && LfreeOk(ram[..], bs, lfree)
    }

    ghost predicate LowestFree()
      requires Shaped()
      reads this, ram
    {
      Lowest(ram[..], bs, lfree)
    }

    method SetNext(o: nat, v: nat)
      requires o + HEADER <= ram.Length && v < 0x10000
      modifies ram
      ensures ram[..] == PutNext(old(ram[..]), o, v)
    {
      ram[o], ram[o + 1] := v % 256, (v / 256) % 256;
    }

    method SetPrev(o: nat, v: nat)
      requires o + HEADER <= ram.Length && v < 0x10000
      modifies ram
      ensures ram[..] == PutPrev(old(ram[..]), o, v)
    {
      ram[o + 2], ram[o + 3] := v % 256, (v / 256) % 256;
    }

    method SetUsed(o: nat, u: bool)
      requires o + HEADER <= ram.Length
      modifies ram
      ensures ram[..] == PutUsed(old(ram[..]), o, u)
    {
      ram[o + 4], ram[o + 5], ram[o + 6], ram[o + 7] := if u then 1 else 0, 0, 0, 0;
    }

    method GetHeader(o: nat) returns (h: Header)
      requires o + HEADER <= ram.Length
      ensures h == At(ram[..], o)
    {
      h := Header(ram[o] as int + 256 * (ram[o + 1] as int), ram[o + 2] as int + 256 * (ram[o + 3] as int),
                  ram[o + 4..o + 8] != [0, 0, 0, 0]);
      assert ram[..][o + 4..o + 8] == ram[o + 4..o + 8];
    }

    /** mem_init. */
    constructor ()
      ensures Valid() && LowestFree() && fresh(ram) && bs == [0] && Live(ram[..], bs) == {}
    {
      ram := new Byte[MEM_SIZE + HEADER](_ => 0);
      lfree := 0;
      bs := [0];
      new;
      SetNext(0, MEM_SIZE);
      SetUsed(MEM_SIZE, true);
      SetNext(MEM_SIZE, MEM_SIZE);
      SetPrev(MEM_SIZE, MEM_SIZE);
      assert ram[..][4..8] == [0, 0, 0, 0] && ram[..][MEM_SIZE + 4..MEM_SIZE + 8] == [1, 0, 0, 0];
      assert LinkedAt(ram[..], bs, 0);
      assert Free(ram[..], bs, 0) && bs[0] == 0;
    }

    /** The two stores of plug_holes that join block `a` with its free successor b. */
    method Join(a: nat, b: nat, ghost i: nat)
      requires Shaped() && i + 1 < |bs| && bs[i] == a && bs[i + 1] == b
      requires Free(ram[..], bs, i) && Free(ram[..], bs, i + 1)
      modifies this`bs, ram
      ensures Shaped() && JoinFrom(old(ram[..]), old(bs), ram[..], bs, i)
      ensures Live(ram[..], bs) == old(Live(ram[..], bs)) && Untouched(old(ram[..]), ram[..], Live(ram[..], bs))
    {
      hide At, Linked, LinkedAt, Free, PutNext, PutPrev, Live, Partition;
      ghost var r := ram[..];
      Neighbours(r, bs, i);
      Neighbours(r, bs, i + 1);
      PartitionOf(r, bs);
      EndInside(bs, i);
      EndInside(bs, i + 1);
      var h := GetHeader(b);
      SetNext(a, h.next);
      JoinStores(r, a, b, h.next);
      SetPrev(h.next, a);
      JoinedLinked(r, ram[..], bs, i);
      JoinedLive(r, ram[..], bs, i);
      ghost var cs := Removed(bs, i + 1);
      forall k | 0 <= k < |cs|
        ensures JoinAt(r, bs, ram[..], cs, i, k)
      {
        JoinedFree(r, ram[..], bs, i, k);
      }
      bs := cs;
    }

    /** The stores that cut block `at` at `cut` and mark it used. */
    method Carve(at: nat, cut: nat, ghost i: nat)
      requires Shaped() && CutFits(bs, i, cut) && bs[i] == at
      modifies this`bs, ram
      ensures Shaped() && bs == Inserted(old(bs), i, cut)
      ensures CutFrom(old(ram[..]), old(bs), ram[..], bs, i, cut)
      ensures Live(ram[..], bs) == old(Live(ram[..], bs) - {(at, End(bs, i))}) + {(at, cut)}
      ensures Untouched(old(ram[..]), ram[..], Live(ram[..], bs))
    {
      hide At, Linked, LinkedAt, Free, PutNext, PutPrev, PutUsed, Live, Partition, Inserted, CutFrom, Carved, Untouched;
      ghost var r := ram[..];
      Neighbours(r, bs, i);
      PartitionOf(r, bs);
      EndInside(bs, i);
      var h := GetHeader(at);
      CarveStores(r, at, cut, h.next);
      SetPrev(cut, at);
      SetNext(cut, h.next);
      SetNext(at, cut);
      if h.next != MEM_SIZE {
        SetPrev(h.next, cut);
      }
      SetUsed(cut, false);
      SetUsed(at, true);
      CarvedLinked(r, ram[..], bs, i, cut, true);
      CarvedLive(r, ram[..], bs, i, cut);
      CarvedUntouched(r, ram[..], bs, i, cut);
      CarvedIsCut(r, ram[..], bs, i, cut);
      bs := Inserted(bs, i, cut);
    }

    /** plug_holes: join the free block with free neighbours. */
    method PlugHoles(mem: nat, ghost m: nat)
      requires Shaped() && m < |bs| && bs[m] == mem && Free(ram[..], bs, m)
      requires NoHoles(ram[..], bs, m) && LfreeOk(ram[..], bs, lfree)
      modifies this, ram
      ensures Valid()
      ensures Live(ram[..], bs) == old(Live(ram[..], bs)) && Untouched(old(ram[..]), ram[..], Live(ram[..], bs))
      ensures old(LowestFree()) ==> LowestFree()
      ensures m > 0 && old(!Free(ram[..], bs, m - 1)) ==>
                && m < |bs| && bs[m] == mem && Free(ram[..], bs, m)
                && lfree == (if old(lfree) == old(End(bs, m)) then mem else old(lfree))
                && (old(Lowest(ram[..], bs, mem)) ==> Lowest(ram[..], bs, mem))
    {
      hide Live, At, Linked, LinkedAt, Free, NoHoles, LfreeOk, Lowest, Untouched;
      ghost var r := ram[..];
      PlugForward(mem, m);
      ghost var s, l := ram[..], Live(ram[..], bs);
      PlugBackward(mem, m);
      UntouchedTwice(r, s, ram[..], l, l);
    }

    /** Plug the hole behind the block. */
    method PlugForward(mem: nat, ghost m: nat)
      requires Shaped() && m < |bs| && bs[m] == mem && Free(ram[..], bs, m)
      requires NoHoles(ram[..], bs, m) && LfreeOk(ram[..], bs, lfree)
      modifies this, ram
      ensures Shaped() && m < |bs| && bs[m] == mem && Free(ram[..], bs, m)
      ensures NoHoles(ram[..], bs, m) && LfreeOk(ram[..], bs, lfree)
      ensures m + 1 < |bs| ==> !Free(ram[..], bs, m + 1)
      ensures Live(ram[..], bs) == old(Live(ram[..], bs)) && Untouched(old(ram[..]), ram[..], Live(ram[..], bs))
      ensures old(LowestFree()) ==> LowestFree()
      ensures old(Lowest(ram[..], bs, mem)) ==> Lowest(ram[..], bs, mem)
      ensures lfree == if old(lfree) == old(End(bs, m)) then mem else old(lfree)
      ensures m > 0 ==> Free(ram[..], bs, m - 1) == old(Free(ram[..], bs, m - 1))
    {
      hide Live, At, Linked, LinkedAt, Free, NoHoles, LfreeOk, Lowest, Untouched, JoinFrom;
      ghost var r := ram[..];
      Neighbours(r, bs, m);
      var h := GetHeader(mem);
      var n := GetHeader(h.next);
      Unmoved(r, Live(r, bs));
      if mem != h.next && !n.used && h.next != MEM_SIZE {
        ghost var l, cs := lfree, bs;
        if lfree == h.next {
          lfree := mem;
        }
        Join(mem, h.next, m);
        LfreeAfterJoin(r, cs, ram[..], bs, m, l);
        HolesAfterJoin(r, cs, ram[..], bs, m, m);
        BelowJoin(r, cs, ram[..], bs, m);
      } else {
        LfreeElsewhere(r, bs, m, lfree);
      }
    }

    /** Plug the hole before the block. */
    method PlugBackward(mem: nat, ghost m: nat)
      requires Shaped() && m < |bs| && bs[m] == mem && Free(ram[..], bs, m)
      requires NoHoles(ram[..], bs, m) && LfreeOk(ram[..], bs, lfree)
      requires m + 1 < |bs| ==> !Free(ram[..], bs, m + 1)
      modifies this, ram
      ensures Valid()
      ensures Live(ram[..], bs) == old(Live(ram[..], bs)) && Untouched(old(ram[..]), ram[..], Live(ram[..], bs))
      ensures old(LowestFree()) ==> LowestFree()
      ensures m > 0 && old(!Free(ram[..], bs, m - 1)) ==> ram[..] == old(ram[..]) && bs == old(bs) && lfree == old(lfree)
    {
      hide Live, At, Linked, LinkedAt, Free, NoHoles, LfreeOk, Lowest, Untouched, JoinFrom;
      ghost var r := ram[..];
      Neighbours(r, bs, m);
      var h := GetHeader(mem);
      var p := GetHeader(h.prev);
      Unmoved(r, Live(r, bs));
      if h.prev != mem && !p.used {
        ghost var l, cs := lfree, bs;
        if lfree == mem {
          lfree := h.prev;
        }
        Join(h.prev, mem, m - 1);
        LfreeAfterJoin(r, cs, ram[..], bs, m - 1, l);
        HolesAfterJoin(r, cs, ram[..], bs, m - 1, m);
      } else {
        NoHolesLeft(r, bs, m);
      }
    }

    /** mem_free: the block stops being live; no other live block and no payload changes. */
    method MemFree(p: int, ghost end: nat)
      requires Valid() && (0 <= p < MEM_SIZE ==> p >= HEADER && (p - HEADER, end) in Live(ram[..], bs))
      modifies this, ram
      ensures Valid() && (old(LowestFree()) ==> LowestFree())
      ensures !(0 <= p < MEM_SIZE) ==> ram[..] == old(ram[..]) && bs == old(bs) && lfree == old(lfree)
      ensures 0 <= p < MEM_SIZE ==> Live(ram[..], bs) == old(Live(ram[..], bs)) - {(p - HEADER, end)}
      ensures Untouched(old(ram[..]), ram[..], Live(ram[..], bs))
    {
      hide Live, At, Linked, LinkedAt, Free, PutUsed, NoHoles, LfreeOk, Lowest, Untouched;
      ghost var r := ram[..];
      Unmoved(r, Live(r, bs));
      if p < 0 || p >= MEM_SIZE {
        return;
      }
      var mem := p - HEADER;
      ghost var i := LiveIndex(r, bs, mem, end);
      Marked(r, bs, i);
      SetUsed(mem, false);
      ghost var s := ram[..];
      MarkedOk(r, s, bs, i, lfree);
      if mem < lfree {
        lfree := mem;
      }
      ghost var cs := bs;
      PlugHoles(mem, i);
      UntouchedTwice(r, s, ram[..], Live(r, cs), Live(ram[..], bs));
    }

    /** mem_malloc: the first free block from lfree on with room for the rounded size and
        another header is cut. */
    method Malloc(size0: nat) returns (ok: bool, p: nat)
      requires Valid() && size0 < 0x10000
      modifies this, ram
      ensures Valid() && (old(LowestFree()) ==> LowestFree())
      ensures !ok ==> ram[..] == old(ram[..]) && bs == old(bs) && lfree == old(lfree)
      ensures ok <==> size0 != 0 && Aligned(size0) <= MEM_SIZE
                      && old(SomeFit(ram[..], bs, lfree, Aligned(size0)))
      ensures !ok && size0 != 0 && Aligned(size0) <= MEM_SIZE && LowestFree() ==>
                !SomeFit(ram[..], bs, 0, Aligned(size0))
      ensures ok ==> p >= HEADER && p % MEM_ALIGNMENT == 0 && p + Aligned(size0) + HEADER <= MEM_SIZE
      ensures ok ==> old(FirstFit(ram[..], bs, lfree, Aligned(size0), p as int - HEADER))
      ensures ok ==> Live(ram[..], bs) == old(Live(ram[..], bs)) + {(p - HEADER, p + Aligned(size0))}
      ensures Untouched(old(ram[..]), ram[..], Live(ram[..], bs))
    {
      hide Live, At, Linked, LinkedAt, Free, Aligned, Lowest, Untouched;
      ghost var r := ram[..];
      Unmoved(r, Live(r, bs));
      ok, p := false, 0;
      if size0 == 0 {
        return;
      }
      var size := Aligned(size0);
      AlignedExact(size0);
      if size > MEM_SIZE {
        return;
      }
      ghost var l: nat :| l < |bs| && bs[l] == lfree && Free(r, bs, l);
      var ptr := lfree;
      ghost var i := l;
      BelowLfree(r, bs, lfree, l, size);
      while ptr < MEM_SIZE
        invariant l <= i <= |bs| && ptr == (if i < |bs| then bs[i] else MEM_SIZE)
        invariant ram[..] == r && bs == old(bs) && lfree == old(lfree)
        invariant forall k :: l <= k < i ==> !Fits(r, bs, k, size)
        decreases |bs| - i
      {
        Neighbours(r, bs, i);
        UsedFlag(r, bs, i);
        var h := GetHeader(ptr);
        if !h.used && h.next - (ptr + HEADER) >= size + HEADER {
          ok, p := true, ptr + HEADER;
          FitIsFirst(r, bs, lfree, l, i, size);
          assert Fits(r, bs, i, size);
          Take(ptr, size, i);
          return;
        }
        ptr := h.next;
        i := i + 1;
      }
      if i < |bs| {
        Neighbours(r, bs, i);
      }
    }

    /** mem_realloc on a live block: shrink it when at least a header and MIN_SIZE bytes would
        be left over. */
    method Realloc(p: nat, newsize0: nat, ghost end: nat) returns (ok: bool)
      requires Valid() && newsize0 < 0x10000 && p >= HEADER && (p - HEADER, end) in Live(ram[..], bs)
      modifies this, ram
      ensures Valid() && (ok <==> Aligned(newsize0) <= MEM_SIZE)
      ensures !Shrinks(p, newsize0, end) ==> ram[..] == old(ram[..]) && bs == old(bs) && lfree == old(lfree)
      ensures Shrinks(p, newsize0, end) ==>
                Live(ram[..], bs) == old(Live(ram[..], bs)) - {(p - HEADER, end)} + {(p - HEADER, p + Aligned(newsize0))}
      ensures Untouched(old(ram[..]), ram[..], Live(ram[..], bs))
      ensures Shrinks(p, newsize0, end) && old(LowestFree()) ==>
                (LowestFree() <==> old(lfree) < p - HEADER || old(lfree) == end)
    {
      hide Live, At, Linked, LinkedAt, Free, NoHoles, LfreeOk, Lowest, Untouched, Aligned, CutFrom, Inserted, Fits, CutFits;
      ghost var r, cs, l := ram[..], bs, lfree;
      Unmoved(r, Live(r, bs));
      var newsize := Aligned(newsize0);
      AlignedExact(newsize0);
      if newsize > MEM_SIZE {
        return false;
      }
      ok := true;
      var ptr := p - HEADER;
      ghost var i := LiveIndex(r, bs, ptr, end);
      Neighbours(r, bs, i);
      LfreeBeside(r, bs, i, lfree);
      var h := GetHeader(ptr);
      var size := h.next - ptr - HEADER;
      if newsize + HEADER + MIN_SIZE < size {
        var cut := ptr + HEADER + newsize;
        ShrinkIsCut(r, bs, i, newsize);
        Carve(ptr, cut, i);
        ShrunkOk(r, cs, ram[..], bs, i, cut, l);
        ghost var s, live := ram[..], Live(ram[..], bs);
        PlugHoles(cut, i + 1);
        UntouchedTwice(r, s, ram[..], live, live);
        if l >= end && l != end {
          NotLowest(ram[..], bs, i + 1, lfree);
        }
      }
    }

    /** If the block taken was lfree, move lfree on to the next free block. */
    method NextFree(ptr: nat, cut: nat, ghost i: nat, ghost cs: seq<nat>, ghost r: Ram)
      requires ram.Length == MEM_SIZE + HEADER && CutFrom(r, cs, ram[..], bs, i, cut) && cs[i] == ptr
      modifies this`lfree
      ensures lfree == if old(lfree) == ptr then cut else old(lfree)
    {
      hide At, CutFrom;
      RestIsFree(r, cs, ram[..], bs, i, cut);
      if ptr == lfree {
        var h := GetHeader(lfree);
        while h.used && lfree != MEM_SIZE
          invariant lfree == ptr || lfree == cut
          invariant lfree + HEADER <= ram.Length && h == At(ram[..], lfree)
          decreases cut - lfree
        {
          lfree := h.next;
          h := GetHeader(lfree);
        }
      }
    }

    /** The cut of mem_malloc, and the search for the next free block. */
    method Take(ptr: nat, size: nat, ghost i: nat)
      requires Valid() && i < |bs| && bs[i] == ptr && Fits(ram[..], bs, i, size) && size % MEM_ALIGNMENT == 0
      modifies this, ram
      ensures Valid() && (old(LowestFree()) ==> LowestFree())
      ensures Live(ram[..], bs) == old(Live(ram[..], bs)) + {(ptr, ptr + HEADER + size)}
      ensures Untouched(old(ram[..]), ram[..], Live(ram[..], bs))
      ensures ptr % MEM_ALIGNMENT == 0 && ptr + 2 * HEADER + size <= MEM_SIZE
    {
      hide Live, At, Linked, LinkedAt, Free, NoHoles, LfreeOk, Lowest, Inserted, Untouched, CutFrom, Fits, CutFits;
      ghost var r, cs, l := ram[..], bs, lfree;
      var cut := ptr + HEADER + size;
      FitIsCut(r, bs, i, size);
      FreeIsDead(r, bs, i);
      Carve(ptr, cut, i);
      NextFree(ptr, cut, i, cs, r);
      TakenOk(r, cs, ram[..], bs, i, cut, l);
    }
  }

  /** Shrinking a used block keeps lfree the lowest free block exactly when lfree lies below
      the block or right behind it. */
  lemma LowestAfterShrink(r: Ram, bs: seq<nat>, r': Ram, cs: seq<nat>, i: nat, cut: nat, lfree: nat, top: nat)
    requires CutFrom(r, bs, r', cs, i, cut) && Lowest(r, bs, lfree) && !Free(r, bs, i)
    requires top == lfree < bs[i] || (top == cut && End(bs, i) <= lfree)
    ensures Lowest(r', cs, top)
  {
    hide Linked, Free, Partition;
    PartitionOf(r, bs);
    PartitionOf(r', cs);
    forall j | 0 <= j < |cs| && cs[j] < top
      ensures !Free(r', cs, j)
    {
      if j > i + 1 {
        Ascending(cs, i + 1, j);
      } else if j <= i {
        assert CutAt(r, bs, r', cs, i, j);
        if j < i {
          Ascending(bs, j, i);
        }
      }
    }
  }

  /** lfree is below block i or from its end on. */
  lemma LfreeBeside(r: Ram, bs: seq<nat>, i: nat, lfree: nat)
    requires Linked(r, bs) && i < |bs| && !Free(r, bs, i) && LfreeOk(r, bs, lfree)
    ensures lfree < bs[i] || End(bs, i) <= lfree
  {
    hide Linked, Free, Partition;
    PartitionOf(r, bs);
    var l :| 0 <= l < |bs| && bs[l] == lfree && Free(r, bs, l);
    if l < i {
      Ascending(bs, l, i);
    } else if l > i {
      Ascending(bs, i, l);
    }
  }

  lemma NotLowest(r: Ram, bs: seq<nat>, m: nat, lfree: nat)
    requires Linked(r, bs) && m < |bs| && Free(r, bs, m) && bs[m] < lfree
    ensures !Lowest(r, bs, lfree)
  {
    hide Linked, Free;
  }

  /** After a cut, the block after the cut one is free. */
  lemma RestIsFree(r: Ram, bs: seq<nat>, r': Ram, cs: seq<nat>, i: nat, cut: nat)
    requires CutFrom(r, bs, r', cs, i, cut)
    ensures bs[i] + HEADER <= |r'| && cut + HEADER <= |r'| && bs[i] < cut < MEM_SIZE
    ensures At(r', bs[i]).used && At(r', bs[i]).next == cut && !At(r', cut).used
  {
    assert CutAt(r, bs, r', cs, i, i);
    Neighbours(r', cs, i);
    assert LinkedAt(r', cs, i + 1);
  }

  /** The test of mem_realloc. */
  predicate Shrinks(p: nat, newsize0: nat, end: nat) {
    Aligned(newsize0) <= MEM_SIZE && Aligned(newsize0) + HEADER + MIN_SIZE < end - p
  }

  lemma ShrinkIsCut(r: Ram, bs: seq<nat>, i: nat, size: nat)
    requires Linked(r, bs) && i < |bs| && size % MEM_ALIGNMENT == 0 && bs[i] + 2 * HEADER + MIN_SIZE + size < End(bs, i)
    ensures CutFits(bs, i, bs[i] + HEADER + size)
  {
    hide Linked, Partition;
    PartitionOf(r, bs);
    AlignedCut(bs, i, size);
  }

  /** What plug_holes finds after a used block has been cut. */
  lemma ShrunkOk(r: Ram, bs: seq<nat>, r': Ram, cs: seq<nat>, i: nat, cut: nat, lfree: nat)
    requires CutFrom(r, bs, r', cs, i, cut) && NoHoles(r, bs, NONE) && LfreeOk(r, bs, lfree) && !Free(r, bs, i)
    requires lfree < bs[i] || End(bs, i) <= lfree
    ensures i + 1 < |cs| && cs[i + 1] == cut && Free(r', cs, i + 1) && !Free(r', cs, i)
    ensures NoHoles(r', cs, i + 1) && LfreeOk(r', cs, lfree) && End(cs, i + 1) == End(bs, i)
    ensures Lowest(r, bs, lfree) && lfree < bs[i] ==> Lowest(r', cs, lfree)
    ensures Lowest(r, bs, lfree) && End(bs, i) <= lfree ==> Lowest(r', cs, cut)
  {
    hide Linked, Free, NoHoles, LfreeOk, Lowest, CutAt;
    HolesAfterCut(r, bs, r', cs, i, cut);
    LfreeAfterCut(r, bs, r', cs, i, cut, lfree);
    CutEnds(r, bs, r', cs, i, cut);
    if Lowest(r, bs, lfree) {
      LowestAfterShrink(r, bs, r', cs, i, cut, lfree, if lfree < bs[i] then lfree else cut);
    }
  }

  lemma CutEnds(r: Ram, bs: seq<nat>, r': Ram, cs: seq<nat>, i: nat, cut: nat)
    requires CutFrom(r, bs, r', cs, i, cut)
    ensures End(cs, i + 1) == End(bs, i) && !Free(r', cs, i) && bs[i] < End(bs, i)
  {
    hide Linked, Free;
    assert CutAt(r, bs, r', cs, i, i);
    assert i + 2 < |cs| ==> CutAt(r, bs, r', cs, i, i + 2);
    Neighbours(r, bs, i);
  }

  /** Some block from `from` on passes the fit test. */
  ghost predicate SomeFit(r: Ram, bs: seq<nat>, from: nat, size: nat)
    requires Linked(r, bs)
  {
    exists i :: 0 <= i < |bs| && from <= bs[i] && Fits(r, bs, i, size)
  }

  /** at is the first block from lfree on that fits. */
  ghost predicate FirstFit(r: Ram, bs: seq<nat>, lfree: nat, size: nat, at: int)
    requires Linked(r, bs)
  {
    exists i :: 0 <= i < |bs| && bs[i] == at && lfree <= at && Fits(r, bs, i, size)
                && forall k :: 0 <= k < i && lfree <= bs[k] ==> !Fits(r, bs, k, size)
  }

  lemma LiveIndex(r: Ram, bs: seq<nat>, at: nat, end: nat) returns (i: nat)
    requires Linked(r, bs) && (at, end) in Live(r, bs)
    ensures i < |bs| && bs[i] == at && End(bs, i) == end && !Free(r, bs, i)
  {
    i :| i < |bs| && !Free(r, bs, i) && (at, end) == (bs[i], End(bs, i));
  }

  lemma UsedFlag(r: Ram, bs: seq<nat>, i: nat)
    requires Linked(r, bs) && i < |bs|
    ensures bs[i] + HEADER <= |r| && Free(r, bs, i) == !At(r, bs[i]).used
  {
    assert LinkedAt(r, bs, i);
  }

  /** Blocks from index l on are the blocks from offset lfree on. */
  lemma BelowLfree(r: Ram, bs: seq<nat>, lfree: nat, l: nat, size: nat)
    requires Linked(r, bs) && l < |bs| && bs[l] == lfree
    ensures forall k :: 0 <= k < |bs| ==> (lfree <= bs[k] <==> l <= k)
    ensures Lowest(r, bs, lfree) ==> forall k :: 0 <= k < l ==> !Fits(r, bs, k, size)
  {
    hide Linked, Free, Partition;
    PartitionOf(r, bs);
    forall k | 0 <= k < |bs|
      ensures lfree <= bs[k] <==> l <= k
    {
      if k < l {
        Ascending(bs, k, l);
      } else if l < k {
        Ascending(bs, l, k);
      }
    }
  }

  lemma FitIsFirst(r: Ram, bs: seq<nat>, lfree: nat, l: nat, i: nat, size: nat)
    requires Linked(r, bs) && l <= i < |bs| && bs[l] == lfree && Fits(r, bs, i, size)
    requires forall k :: l <= k < i ==> !Fits(r, bs, k, size)
    ensures FirstFit(r, bs, lfree, size, bs[i]) && lfree <= bs[i]
  {
    hide Linked, Free;
    BelowLfree(r, bs, lfree, l, size);
  }

  /** Cutting at a multiple of the alignment. */
  lemma AlignedCut(bs: seq<nat>, i: nat, size: nat)
    requires Partition(bs) && i < |bs| && size % MEM_ALIGNMENT == 0
    ensures bs[i] % MEM_ALIGNMENT == 0 && (bs[i] + HEADER + size) % MEM_ALIGNMENT == 0 && End(bs, i) <= MEM_SIZE
  {
    EndInside(bs, i);
    AlignedSum(bs[i], size);
  }

  lemma AlignedSum(a: nat, size: nat)
    requires a % MEM_ALIGNMENT == 0 && size % MEM_ALIGNMENT == 0
    ensures (a + HEADER + size) % MEM_ALIGNMENT == 0
  {
    var q, r := a / MEM_ALIGNMENT, size / MEM_ALIGNMENT;
    assert a + HEADER + size == MEM_ALIGNMENT * (q + r + 2);
  }

  lemma FitIsCut(r: Ram, bs: seq<nat>, i: nat, size: nat)
    requires Linked(r, bs) && i < |bs| && Fits(r, bs, i, size) && size % MEM_ALIGNMENT == 0
    ensures CutFits(bs, i, bs[i] + HEADER + size) && bs[i] % MEM_ALIGNMENT == 0 && Free(r, bs, i)
    ensures bs[i] + 2 * HEADER + size <= MEM_SIZE
  {
    hide Linked, Free, Partition;
    PartitionOf(r, bs);
    AlignedCut(bs, i, size);
  }

  lemma FreeIsDead(r: Ram, bs: seq<nat>, i: nat)
    requires Linked(r, bs) && i < |bs| && Free(r, bs, i)
    ensures (bs[i], End(bs, i)) !in Live(r, bs)
  {
    hide Linked, Free;
    PartitionOf(r, bs);
    forall j | 0 <= j < |bs| && !Free(r, bs, j)
      ensures bs[j] != bs[i]
    {
      if bs[j] == bs[i] {
        SameBlock(bs, i, j);
      }
    }
  }

  /** After marking block i free, holes can only be around it. */
  lemma MarkedOk(r: Ram, r': Ram, bs: seq<nat>, i: nat, lfree: nat)
    requires Linked(r, bs) && Linked(r', bs) && i < |bs| && NoHoles(r, bs, NONE) && LfreeOk(r, bs, lfree)
    requires forall k :: 0 <= k < |bs| ==> Free(r', bs, k) == (Free(r, bs, k) || k == i)
    ensures Free(r', bs, i) && NoHoles(r', bs, i)
    ensures var l := if bs[i] < lfree then bs[i] else lfree;
      LfreeOk(r', bs, l) && (Lowest(r, bs, lfree) ==> Lowest(r', bs, l))
  {
    hide Linked, Free, Partition;
    PartitionOf(r, bs);
    var l :| 0 <= l < |bs| && bs[l] == lfree && Free(r, bs, l);
    assert Free(r', bs, l) && Free(r', bs, i);
  }

  /** Block j of cs is a block of bs; block i has become used. */
  ghost predicate CutAt(r: Ram, bs: seq<nat>, r': Ram, cs: seq<nat>, i: nat, j: nat) {
    && Linked(r, bs) && Linked(r', cs) && j < |cs| && i < |bs| && |cs| == |bs| + 1
    && cs[j] == bs[Origin(i, j)] && Free(r', cs, j) == (j != i && Free(r, bs, Origin(i, j)))
  }

  /** r' and cs come from r and bs by cutting block i. */
  ghost predicate CutFrom(r: Ram, bs: seq<nat>, r': Ram, cs: seq<nat>, i: nat, cut: nat) {
    && Linked(r, bs) && Linked(r', cs) && i < |bs| && |cs| == |bs| + 1
    && cs[i + 1] == cut && Free(r', cs, i + 1) && cs[i] == bs[i] < cut
    && (forall j :: 0 <= j < |cs| && j != i + 1 ==> CutAt(r, bs, r', cs, i, j))
  }

  lemma CarvedIsCut(r: Ram, r': Ram, bs: seq<nat>, i: nat, cut: nat)
    requires Linked(r, bs) && CutFits(bs, i, cut) && |r'| == |r|
    requires Carved(r, r', bs[i], cut, End(bs, i), true) && Linked(r', Inserted(bs, i, cut))
    ensures CutFrom(r, bs, r', Inserted(bs, i, cut), i, cut)
  {
    hide At, Linked, LinkedAt, Free, Inserted, Carved;
    var cs := Inserted(bs, i, cut);
    InsertedSize(bs, i, cut);
    CarvedFree(r, r', bs, i, cut, true, i);
    forall j | 0 <= j < |cs| && j != i + 1
      ensures CutAt(r, bs, r', cs, i, j)
    {
      CarvedFree(r, r', bs, i, cut, true, Origin(i, j));
    }
  }

  /** Cutting a block leaves holes only around the rest. */
  lemma HolesAfterCut(r: Ram, bs: seq<nat>, r': Ram, cs: seq<nat>, i: nat, cut: nat)
    requires CutFrom(r, bs, r', cs, i, cut) && NoHoles(r, bs, NONE)
    ensures NoHoles(r', cs, i + 1)
    ensures Free(r, bs, i) ==> NoHoles(r', cs, NONE)
  {
    hide Linked, Free;
    assert CutAt(r, bs, r', cs, i, i);
    forall j | 0 <= j < |cs| - 1 && j != i + 1 && j != i
      ensures !(Free(r', cs, j) && Free(r', cs, j + 1))
    {
      assert CutAt(r, bs, r', cs, i, j);
      assert CutAt(r, bs, r', cs, i, j + 1);
    }
    if Free(r, bs, i) && i + 2 < |cs| {
      assert CutAt(r, bs, r', cs, i, i + 2);
    }
  }

  /** Where lfree is after block i has been taken and cut. */
  lemma LfreeAfterCut(r: Ram, bs: seq<nat>, r': Ram, cs: seq<nat>, i: nat, cut: nat, lfree: nat)
    requires CutFrom(r, bs, r', cs, i, cut) && LfreeOk(r, bs, lfree)
    ensures LfreeOk(r', cs, if lfree == bs[i] then cut else lfree)
  {
    hide Linked, Free;
    var l :| 0 <= l < |bs| && bs[l] == lfree && Free(r, bs, l);
    if lfree != bs[i] {
      var j := if l <= i then l else l + 1;
      assert CutAt(r, bs, r', cs, i, j);
    }
  }

  lemma LowestAfterCut(r: Ram, bs: seq<nat>, r': Ram, cs: seq<nat>, i: nat, cut: nat, lfree: nat, j: nat)
    requires CutFrom(r, bs, r', cs, i, cut) && Lowest(r, bs, lfree) && Free(r, bs, i)
    requires j < |cs| && cs[j] < if lfree == bs[i] then cut else lfree
    ensures !Free(r', cs, j)
  {
    hide Linked, Free, Partition;
    PartitionOf(r, bs);
    PartitionOf(r', cs);
    if j > i + 1 {
      Ascending(cs, i + 1, j);
    } else if j < i {
      assert CutAt(r, bs, r', cs, i, j);
      Ascending(bs, j, i);
    } else if j == i {
      assert CutAt(r, bs, r', cs, i, i);
    }
  }

  /** Taking a block leaves no hole and a free lfree. */
  lemma TakenOk(r: Ram, bs: seq<nat>, r': Ram, cs: seq<nat>, i: nat, cut: nat, lfree: nat)
    requires CutFrom(r, bs, r', cs, i, cut) && NoHoles(r, bs, NONE) && LfreeOk(r, bs, lfree) && Free(r, bs, i)
    ensures NoHoles(r', cs, NONE) && LfreeOk(r', cs, if lfree == bs[i] then cut else lfree)
    ensures Lowest(r, bs, lfree) ==> Lowest(r', cs, if lfree == bs[i] then cut else lfree)
  {
    hide Linked, Free, NoHoles, LfreeOk;
    HolesAfterCut(r, bs, r', cs, i, cut);
    LfreeAfterCut(r, bs, r', cs, i, cut, lfree);
    if Lowest(r, bs, lfree) {
      forall j | 0 <= j < |cs| && cs[j] < if lfree == bs[i] then cut else lfree
        ensures !Free(r', cs, j)
      {
        LowestAfterCut(r, bs, r', cs, i, cut, lfree, j);
      }
    }
  }

  lemma UntouchedTwice(r: Ram, s: Ram, t: Ram, more: set<(nat, nat)>, blocks: set<(nat, nat)>)
    requires Untouched(r, s, more) && Untouched(s, t, blocks) && blocks <= more
    ensures Untouched(r, t, blocks)
  {
  }

  lemma Unmoved(r: Ram, blocks: set<(nat, nat)>)
    ensures Untouched(r, r, blocks)
  {
  }

  /** What the header of block m says about its neighbours. */
  lemma Neighbours(r: Ram, bs: seq<nat>, m: nat)
    requires Linked(r, bs) && m < |bs|
    ensures bs[m] + HEADER <= |r| && At(r, bs[m]).next == End(bs, m) <= MEM_SIZE && bs[m] < End(bs, m)
    ensures At(r, MEM_SIZE).used
    ensures m + 1 < |bs| ==> bs[m + 1] < MEM_SIZE && Free(r, bs, m + 1) == !At(r, bs[m + 1]).used
    ensures m == 0 ==> At(r, bs[m]).prev == bs[m] == 0
    ensures m > 0 ==> At(r, bs[m]).prev == bs[m - 1] < bs[m] && Free(r, bs, m - 1) == !At(r, bs[m - 1]).used
  {
    assert LinkedAt(r, bs, m);
    EndInside(bs, m);
    if m + 1 < |bs| {
      assert LinkedAt(r, bs, m + 1);
    }
    if m > 0 {
      Ascending(bs, m - 1, m);
    }
  }

  /** The old place of block j after a block has been inserted behind block i. */
  function Origin(i: nat, j: nat): nat {
    if j <= i then j else j - 1
  }

  /** The old place of block k after block i+1 has gone. */
  function Before(i: nat, k: nat): nat {
    if k <= i then k else k + 1
  }

  /** Block k of cs is a block of bs. */
  ghost predicate JoinAt(r: Ram, bs: seq<nat>, r': Ram, cs: seq<nat>, i: nat, k: nat) {
    && Linked(r, bs) && Linked(r', cs) && i + 1 < |bs| && |cs| == |bs| - 1 && k < |cs|
    && cs[k] == bs[Before(i, k)] && Free(r', cs, k) == Free(r, bs, Before(i, k))
  }

  /** r' and cs come from r and bs by joining blocks i and i+1. */
  ghost predicate JoinFrom(r: Ram, bs: seq<nat>, r': Ram, cs: seq<nat>, i: nat) {
    && Linked(r, bs) && Linked(r', cs) && i + 1 < |bs| && |cs| == |bs| - 1
    && (forall k :: 0 <= k < |cs| ==> JoinAt(r, bs, r', cs, i, k))
  }

  /** Joining block i with its successor moves lfree from the successor to block i. */
  lemma LfreeAfterJoin(r: Ram, bs: seq<nat>, r': Ram, cs: seq<nat>, i: nat, lfree: nat)
    requires JoinFrom(r, bs, r', cs, i)
    requires Free(r, bs, i) && Free(r, bs, i + 1) && LfreeOk(r, bs, lfree)
    ensures LfreeOk(r', cs, if lfree == bs[i + 1] then bs[i] else lfree)
    ensures Lowest(r, bs, lfree) ==> lfree != bs[i + 1] && Lowest(r', cs, lfree)
  {
    hide Linked, LinkedAt, Free, Partition, Lowest, LfreeOk, Removed;
    PartitionOf(r, bs);
    Ascending(bs, i, i + 1);
    LfreeMoves(r, bs, r', cs, i, lfree);
    if Lowest(r, bs, lfree) {
      LowestAfterJoin(r, bs, r', cs, i, lfree);
    }
  }

  lemma LfreeMoves(r: Ram, bs: seq<nat>, r': Ram, cs: seq<nat>, i: nat, lfree: nat)
    requires JoinFrom(r, bs, r', cs, i)
    requires Free(r, bs, i) && LfreeOk(r, bs, lfree)
    ensures LfreeOk(r', cs, if lfree == bs[i + 1] then bs[i] else lfree)
  {
    hide Linked, LinkedAt, Free, Partition;
    var l :| 0 <= l < |bs| && bs[l] == lfree && Free(r, bs, l);
    var j := if lfree == bs[i + 1] then i else if l <= i then l else l - 1;
    assert JoinAt(r, bs, r', cs, i, j);
  }

  lemma LowestAfterJoin(r: Ram, bs: seq<nat>, r': Ram, cs: seq<nat>, i: nat, lfree: nat)
    requires JoinFrom(r, bs, r', cs, i) && bs[i] < bs[i + 1]
    requires Free(r, bs, i) && Lowest(r, bs, lfree)
    ensures lfree != bs[i + 1] && Lowest(r', cs, lfree)
  {
    hide Linked, LinkedAt, Free, Partition;
    forall k | 0 <= k < |cs| && cs[k] < lfree
      ensures !Free(r', cs, k)
    {
      assert JoinAt(r, bs, r', cs, i, k);
    }
  }

  lemma BelowJoin(r: Ram, bs: seq<nat>, r': Ram, cs: seq<nat>, m: nat)
    requires JoinFrom(r, bs, r', cs, m) && Free(r, bs, m)
    ensures m > 0 ==> Free(r', cs, m - 1) == Free(r, bs, m - 1)
    ensures Lowest(r, bs, bs[m]) ==> Lowest(r', cs, bs[m])
  {
    hide Linked, LinkedAt, Free, Partition, Lowest;
    PartitionOf(r, bs);
    Ascending(bs, m, m + 1);
    if m > 0 {
      assert JoinAt(r, bs, r', cs, m, m - 1);
    }
    if Lowest(r, bs, bs[m]) {
      LowestAfterJoin(r, bs, r', cs, m, bs[m]);
    }
  }

  /** lfree is not the end of a block that is followed by a used one. */
  lemma LfreeElsewhere(r: Ram, bs: seq<nat>, m: nat, lfree: nat)
    requires Linked(r, bs) && m < |bs| && LfreeOk(r, bs, lfree) && (m + 1 < |bs| ==> !Free(r, bs, m + 1))
    ensures lfree != End(bs, m)
  {
    hide Linked, LinkedAt, Free, Partition;
    PartitionOf(r, bs);
    var l :| 0 <= l < |bs| && bs[l] == lfree && Free(r, bs, l);
    EndInside(bs, l);
    if m + 1 < |bs| && lfree == bs[m + 1] {
      SameBlock(bs, l, m + 1);
    }
  }

  /** After the join, no hole is left except possibly before a block joined forward. */
  lemma HolesAfterJoin(r: Ram, bs: seq<nat>, r': Ram, cs: seq<nat>, i: nat, m: nat)
    requires JoinFrom(r, bs, r', cs, i)
    requires Free(r, bs, i) && Free(r, bs, i + 1) && NoHoles(r, bs, m) && (i == m || i + 1 == m)
    requires i + 1 == m && m + 1 < |bs| ==> !Free(r, bs, m + 1)
    ensures i == m ==> NoHoles(r', cs, m) && (m + 1 < |cs| ==> !Free(r', cs, m + 1)) && m < |cs| && cs[m] == bs[m] && Free(r', cs, m)
    ensures i + 1 == m ==> NoHoles(r', cs, NONE)
  {
    hide Linked, LinkedAt, Free, Partition;
    forall k | 0 <= k < |cs| - 1 && !(i == m && (k == m || k + 1 == m))
      ensures !(Free(r', cs, k) && Free(r', cs, k + 1))
    {
      assert JoinAt(r, bs, r', cs, i, k) && JoinAt(r, bs, r', cs, i, k + 1);
    }
    assert JoinAt(r, bs, r', cs, i, i);
    if i + 2 < |bs| {
      assert JoinAt(r, bs, r', cs, i, i + 1);
    }
  }

  lemma NoHolesLeft(r: Ram, bs: seq<nat>, m: nat)
    requires Linked(r, bs) && m < |bs| && NoHoles(r, bs, m)
    requires m + 1 < |bs| ==> !Free(r, bs, m + 1)
    requires m > 0 ==> !Free(r, bs, m - 1)
    ensures NoHoles(r, bs, NONE)
  {
    hide Linked, Free;
  }

  /** The effect of the stores of a cut. */
  function Cut(r: Ram, at: nat, cut: nat, end: nat): Ram
    requires |r| == MEM_SIZE + HEADER && at + HEADER <= cut && cut + HEADER <= end <= MEM_SIZE
  {
    var r1 := PutNext(PutNext(PutPrev(r, cut, at), cut, end), at, cut);
    var r2 := if end != MEM_SIZE then PutPrev(r1, end, cut) else r1;
    PutUsed(PutUsed(r2, cut, false), at, true)
  }

  lemma CarveStores(r: Ram, at: nat, cut: nat, end: nat)
    requires |r| == MEM_SIZE + HEADER && at + HEADER <= cut && cut + HEADER <= end <= MEM_SIZE
    ensures |Cut(r, at, cut, end)| == |r| && Carved(r, Cut(r, at, cut, end), at, cut, end, true)
  {
    hide At, PutNext, PutPrev, PutUsed;
    var a := PutPrev(r, cut, at);
    var b := PutNext(a, cut, end);
    var c := PutNext(b, at, cut);
    var d := if end != MEM_SIZE then PutPrev(c, end, cut) else c;
    var e := PutUsed(d, cut, false);
    var f := PutUsed(e, at, true);
    Stores(r, cut, at, at, false);
    Stores(r, cut, end, at, false);
    Stores(a, cut, at, end, false);
    Stores(a, cut, end, end, false);
    Stores(b, at, cut, cut, false);
    Stores(b, at, end, cut, false);
    Stores(c, end, at, cut, false);
    Stores(c, end, cut, cut, false);
    Stores(d, cut, at, 0, false);
    Stores(d, cut, end, 0, false);
    Stores(e, at, cut, 0, true);
    Stores(e, at, end, 0, true);
  }

  /** What a store at o does to the headers at o and at p. */
  lemma Stores(r: Ram, o: nat, p: nat, v: nat, u: bool)
    requires o + HEADER <= |r| && p + HEADER <= |r| && v < 0x10000 && (o + HEADER <= p || p + HEADER <= o)
    ensures At(PutNext(r, o, v), o) == At(r, o).(next := v) && SameBut(r, PutNext(r, o, v), o)
    ensures At(PutPrev(r, o, v), o) == At(r, o).(prev := v) && SameBut(r, PutPrev(r, o, v), o)
    ensures At(PutUsed(r, o, u), o) == At(r, o).(used := u) && SameBut(r, PutUsed(r, o, u), o)
    ensures At(PutNext(r, o, v), p) == At(PutPrev(r, o, v), p) == At(PutUsed(r, o, u), p) == At(r, p)
  {
    hide At, PutNext, PutPrev, PutUsed;
    PutReads(r, o, v, u);
    OtherHeader(r, PutNext(r, o, v), o, p);
    OtherHeader(r, PutPrev(r, o, v), o, p);
    OtherHeader(r, PutUsed(r, o, u), o, p);
  }

  lemma JoinStores(r: Ram, a: nat, b: nat, end: nat)
    requires |r| == MEM_SIZE + HEADER && a + HEADER <= b && b + HEADER <= end <= MEM_SIZE
    ensures |PutNext(r, a, end)| == |r|
    ensures Joined(r, PutPrev(PutNext(r, a, end), end, a), a, end)
  {
    hide At, PutNext, PutPrev;
    var s := PutNext(r, a, end);
    PutReads(r, a, end, false);
    PutReads(s, end, a, false);
    OtherHeader(r, s, a, end);
    OtherHeader(s, PutPrev(s, end, a), end, a);
  }
}
