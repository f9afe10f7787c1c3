/** Clearing a cluster through the cache (the last loop of enlargeDirentryClusterSpace,
    iop/usb_mass/fat_write.c): its sectors are allocated without being read, so the sectors that
    share a cache slot with them may change too. */
module DirClear {
  import opened Arith
  import opened Bytes
  import opened FatRecords
  import opened FatFileView
  import CacheInvariant
  import SectorCache

  function Blank(size: nat): Sector {
    seq(size, _ => 0)
  }

  /** First sector of the slot of s, with l sectors to a slot. */
  function Block(l: nat, s: nat): nat
    requires l > 0
  {
    Times(Quot(s, l), l)
  }

  /** Sector t shares a cache slot with one of the n sectors from start on. */
  predicate Near(l: nat, start: nat, n: nat, t: nat)
    requires l > 0 && n > 0
  {
    Block(l, start) <= t < Block(l, start + n - 1) + l
  }

  lemma SameSlot(l: nat, s: nat, t: nat)
    requires l > 0 && s <= t
    ensures Block(l, s) <= Block(l, t) <= t < Block(l, t) + l && s < Block(l, s) + l
    ensures Block(l, t) <= s ==> Block(l, s) == Block(l, t)
    ensures Block(l, s) < Block(l, t) ==> Block(l, s) + l <= Block(l, t)
  {
    hide Times, Quot, Rem;
    QuotRem(s, l);
    QuotRem(t, l);
    if Quot(t, l) < Quot(s, l) {
      TimesApart(Quot(t, l), Quot(s, l), l);
    } else if Quot(s, l) < Quot(t, l) {
      TimesApart(Quot(s, l), Quot(t, l), l);
    }
  }

  // ----- what becomes of the neighbours -----

  /** What became of the other sectors of a slot: nothing, or they are what the evicted slot held. */
  datatype Fate = Kept | Replaced(block: seq<Sector>)

  /** The sectors of the slot at a that are not among the n from start on met this fate. */
  ghost predicate Met(f: seq<Sector>, g: seq<Sector>, l: nat, a: nat, start: nat, n: nat, fate: Fate) {
    && |f| == |g| && a + l <= |f| && (fate.Replaced? ==> |fate.block| == l)
    && (forall t :: a <= t < a + l && !(start <= t < start + n) ==> g[t] == if fate.Kept? then f[t] else fate.block[t - a])
  }

  /** Disk g is disk f with n sectors from start on cleared; head and tail say what became of the
      rest of the first and the last slot. */
  ghost predicate Cleared(f: seq<Sector>, g: seq<Sector>, l: nat, start: nat, n: nat, size: nat, head: Fate, tail: Fate)
    requires l > 0 && n > 0
  {
    && |f| == |g| && start + n <= |f|
    && (forall s :: start <= s < start + n ==> g[s] == Blank(size))
    && (forall t :: 0 <= t < |f| && !Near(l, start, n, t) ==> g[t] == f[t])
    && Met(f, g, l, Block(l, start), start, n, head) && Met(f, g, l, Block(l, start + n - 1), start, n, tail)
    && (Block(l, start) == Block(l, start + n - 1) ==> head == tail)
  }

  /** One more sector of the same slot. */
  lemma ClearSame(f: seq<Sector>, g: seq<Sector>, l: nat, start: nat, n: nat, size: nat, head: Fate, tail: Fate)
    requires l > 0 && n > 0 && Cleared(f, g, l, start, n, size, head, tail) && start + n < |f|
    requires Block(l, start + n) == Block(l, start + n - 1)
    ensures Cleared(f, g[start + n := Blank(size)], l, start, n + 1, size, head, tail)
  {
    hide Block, Blank;
    SameSlot(l, start, start + n);
    SameSlot(l, start, start + n - 1);
  }

  /** One more sector that was cached. */
  lemma ClearHit(f: seq<Sector>, g: seq<Sector>, l: nat, start: nat, n: nat, size: nat, head: Fate, tail: Fate)
    requires l > 0 && n > 0 && Cleared(f, g, l, start, n, size, head, tail) && start + n < |f| && Block(l, start + n) + l <= |f|
    requires Block(l, start + n) != Block(l, start + n - 1)
    ensures Cleared(f, g[start + n := Blank(size)], l, start, n + 1, size, head, Kept)
  {
    hide Block, Blank;
    SameSlot(l, start, start + n);
    SameSlot(l, start + n - 1, start + n);
    SameSlot(l, start, start + n - 1);
  }

  /** One more sector that was not, in a slot of its own. */
  lemma ClearMiss(f: seq<Sector>, g: seq<Sector>, l: nat, start: nat, n: nat, size: nat, head: Fate, tail: Fate, st: seq<Sector>)
    requires l > 0 && n > 0 && Cleared(f, g, l, start, n, size, head, tail) && start + n < |f| && Block(l, start + n) + l <= |f|
    requires |st| == l && Block(l, start + n) != Block(l, start + n - 1) && Block(l, start + n) <= start + n < Block(l, start + n) + l
    ensures Cleared(f, CacheInvariant.Adopted(g, Block(l, start + n), st[start + n - Block(l, start + n) := Blank(size)]), l, start, n + 1, size,
                    head, Replaced(st))
  {
    hide Block, Blank;
    SameSlot(l, start, start + n);
    SameSlot(l, start + n - 1, start + n);
    SameSlot(l, start, start + n - 1);
  }

  /** The first sector. */
  lemma ClearFirst(f: seq<Sector>, l: nat, start: nat, size: nat, st: seq<Sector>)
    requires l > 0 && start < |f| && Block(l, start) + l <= |f| && |st| == l && Block(l, start) <= start < Block(l, start) + l
    ensures Cleared(f, f[start := Blank(size)], l, start, 1, size, Kept, Kept)
    ensures Cleared(f, CacheInvariant.Adopted(f, Block(l, start), st[start - Block(l, start) := Blank(size)]), l, start, 1, size,
                    Replaced(st), Replaced(st))
  {
    hide Block;
  }

  /** Every slot of the cache is in use. */
  ghost predicate AllUsed(c: SectorCache.Cache)
    reads c.rec
  {
    forall i :: 0 <= i < c.rec.Length ==> c.rec[i].sector != CacheInvariant.NO_SECTOR
  }

  /** st is a whole slot of disk f. */
  ghost predicate Copy(f: seq<Sector>, l: nat, st: seq<Sector>) {
    exists a: nat :: SlotAt(f, l, st, a)
  }

  ghost predicate SlotAt(f: seq<Sector>, l: nat, st: seq<Sector>, a: nat) {
    a + l <= |f| && st == f[a..a + l]
  }

  /** Clear one sector. What a miss leaves in the rest of the slot is a copy of another slot of the
      disk, once every slot of the cache is in use. */
  method ClearOne(c: SectorCache.Cache, s: nat) returns (ghost hit: bool, ghost st: seq<Sector>)
    requires c.Valid() && c.indexLimit > 0 && s < |c.flat|
    modifies c.Repr()
    ensures c.Valid() && |c.flat| == old(|c.flat|) && Block(c.indexLimit, s) + c.indexLimit <= |c.flat| && |st| == c.indexLimit
    ensures forall t :: Block(c.indexLimit, s) <= t < Block(c.indexLimit, s) + c.indexLimit ==> c.Cached(t)
    ensures Block(c.indexLimit, s) <= s < Block(c.indexLimit, s) + c.indexLimit && hit == old(c.Cached(s))
    ensures hit ==> c.flat == old(c.flat)[s := Blank(c.sectorSize)]
    ensures !hit ==> c.flat == CacheInvariant.Adopted(old(c.flat), Block(c.indexLimit, s), st[s - Block(c.indexLimit, s) := Blank(c.sectorSize)])
    ensures old(AllUsed(c)) ==> AllUsed(c) && (!hit ==> Copy(old(c.flat), c.indexLimit, st))
  {
    hide Times, Quot, Rem, CacheInvariant.State.Inv, CacheInvariant.DirtySum, CacheInvariant.Slot;
    forall i | 0 <= i < CacheInvariant.CACHE_SIZE && c.rec[i].sector != CacheInvariant.NO_SECTOR
      ensures Copy(c.flat, c.indexLimit, c.Stale(i))
    {
      c.HeldBlock(i);
      assert SlotAt(c.flat, c.indexLimit, c.Stale(i), c.rec[i].sector);
    }
    hit := c.Cached(s);
    c.View().Shaped(-1, -1);
    assert Block(c.indexLimit, s) == c.Block(s);
    var slot := c.AllocStore(s, Blank(c.sectorSize));
    st := old(c.Stale(slot));
  }

  /** Clear n sectors that are allocated in the cache without being read. mid is the disk before the
      last slot was touched. */
  method ClearSectors(c: SectorCache.Cache, start: nat, n: nat) returns (ghost head: Fate, ghost tail: Fate, ghost mid: seq<Sector>)
    requires c.Valid() && c.indexLimit > 0 && n > 0 && start + n <= |c.flat|
    modifies c.Repr()
    ensures c.Valid() && Cleared(old(c.flat), c.flat, c.indexLimit, start, n, c.sectorSize, head, tail)
    ensures head.Kept? <==> old(c.Cached(start))
    ensures Before(c.flat, mid, c.indexLimit, start + n - 1)
    ensures old(AllUsed(c)) ==> && (head.Replaced? ==> Copy(old(c.flat), c.indexLimit, head.block))
                                && (tail.Replaced? ==> Copy(mid, c.indexLimit, tail.block))
  {
    hide SectorCache.Cache.Valid, Block, Cleared, Copy, AllUsed, Before;
    ghost var hit, st := ClearOne(c, start);
    ClearFirst(old(c.flat), c.indexLimit, start, c.sectorSize, st);
    head := if hit then Kept else Replaced(st);
    tail := head;
    mid := old(c.flat);
    BeforeFirst(mid, c.flat, c.indexLimit, start, st, Blank(c.sectorSize), hit);
    for i := 1 to n
      invariant Before(c.flat, mid, c.indexLimit, start + i - 1)
      invariant old(AllUsed(c)) ==> AllUsed(c) && (tail.Replaced? ==> Copy(mid, c.indexLimit, tail.block))
      invariant c.Valid() && Cleared(old(c.flat), c.flat, c.indexLimit, start, i, c.sectorSize, head, tail) && |c.flat| == old(|c.flat|)
      invariant forall t :: Block(c.indexLimit, start + i - 1) <= t < Block(c.indexLimit, start + i - 1) + c.indexLimit ==> c.Cached(t)
    {
      ghost var g := c.flat;
      SameSlot(c.indexLimit, start + i - 1, start + i);
      hit, st := ClearOne(c, start + i);
      BeforeNext(g, c.flat, mid, c.indexLimit, start + i, st, Blank(c.sectorSize), hit);
      if Block(c.indexLimit, start + i) != Block(c.indexLimit, start + i - 1) {
        mid := g;
      }
      if Block(c.indexLimit, start + i) == Block(c.indexLimit, start + i - 1) {
        ClearSame(old(c.flat), g, c.indexLimit, start, i, c.sectorSize, head, tail);
      } else if hit {
        ClearHit(old(c.flat), g, c.indexLimit, start, i, c.sectorSize, head, tail);
        tail := Kept;
      } else {
        ClearMiss(old(c.flat), g, c.indexLimit, start, i, c.sectorSize, head, tail, st);
        tail := Replaced(st);
      }
    }
  }

  /** Disks g and mid differ in the slot of s at most. */
  ghost predicate Before(g: seq<Sector>, mid: seq<Sector>, l: nat, s: nat)
    requires l > 0
  {
    |mid| == |g| && forall t :: 0 <= t < |g| && !(Block(l, s) <= t < Block(l, s) + l) ==> mid[t] == g[t]
  }

  lemma BeforeFirst(g: seq<Sector>, h: seq<Sector>, l: nat, s: nat, st: seq<Sector>, x: Sector, hit: bool)
    requires l > 0 && |st| == l && s < |g| && Block(l, s) <= s < Block(l, s) + l <= |g|
    requires h == if hit then g[s := x] else CacheInvariant.Adopted(g, Block(l, s), st[s - Block(l, s) := x])
    ensures Before(h, g, l, s)
  {
    hide Block;
  }

  lemma BeforeNext(g: seq<Sector>, h: seq<Sector>, mid: seq<Sector>, l: nat, s: nat, st: seq<Sector>, x: Sector, hit: bool)
    requires l > 0 && |st| == l && 0 < s < |g| && Block(l, s) <= s < Block(l, s) + l <= |g| && Before(g, mid, l, s - 1)
    requires h == if hit then g[s := x] else CacheInvariant.Adopted(g, Block(l, s), st[s - Block(l, s) := x])
    ensures Before(h, if Block(l, s) != Block(l, s - 1) then g else mid, l, s)
  {
    hide Block;
  }

  // ----- when nothing else can change -----

  /** The n sectors from start on are whole slots. */
  ghost predicate WholeSlots(l: nat, start: nat, n: nat) {
    l > 0 && Rem(start, l) == 0 && Rem(n, l) == 0
  }

  lemma TimesOne(l: nat)
    ensures Times(0, l) == 0 && Times(1, l) == l
  {
  }

  /** No sector outside shares a slot with one inside if and only if they are whole slots. */
  lemma NoNeighbours(l: nat, start: nat, n: nat)
    requires l > 0 && n > 0
    ensures (forall t :: 0 <= t && Near(l, start, n, t) ==> start <= t < start + n) <==> WholeSlots(l, start, n)
  {
    hide Times, Quot, Rem;
    SameSlot(l, start, start + n - 1);
    QuotRem(start, l);
    QuotRem(start + n - 1, l);
    var a, b := Quot(start, l), Quot(start + n - 1, l);
    TimesOne(l);
    if forall t :: 0 <= t && Near(l, start, n, t) ==> start <= t < start + n {
      assert Near(l, start, n, Block(l, start)) && Near(l, start, n, Block(l, start + n - 1) + l - 1);
      if b < a {
        TimesApart(b, a, l);
      }
      WholeIfEqual(l, start, n, a, b);
    }
    if WholeSlots(l, start, n) {
      QuotRem(n, l);
      var m := Quot(n, l);
      TimesAdds(a, m, l);
      assert m > 0;
      TimesAdds(a + m - 1, 1, l);
      QuotRemOf(a + m - 1, l - 1, l);
    }
  }

  lemma WholeIfEqual(l: nat, start: nat, n: nat, a: nat, b: nat)
    requires l > 0 && start == Times(a, l) && start + n == Times(b, l) + l && a <= b
    ensures WholeSlots(l, start, n)
  {
    hide Times, Quot, Rem;
    TimesOne(l);
    TimesAdds(b, 1, l);
    TimesAdds(a, b + 1 - a, l);
    QuotRemOf(a, 0, l);
    QuotRemOf(b + 1 - a, 0, l);
  }
}
