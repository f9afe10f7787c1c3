/** The invariant of the 32-slot write-back sector cache of the USB mass-storage
    driver (iop/usb_mass/scache.c), stated on values and kept step by step. */
module CacheInvariant {
  import opened Arith
  import opened Bytes

  const CACHE_SIZE := 32
  const NO_SECTOR: nat := 0xFFFFFFF0

  datatype CacheRecord = CacheRecord(sector: nat, tax: int, writeDirty: nat)

  /** `r` holds sector `s`, with `limit` sectors to a slot. */
  predicate Covers(r: CacheRecord, s: int, limit: nat) {
    r.sector <= s < r.sector + limit
  }

  /** Sum of the dirty counters of a list of records. */
  ghost function DirtySum(rs: seq<CacheRecord>): nat {
    if rs == [] then 0 else rs[0].writeDirty + DirtySum(rs[1..])
  }

  lemma {:induction false} DirtySumUpdate(rs: seq<CacheRecord>, i: nat, r: CacheRecord)
    requires i < |rs|
    ensures DirtySum(rs[i := r]) == DirtySum(rs) - rs[i].writeDirty + r.writeDirty
  {
    if i > 0 {
      assert rs[i := r][1..] == rs[1..][i - 1 := r];
      DirtySumUpdate(rs[1..], i - 1, r);
    } else {
      assert rs[0 := r][1..] == rs[1..];
    }
  }

  lemma {:induction false} DirtySumZero(rs: seq<CacheRecord>)
    ensures DirtySum(rs) == 0 <==> forall i :: 0 <= i < |rs| ==> rs[i].writeDirty == 0
  {
    if rs != [] {
      DirtySumZero(rs[1..]);
      assert forall i :: 0 <= i < |rs| - 1 ==> rs[1..][i] == rs[i + 1];
      if forall i :: 0 <= i < |rs| - 1 ==> rs[1..][i].writeDirty == 0 {
        assert forall i :: 1 <= i < |rs| ==> rs[i] == rs[1..][i - 1];
      }
    }
  }

  lemma {:induction false} DirtySumSame(rs: seq<CacheRecord>, qs: seq<CacheRecord>)
    requires |rs| == |qs|
    requires forall i :: 0 <= i < |rs| ==> rs[i].writeDirty == qs[i].writeDirty
    ensures DirtySum(rs) == DirtySum(qs)
  {
    if rs != [] {
      DirtySumSame(rs[1..], qs[1..]);
    }
  }

  /** The sectors stored in slot i of the buffer. */
  ghost function Slot(buf: seq<Sector>, i: nat, limit: nat): (d: seq<Sector>)
    requires |buf| == Times(CACHE_SIZE, limit) && i < CACHE_SIZE
    ensures |d| == limit
  {
    TimesApart(i, CACHE_SIZE, limit);
    buf[Times(i, limit)..Times(i, limit) + limit]
  }

  lemma SlotSized(buf: seq<Sector>, i: nat, limit: nat, size: nat)
    requires |buf| == Times(CACHE_SIZE, limit) && i < CACHE_SIZE && forall p :: 0 <= p < |buf| ==> |buf[p]| == size
    ensures forall k :: 0 <= k < limit ==> |Slot(buf, i, limit)[k]| == size
  {
    TimesApart(i, CACHE_SIZE, limit);
  }

  /** Changing a position of slot i leaves every other slot alone. */
  lemma SlotUpdate(buf: seq<Sector>, i: nat, k: nat, x: Sector, j: nat, limit: nat)
    requires |buf| == Times(CACHE_SIZE, limit) && i < CACHE_SIZE && j < CACHE_SIZE && k < limit
    ensures Times(i, limit) + k < |buf|
    ensures Slot(buf[Times(i, limit) + k := x], j, limit) ==
            if j == i then Slot(buf, i, limit)[k := x] else Slot(buf, j, limit)
  {
    TimesApart(i, CACHE_SIZE, limit);
    var after := buf[Times(i, limit) + k := x];
    if j < i {
      TimesApart(j, i, limit);
      assert Slot(after, j, limit) == Slot(buf, j, limit);
    } else if i < j {
      TimesApart(i, j, limit);
      TimesApart(j, CACHE_SIZE, limit);
      assert Slot(after, j, limit) == Slot(buf, j, limit);
    } else {
      assert Slot(after, i, limit) == Slot(buf, i, limit)[k := x];
    }
  }

  /** Loading slot i leaves every other slot alone. */
  lemma SlotFill(buf: seq<Sector>, b: seq<Sector>, i: nat, block: seq<Sector>, j: nat, limit: nat)
    requires |buf| == |b| == Times(CACHE_SIZE, limit) && i < CACHE_SIZE && j < CACHE_SIZE && |block| == limit
    requires forall c :: 0 <= c < |b| ==>
               b[c] == if Times(i, limit) <= c < Times(i, limit) + limit then block[c - Times(i, limit)] else buf[c]
    ensures Slot(b, j, limit) == if j == i then block else Slot(buf, j, limit)
  {
    TimesApart(j, CACHE_SIZE, limit);
    if j < i {
      TimesApart(j, i, limit);
    } else if i < j {
      TimesApart(i, j, limit);
    }
  }

  /** A disk with the sectors from a on replaced. */
  ghost function Adopted(flat: seq<Sector>, a: nat, block: seq<Sector>): (g: seq<Sector>)
    requires a + |block| <= |flat|
    ensures |g| == |flat| && forall t :: 0 <= t < |g| ==> g[t] == if a <= t < a + |block| then block[t - a] else flat[t]
  {
    flat[..a] + block + flat[a + |block|..]
  }

  /** The value of every part of the cache. */
  datatype State = State(limit: nat, rs: seq<CacheRecord>, buf: seq<Sector>,
                         disk: seq<Sector>, flat: seq<Sector>)
  {
    ghost predicate Shape() {
      && limit > 0
      && |rs| == CACHE_SIZE
      && |buf| == Times(CACHE_SIZE, limit)
      && |flat| == |disk| <= NO_SECTOR
    }

    ghost predicate RecordOk(r: CacheRecord)
      requires limit > 0
    {
      if r.sector == NO_SECTOR then r.writeDirty == 0
      else Rem(r.sector, limit) == 0 && r.sector + limit <= |disk|
    }

    /** Some dirty slot holds sector s. */
    ghost predicate DirtyAt(s: int) {
      exists i :: 0 <= i < |rs| && rs[i].writeDirty > 0 && Covers(rs[i], s, limit)
    }

    /** A live slot holds the current bytes of its sectors, all but `edited`. */
    ghost predicate SlotOk(i: nat, edited: int)
      requires Shape() && i < CACHE_SIZE
    {
      rs[i].sector != NO_SECTOR && rs[i].sector + limit <= |flat| ==>
        forall k :: 0 <= k < limit && rs[i].sector + k != edited
                    ==> Slot(buf, i, limit)[k] == flat[rs[i].sector + k]
    }

    ghost predicate Distinct() {
      forall i, j :: 0 <= i < j < |rs| && rs[i].sector == rs[j].sector ==> rs[i].sector == NO_SECTOR
    }

    /** Sectors outside dirty slots are up to date on the device. */
    ghost predicate Synced()
      requires |flat| == |disk|
    {
      forall s :: 0 <= s < |disk| && !DirtyAt(s) ==> disk[s] == flat[s]
    }

    /** The invariant, with the two exceptions a call in progress needs: slot `hole` is
        claimed but not filled; sector `edited` is changed in its buffer but not reported. */
    ghost predicate Inv(hole: int, edited: int) {
      && Shape()
      && (forall i :: 0 <= i < CACHE_SIZE ==> RecordOk(rs[i]))
      && Distinct()
      && (forall i :: 0 <= i < CACHE_SIZE && i != hole ==> SlotOk(i, edited))
      && (0 <= hole < CACHE_SIZE ==> rs[hole].writeDirty == 0)
      && Synced()
    }

    lemma Shaped(hole: int, edited: int)
      requires Inv(hole, edited)
      ensures Shape()
    {
    }

    /** At most one live slot covers a sector. */
    lemma OneSlotPerSector(hole: int, edited: int, i: nat, j: nat, s: nat)
      requires Inv(hole, edited)
      requires i < CACHE_SIZE && j < CACHE_SIZE && s < |disk|
      requires Covers(rs[i], s, limit) && Covers(rs[j], s, limit)
      ensures i == j
    {
      assert RecordOk(rs[i]) && RecordOk(rs[j]);
      AlignedApart(rs[i].sector, rs[j].sector, s, limit);
    }

    /** The block of a sector is cached only if the sector is. */
    lemma BlockUncovered(s: nat, a: nat)
      requires Inv(-1, -1) && Rem(a, limit) == 0 && a <= s < a + limit <= |disk|
      requires forall i :: 0 <= i < CACHE_SIZE ==> !Covers(rs[i], s, limit)
      ensures forall i :: 0 <= i < CACHE_SIZE ==> !Covers(rs[i], a, limit)
    {
      forall i | 0 <= i < CACHE_SIZE && Covers(rs[i], a, limit)
        ensures rs[i].sector == NO_SECTOR || rs[i].sector == a
      {
        assert RecordOk(rs[i]);
        if rs[i].sector != NO_SECTOR {
          AlignedApart(rs[i].sector, a, a, limit);
        }
      }
    }

    /** Only a cached sector can have been edited. */
    lemma NotCachedNotEdited(s: nat)
      requires Inv(-1, s)
      requires forall i :: 0 <= i < CACHE_SIZE ==> !Covers(rs[i], s, limit)
      ensures Inv(-1, -1)
    {
      forall i | 0 <= i < CACHE_SIZE
        ensures SlotOk(i, -1)
      {
        assert SlotOk(i, s) && !Covers(rs[i], s, limit);
      }
    }

    /** Without dirty slots the device holds the flat disk. */
    lemma CleanIsFlat()
      requires Inv(-1, -1)
      requires forall i :: 0 <= i < CACHE_SIZE ==> rs[i].writeDirty == 0
      ensures disk == flat
    {
      assert forall s :: !DirtyAt(s);
    }

    /** Records may change their tax freely. */
    lemma TaxKeeps(qs: seq<CacheRecord>)
      requires Inv(-1, -1) && |qs| == |rs|
      requires forall i :: 0 <= i < |rs| ==> qs[i].sector == rs[i].sector && qs[i].writeDirty == rs[i].writeDirty
      ensures this.(rs := qs).Inv(-1, -1)
    {
      var t := this.(rs := qs);
      forall i | 0 <= i < CACHE_SIZE
        ensures t.RecordOk(qs[i]) && t.SlotOk(i, -1)
      {
        assert RecordOk(rs[i]) && SlotOk(i, -1);
      }
      forall s | DirtyAt(s)
        ensures t.DirtyAt(s)
      {
        var i :| 0 <= i < |rs| && rs[i].writeDirty > 0 && Covers(rs[i], s, limit);
        assert qs[i].writeDirty > 0 && Covers(qs[i], s, limit);
      }
    }

    /** The device after slot i has been written to it. */
    ghost function Flushed(i: nat): (t: State)
      requires Shape() && i < CACHE_SIZE && rs[i].sector + limit <= |disk|
      ensures |t.disk| == |disk|
      ensures forall s :: 0 <= s < |disk| ==>
                t.disk[s] == if Covers(rs[i], s, limit) then Slot(buf, i, limit)[s - rs[i].sector] else disk[s]
    {
      var a := rs[i].sector;
      this.(disk := disk[..a] + Slot(buf, i, limit) + disk[a + limit..],
            rs := rs[i := rs[i].(writeDirty := 0)])
    }

    /** Writing a dirty slot to the device loses nothing. */
    lemma FlushedKeeps(i: nat)
      requires Inv(-1, -1) && i < CACHE_SIZE && rs[i].writeDirty > 0
      ensures rs[i].sector + limit <= |disk|
      ensures Flushed(i).Inv(-1, -1)
    {
      assert RecordOk(rs[i]) && SlotOk(i, -1);
      var t := Flushed(i);
      forall j | 0 <= j < CACHE_SIZE
        ensures t.RecordOk(t.rs[j]) && t.SlotOk(j, -1)
      {
        assert RecordOk(rs[j]) && SlotOk(j, -1);
        FlushedSlot(i, j);
      }
      FlushedSynced(i);
    }

    lemma FlushedSlot(i: nat, j: nat)
      requires Shape() && i < CACHE_SIZE && rs[i].sector + limit <= |disk|
      requires j < CACHE_SIZE && RecordOk(rs[j]) && SlotOk(j, -1)
      ensures var t := Flushed(i); t.RecordOk(t.rs[j]) && t.SlotOk(j, -1)
    {
    }

    lemma FlushedSynced(i: nat)
      requires Shape() && i < CACHE_SIZE && rs[i].sector + limit <= |disk|
      requires SlotOk(i, -1) && Synced()
      ensures Flushed(i).Synced()
    {
      var t := Flushed(i);
      forall s | DirtyAt(s) && !Covers(rs[i], s, limit)
        ensures t.DirtyAt(s)
      {
        var j :| 0 <= j < |rs| && rs[j].writeDirty > 0 && Covers(rs[j], s, limit);
        assert t.rs[j].writeDirty > 0 && Covers(t.rs[j], s, limit);
      }
      forall s | 0 <= s < |disk| && !t.DirtyAt(s)
        ensures t.disk[s] == flat[s]
      {
        if Covers(rs[i], s, limit) {
          assert Slot(buf, i, limit)[s - rs[i].sector] == flat[rs[i].sector + (s - rs[i].sector)];
        }
      }
    }

    /** A clean slot may be claimed for a block that no slot holds. */
    lemma ClaimKeeps(i: nat, r: CacheRecord)
      requires Inv(-1, -1) && i < CACHE_SIZE && rs[i].writeDirty == 0
      requires r.writeDirty == 0 && r.sector != NO_SECTOR && RecordOk(r)
      requires forall j :: 0 <= j < CACHE_SIZE ==> !Covers(rs[j], r.sector, limit)
      ensures this.(rs := rs[i := r]).Inv(i, -1)
    {
      var t := this.(rs := rs[i := r]);
      forall j | 0 <= j < CACHE_SIZE
        ensures t.RecordOk(t.rs[j]) && (j != i ==> t.SlotOk(j, -1) && rs[j].sector != r.sector)
      {
        assert RecordOk(rs[j]) && SlotOk(j, -1) && !Covers(rs[j], r.sector, limit);
      }
      forall s | DirtyAt(s)
        ensures t.DirtyAt(s)
      {
        var j :| 0 <= j < |rs| && rs[j].writeDirty > 0 && Covers(rs[j], s, limit);
        assert t.rs[j].writeDirty > 0 && Covers(t.rs[j], s, limit);
      }
    }

    /** Filling a claimed slot from the device closes the hole. */
    lemma FillKeeps(i: nat, b: seq<Sector>)
      requires Inv(i, -1) && i < CACHE_SIZE && rs[i].sector != NO_SECTOR && |b| == |buf|
      requires rs[i].sector + limit <= |disk|
      requires Slot(b, i, limit) == disk[rs[i].sector..rs[i].sector + limit]
      requires forall j :: 0 <= j < CACHE_SIZE && j != i ==> Slot(b, j, limit) == Slot(buf, j, limit)
      ensures this.(buf := b).Inv(-1, -1)
    {
      hide Times, Slot;
      var t := this.(buf := b);
      assert t.SlotOk(i, -1) by {
        forall k | 0 <= k < limit
          ensures Slot(b, i, limit)[k] == flat[rs[i].sector + k]
        {
          var s := rs[i].sector + k;
          assert Slot(b, i, limit)[k] == disk[s];
          if j :| 0 <= j < |rs| && rs[j].writeDirty > 0 && Covers(rs[j], s, limit) {
            OneSlotPerSector(i, -1, i, j, s);
          }
          assert !DirtyAt(s);
        }
      }
      forall j | 0 <= j < CACHE_SIZE && j != i
        ensures t.SlotOk(j, -1)
      {
        assert SlotOk(j, -1);
      }
      SameRecords(t);
    }

    /** A slot that was claimed but not filled becomes part of the flat disk as it is, once it is
        reported dirty. */
    lemma AdoptKeeps(i: nat, b: seq<Sector>, r: CacheRecord, g: seq<Sector>)
      requires Inv(i, -1) && i < CACHE_SIZE && rs[i].sector != NO_SECTOR && |b| == |buf| && |g| == |flat|
      requires rs[i].sector + limit <= |disk| && r.sector == rs[i].sector && r.writeDirty > 0
      requires forall j :: 0 <= j < CACHE_SIZE && j != i ==> Slot(b, j, limit) == Slot(buf, j, limit)
      requires forall t :: 0 <= t < |g| ==> g[t] == if Covers(r, t, limit) then Slot(b, i, limit)[t - r.sector] else flat[t]
      ensures this.(buf := b, rs := rs[i := r], flat := g).Inv(-1, -1)
    {
      hide Times, Slot;
      var t := this.(buf := b, rs := rs[i := r], flat := g);
      forall j | 0 <= j < CACHE_SIZE
        ensures t.RecordOk(t.rs[j]) && t.SlotOk(j, -1)
      {
        assert RecordOk(rs[j]) && (j != i ==> SlotOk(j, -1));
        if j != i {
          OtherBlock(i, j);
          AdoptSlot(i, j, b, r, g);
        }
      }
      AdoptSynced(i, b, r, g);
    }

    lemma AdoptSlot(i: nat, j: nat, b: seq<Sector>, r: CacheRecord, g: seq<Sector>)
      requires Shape() && i < CACHE_SIZE && j < CACHE_SIZE && j != i && |b| == |buf| && |g| == |flat| && SlotOk(j, -1)
      requires Slot(b, j, limit) == Slot(buf, j, limit) && r.sector == rs[i].sector
      requires forall t :: 0 <= t < |g| && !Covers(r, t, limit) ==> g[t] == flat[t]
      requires rs[j].sector != NO_SECTOR ==> forall q :: Covers(rs[j], q, limit) ==> !Covers(rs[i], q, limit)
      ensures this.(buf := b, rs := rs[i := r], flat := g).SlotOk(j, -1)
    {
      hide Times, Slot;
      if rs[j].sector != NO_SECTOR && rs[j].sector + limit <= |flat| {
        forall k | 0 <= k < limit
          ensures Slot(b, j, limit)[k] == g[rs[j].sector + k]
        {
          assert Covers(rs[j], rs[j].sector + k, limit);
          assert Slot(buf, j, limit)[k] == flat[rs[j].sector + k];
        }
      }
    }

    /** The blocks of two slots do not overlap. */
    lemma OtherBlock(i: nat, j: nat)
      requires Inv(i, -1) && i < CACHE_SIZE && j < CACHE_SIZE && i != j && rs[i].sector != NO_SECTOR
      ensures rs[j].sector != NO_SECTOR ==> forall q :: Covers(rs[j], q, limit) ==> !Covers(rs[i], q, limit)
    {
      assert RecordOk(rs[j]) && RecordOk(rs[i]);
      if rs[j].sector != NO_SECTOR {
        forall q | Covers(rs[j], q, limit)
          ensures !Covers(rs[i], q, limit)
        {
          if Covers(rs[i], q, limit) {
            OneSlotPerSector(i, -1, i, j, q);
          }
        }
      }
    }

    lemma AdoptSynced(i: nat, b: seq<Sector>, r: CacheRecord, g: seq<Sector>)
      requires Shape() && i < CACHE_SIZE && |b| == |buf| && |g| == |flat| && Synced() && rs[i].writeDirty == 0
      requires r.sector == rs[i].sector && r.writeDirty > 0
      requires forall t :: 0 <= t < |g| && !Covers(r, t, limit) ==> g[t] == flat[t]
      ensures this.(buf := b, rs := rs[i := r], flat := g).Synced()
    {
      var t := this.(buf := b, rs := rs[i := r], flat := g);
      forall q | 0 <= q < |disk| && !t.DirtyAt(q)
        ensures t.disk[q] == t.flat[q]
      {
        assert t.rs[i].writeDirty > 0 && !Covers(t.rs[i], q, limit);
        assert forall j :: 0 <= j < |rs| && j != i ==> t.rs[j] == rs[j];
        assert !DirtyAt(q);
      }
    }

    /** Changing sector s in slot i changes this slot only. */
    lemma OnlySlot(i: nat, s: nat, x: Sector, b: seq<Sector>)
      requires Shape() && i < CACHE_SIZE && Covers(rs[i], s, limit)
      requires Times(i, limit) + (s - rs[i].sector) < |buf| && b == buf[Times(i, limit) + (s - rs[i].sector) := x]
      ensures forall j :: 0 <= j < CACHE_SIZE && j != i ==> Slot(b, j, limit) == Slot(buf, j, limit)
      ensures Slot(b, i, limit) == Slot(buf, i, limit)[s - rs[i].sector := x]
    {
      hide Slot, Times;
      forall j | 0 <= j < CACHE_SIZE
        ensures Slot(b, j, limit) == if j == i then Slot(buf, i, limit)[s - rs[i].sector := x] else Slot(buf, j, limit)
      {
        SlotUpdate(buf, i, s - rs[i].sector, x, j, limit);
      }
    }

    /** A sector may be changed in its buffer. */
    lemma EditKeeps(i: nat, s: nat, x: Sector)
      requires Inv(-1, -1) && i < CACHE_SIZE && s < |disk| && Covers(rs[i], s, limit)
      ensures Times(i, limit) + (s - rs[i].sector) < |buf|
      ensures this.(buf := buf[Times(i, limit) + (s - rs[i].sector) := x]).Inv(-1, s)
    {
      TimesApart(i, CACHE_SIZE, limit);
      var t := this.(buf := buf[Times(i, limit) + (s - rs[i].sector) := x]);
      forall j | 0 <= j < CACHE_SIZE
        ensures t.SlotOk(j, s)
      {
        assert SlotOk(j, -1);
        EditKeepsSlot(i, s, x, j);
      }
      SameRecords(t);
    }

    lemma EditKeepsSlot(i: nat, s: nat, x: Sector, j: nat)
      requires Shape() && i < CACHE_SIZE && j < CACHE_SIZE && Covers(rs[i], s, limit) && SlotOk(j, -1)
      requires Times(i, limit) + (s - rs[i].sector) < |buf|
      ensures this.(buf := buf[Times(i, limit) + (s - rs[i].sector) := x]).SlotOk(j, s)
    {
      hide Times;
      var t := this.(buf := buf[Times(i, limit) + (s - rs[i].sector) := x]);
      SlotUpdate(buf, i, s - rs[i].sector, x, j, limit);
      if j != i {
        assert Slot(t.buf, j, limit) == Slot(buf, j, limit);
      } else if rs[i].sector != NO_SECTOR && rs[i].sector + limit <= |flat| {
        forall k | 0 <= k < limit && rs[i].sector + k != s
          ensures Slot(t.buf, i, limit)[k] == flat[rs[i].sector + k]
        {
          assert Slot(t.buf, i, limit)[k] == Slot(buf, i, limit)[k];
        }
      }
    }

    /** What the records alone decide is the same in a state with the same records. */
    lemma SameRecords(t: State)
      requires Shape() && t.Shape() && t.limit == limit && t.rs == rs && t.disk == disk && t.flat == flat
      ensures forall i :: 0 <= i < CACHE_SIZE ==> t.RecordOk(rs[i]) == RecordOk(rs[i])
      ensures t.Synced() == Synced() && t.Distinct() == Distinct()
    {
      assert forall s :: t.DirtyAt(s) == DirtyAt(s);
    }

    /** Reporting an edited sector dirty makes its new bytes part of the flat disk. */
    lemma ReportKeeps(i: nat, s: nat, r: CacheRecord)
      requires Inv(-1, s) && i < CACHE_SIZE && s < |disk| && Covers(rs[i], s, limit)
      requires r.sector == rs[i].sector && r.writeDirty > 0
      ensures Times(i, limit) + (s - rs[i].sector) < |buf|
      ensures this.(rs := rs[i := r], flat := flat[s := buf[Times(i, limit) + (s - rs[i].sector)]]).Inv(-1, -1)
    {
      TimesApart(i, CACHE_SIZE, limit);
      var t := this.(rs := rs[i := r], flat := flat[s := buf[Times(i, limit) + (s - rs[i].sector)]]);
      forall j | 0 <= j < CACHE_SIZE
        ensures t.RecordOk(t.rs[j]) && t.SlotOk(j, -1)
      {
        assert RecordOk(rs[j]) && SlotOk(j, s) && RecordOk(rs[i]);
        if Covers(rs[j], s, limit) {
          OneSlotPerSector(-1, s, i, j, s);
        }
        ReportKeepsSlot(i, s, r, j);
      }
      assert t.rs[i].writeDirty > 0 && Covers(t.rs[i], s, limit);
      forall q | DirtyAt(q)
        ensures t.DirtyAt(q)
      {
        var j :| 0 <= j < |rs| && rs[j].writeDirty > 0 && Covers(rs[j], q, limit);
        assert t.rs[j].writeDirty > 0 && Covers(t.rs[j], q, limit);
      }
    }

    lemma ReportKeepsSlot(i: nat, s: nat, r: CacheRecord, j: nat)
      requires Shape() && i < CACHE_SIZE && j < CACHE_SIZE && s < |flat| && Covers(rs[i], s, limit)
      requires RecordOk(rs[j]) && RecordOk(rs[i]) && SlotOk(j, s) && (Covers(rs[j], s, limit) ==> j == i)
      requires r.sector == rs[i].sector && r.writeDirty > 0
      requires Times(i, limit) + (s - rs[i].sector) < |buf|
      ensures var t := this.(rs := rs[i := r], flat := flat[s := buf[Times(i, limit) + (s - rs[i].sector)]]);
        t.RecordOk(t.rs[j]) && t.SlotOk(j, -1)
    {
      TimesApart(i, CACHE_SIZE, limit);
      assert Slot(buf, i, limit)[s - rs[i].sector] == buf[Times(i, limit) + (s - rs[i].sector)];
    }
  }
}

/** The cache itself, iop/usb_mass/scache.c. The 4096-byte slots of the buffer are
    addressed in sectors, as the C code's `index` is. */
module SectorCache {
  import opened Arith
  import opened Bytes
  import opened CacheInvariant

  const FLUSH_TRIGGER := 16
  const MAX_TAX := 0x0FFFFFFF

  class Cache {
    const sectorSize: nat
    const indexLimit: nat                 // sectors per slot
    const rec: array<CacheRecord>
    const sectorBuf: array<Sector>        // CACHE_SIZE * indexLimit sectors
    var disk: seq<Sector>                 // what the device holds
    var writeFlag: nat
    var flushCounter: nat
    ghost var flat: seq<Sector>           // the disk as its users see it

    ghost function Repr(): set<object> {
      {this, rec, sectorBuf}
    }

    ghost function View(): State
      reads this, rec, sectorBuf
    {
      State(indexLimit, rec[..], sectorBuf[..], disk, flat)
    }

    ghost predicate Sized()
      reads this, sectorBuf
    {
      && sectorSize in {512, 1024, 2048, 4096}
      && indexLimit == 4096 / sectorSize
      && Rem(|disk|, indexLimit) == 0
      && rec.Length == CACHE_SIZE
      && sectorBuf.Length == CACHE_SIZE * indexLimit
      && (rec as object) != (sectorBuf as object)
      && (forall s :: 0 <= s < |flat| ==> |flat[s]| == sectorSize)
      && (forall s :: 0 <= s < |disk| ==> |disk[s]| == sectorSize)
      && (forall p :: 0 <= p < sectorBuf.Length ==> |sectorBuf[p]| == sectorSize)
    }

    /** Dirty bookkeeping: a dirty counter never exceeds the number of writes since the
        last flush, and that number never exceeds flushCounter. */
    ghost predicate Counted()
      reads this, rec
    {
      DirtySum(rec[..]) <= writeFlag <= flushCounter
    }

    ghost predicate Valid()
      reads this, rec, sectorBuf
    {
      Sized() && View().Inv(-1, -1) && Counted() && flushCounter < FLUSH_TRIGGER
    }

    /** Valid, except that the buffer of sector s may have been changed. */
    ghost predicate Editing(s: nat)
      reads this, rec, sectorBuf
    {
      Sized() && View().Inv(-1, s) && Counted() && flushCounter < FLUSH_TRIGGER
    }

    ghost predicate Cached(s: nat)
      reads rec
    {
      exists i :: 0 <= i < rec.Length && Covers(rec[i], s, indexLimit)
    }

    /** Sector s is cached at buffer position p. */
    ghost predicate At(p: nat, s: nat)
      reads rec
    {
      && p < sectorBuf.Length
      && exists i :: 0 <= i < rec.Length && Covers(rec[i], s, indexLimit)
                     && p == Times(i, indexLimit) + (s - rec[i].sector)
    }

    constructor (sectSize: nat, image: seq<Sector>)
      requires sectSize in {512, 1024, 2048, 4096}
      requires |image| <= NO_SECTOR && Rem(|image|, 4096 / sectSize) == 0
      requires forall s :: 0 <= s < |image| ==> |image[s]| == sectSize
      ensures Valid() && fresh(Repr())
      ensures sectorSize == sectSize && flat == image && disk == image
      ensures (forall i :: 0 <= i < CACHE_SIZE ==> rec[i].sector == NO_SECTOR)
              && (forall p :: 0 <= p < sectorBuf.Length ==> sectorBuf[p] == seq(sectSize, _ => 0))
    {
      sectorSize := sectSize;
      indexLimit := 4096 / sectSize;
      disk := image;
      flat := image;
      rec := new CacheRecord[CACHE_SIZE](_ => CacheRecord(NO_SECTOR, 0, 0));
      sectorBuf := new Sector[CACHE_SIZE * (4096 / sectSize)](_ => seq(sectSize, _ => 0));
      writeFlag := 0;
      flushCounter := 0;
      new;
      DirtySumZero(rec[..]);
      TimesIsProduct(CACHE_SIZE, indexLimit);
    }

    /** Slot that holds `sector`, or -1. */
    method GetSlot(sector: nat) returns (slot: int)
      requires rec.Length == CACHE_SIZE
      ensures -1 <= slot < CACHE_SIZE
      ensures slot == -1 ==> forall i :: 0 <= i < CACHE_SIZE ==> !Covers(rec[i], sector, indexLimit)
      ensures slot >= 0 ==> Covers(rec[slot], sector, indexLimit)
    {
      for i := 0 to CACHE_SIZE
        invariant forall j :: 0 <= j < i ==> !Covers(rec[j], sector, indexLimit)
      {
        if Covers(rec[i], sector, indexLimit) {
          return i;
        }
      }
      return -1;
    }

    /** Buffer position of `sector`, or -1; every record pays the tax. */
    method GetIndexRead(sector: nat) returns (index: int, ghost slot: int)
      requires rec.Length == CACHE_SIZE
      modifies rec
      ensures forall i :: 0 <= i < CACHE_SIZE ==>
                rec[i].sector == old(rec[i].sector) && rec[i].writeDirty == old(rec[i].writeDirty)
      ensures -1 <= slot < CACHE_SIZE
      ensures slot == -1 ==> index == -1 && forall i :: 0 <= i < CACHE_SIZE ==> !Covers(rec[i], sector, indexLimit)
      ensures slot >= 0 ==> Covers(rec[slot], sector, indexLimit)
                            && index == Times(slot, indexLimit) + (sector - rec[slot].sector)
    {
      var hit := -1;
      for i := 0 to CACHE_SIZE
        invariant forall j :: 0 <= j < CACHE_SIZE ==>
                    rec[j].sector == old(rec[j].sector) && rec[j].writeDirty == old(rec[j].writeDirty)
        invariant -1 <= hit < i
        invariant hit == -1 ==> forall j :: 0 <= j < i ==> !Covers(rec[j], sector, indexLimit)
        invariant hit >= 0 ==> Covers(rec[hit], sector, indexLimit)
      {
        var tax := rec[i].tax;
        if Covers(rec[i], sector, indexLimit) {
          if tax < 0 { tax := 0; }
          tax := tax + 2;
          hit := i;
        }
        rec[i] := rec[i].(tax := tax - 1);
      }
      slot := hit;
      if hit < 0 {
        index := hit;
      } else {
        TimesIsProduct(hit, indexLimit);
        index := hit * indexLimit + (sector - rec[hit].sector);
      }
    }

    /** Copy slot i to the device and mark it clean. */
    method WriteBack(i: nat)
      requires i < CACHE_SIZE && Sized() && View().Inv(-1, -1) && rec[i].writeDirty > 0
      modifies this`disk, rec
      ensures old(rec[i].sector + indexLimit <= |disk|)
      ensures View() == old(View()).Flushed(i) && View().Inv(-1, -1) && Sized()
    {
      ghost var before := View();
      before.FlushedKeeps(i);
      TimesIsProduct(i, indexLimit);
      TimesApart(i, CACHE_SIZE, indexLimit);
      var a := rec[i].sector;
      disk := disk[..a] + sectorBuf[i * indexLimit..i * indexLimit + indexLimit] + disk[a + indexLimit..];
      rec[i] := rec[i].(writeDirty := 0);
      assert rec[..] == before.rs[i := before.rs[i].(writeDirty := 0)];
      assert |disk| == |before.disk|;
    }

    /** Evict the record with the least tax and claim it for the block at `sector`. */
    method GetIndexWrite(sector: nat) returns (index: nat, ghost slot: nat)
      requires Sized() && View().Inv(-1, -1) && Counted()
      requires indexLimit > 0 && Rem(sector, indexLimit) == 0 && sector + indexLimit <= |disk|
      requires forall i :: 0 <= i < CACHE_SIZE ==> !Covers(rec[i], sector, indexLimit)
      modifies this`disk, rec
      ensures slot < CACHE_SIZE && index == Times(slot, indexLimit) == slot * indexLimit
      ensures rec[slot].sector == sector && |disk| == old(|disk|)
      ensures forall i :: 0 <= i < CACHE_SIZE && i != slot ==> rec[i].sector == old(rec[i].sector)
      ensures (exists i :: 0 <= i < CACHE_SIZE && old(rec[i].tax) < MAX_TAX) ==>
                forall i :: 0 <= i < CACHE_SIZE ==> old(rec[slot].tax) <= old(rec[i].tax)
      ensures Sized() && View().Inv(slot, -1) && Counted()
    {
      var minTax := MAX_TAX;
      var victim := 0;
      for i := 0 to CACHE_SIZE
        invariant 0 <= victim < CACHE_SIZE
        invariant forall j :: 0 <= j < i ==> minTax <= rec[j].tax
        invariant minTax == MAX_TAX || minTax == rec[victim].tax
      {
        if rec[i].tax < minTax {
          victim := i;
          minTax := rec[i].tax;
        }
      }
      if rec[victim].writeDirty != 0 {
        DirtySumUpdate(rec[..], victim, rec[victim].(writeDirty := 0));
        WriteBack(victim);
      }
      var r := CacheRecord(sector, rec[victim].tax + 2, rec[victim].writeDirty);
      View().ClaimKeeps(victim, r);
      DirtySumUpdate(rec[..], victim, r);
      ghost var claimed := View().(rs := rec[..][victim := r]);
      rec[victim] := r;
      assert View() == claimed;
      TimesIsProduct(victim, indexLimit);
      slot := victim;
      index := victim * indexLimit;
    }

    /** Write every dirty slot to the device. */
    method FlushSectors() returns (count: nat)
      requires Sized() && View().Inv(-1, -1) && DirtySum(rec[..]) <= writeFlag
      modifies this`disk, this`writeFlag, this`flushCounter, rec
      ensures Valid() && flushCounter == 0 && disk == flat
      ensures forall i :: 0 <= i < CACHE_SIZE ==> rec[i] == old(rec[i]).(writeDirty := 0)
    {
      count := 0;
      flushCounter := 0;
      if writeFlag == 0 {
        DirtySumZero(rec[..]);
        assert forall i :: 0 <= i < CACHE_SIZE ==> rec[..][i].writeDirty == 0;
        View().CleanIsFlat();
        return;
      }
      for i := 0 to CACHE_SIZE
        invariant Sized() && View().Inv(-1, -1) && flushCounter == 0
        invariant forall j :: 0 <= j < i ==> rec[j] == old(rec[j]).(writeDirty := 0)
        invariant forall j :: i <= j < CACHE_SIZE ==> rec[j] == old(rec[j])
      {
        if rec[i].writeDirty != 0 {
          ghost var before := rec[..];
          WriteBack(i);
          assert rec[..] == before[i := before[i].(writeDirty := 0)];
          count := count + 1;
        }
      }
      writeFlag := 0;
      DirtySumZero(rec[..]);
      View().CleanIsFlat();
    }

    /** A cached sector reads as its current bytes. */
    lemma Hit(p: nat, slot: nat, sector: nat)
      requires Sized() && View().Inv(-1, -1) && sector < |disk|
      requires slot < CACHE_SIZE && Covers(rec[slot], sector, indexLimit)
      requires p == Times(slot, indexLimit) + (sector - rec[slot].sector)
      ensures At(p, sector) && sectorBuf[p] == flat[sector]
    {
      hide Times;
      TimesApart(slot, CACHE_SIZE, indexLimit);
      var v := View();
      assert v.SlotOk(slot, -1) && v.RecordOk(v.rs[slot]);
      assert Slot(v.buf, slot, indexLimit)[sector - rec[slot].sector] == sectorBuf[p];
    }

    /** Load a claimed slot from the device (READ_SECTOR_4096). */
    method FillSlot(index: nat, ghost slot: nat, aligned: nat)
      requires Sized() && slot < CACHE_SIZE && View().Inv(slot, -1)
      requires index == Times(slot, indexLimit) == slot * indexLimit && rec[slot].sector == aligned
      requires aligned + indexLimit <= |disk|
      modifies sectorBuf
      ensures View() == old(View()).(buf := sectorBuf[..]) && View().Inv(-1, -1) && Sized()
    {
      hide Times, Slot, State.Inv;
      View().Shaped(slot, -1);
      ghost var before := View();
      TimesApart(slot, CACHE_SIZE, indexLimit);
      forall k | 0 <= k < indexLimit {
        sectorBuf[index + k] := disk[aligned + k];
      }
      ghost var b := sectorBuf[..];
      forall j | 0 <= j < CACHE_SIZE
        ensures Slot(b, j, indexLimit) ==
                if j == slot then disk[aligned..aligned + indexLimit] else Slot(before.buf, j, indexLimit)
      {
        SlotFill(before.buf, b, slot, disk[aligned..aligned + indexLimit], j, indexLimit);
      }
      before.FillKeeps(slot, b);
    }

    /** Load the block of a sector that is not cached. */
    method LoadBlock(sector: nat) returns (p: nat)
      requires Sized() && View().Inv(-1, -1) && Counted() && sector < |disk|
      requires forall i :: 0 <= i < CACHE_SIZE ==> !Covers(rec[i], sector, indexLimit)
      modifies this`disk, rec, sectorBuf
      ensures Sized() && View().Inv(-1, -1) && Counted() && |disk| == old(|disk|)
      ensures At(p, sector) && sectorBuf[p] == flat[sector]
    {
      var aligned := sector / indexLimit * indexLimit;
      QuotIsDiv(sector, indexLimit);
      TimesIsProduct(sector / indexLimit, indexLimit);
      StretchInside(sector, |disk|, indexLimit);
      View().BlockUncovered(sector, aligned);
      var index, slot := GetIndexWrite(aligned);
      FillSlot(index, slot, aligned);
      p := index + sector % indexLimit;
      Hit(p, slot, sector);
    }

    /** GetIndexRead keeps everything in order. */
    method Lookup(sector: nat) returns (index: int, ghost slot: int)
      requires Valid()
      modifies rec
      ensures Valid() && |disk| == |flat|
      ensures forall i :: 0 <= i < CACHE_SIZE ==> rec[i].sector == old(rec[i].sector)
      ensures -1 <= slot < CACHE_SIZE
      ensures slot == -1 ==> index == -1 && forall i :: 0 <= i < CACHE_SIZE ==> !Covers(rec[i], sector, indexLimit)
      ensures slot >= 0 ==> Covers(rec[slot], sector, indexLimit)
                            && index == Times(slot, indexLimit) + (sector - rec[slot].sector)
    {
      hide Times, State.Inv, DirtySum;
      ghost var before := View();
      before.Shaped(-1, -1);
      index, slot := GetIndexRead(sector);
      before.TaxKeeps(rec[..]);
      DirtySumSame(before.rs, rec[..]);
      assert View() == before.(rs := rec[..]);
    }

    /** Buffer position of a sector, loading its block on a miss. */
    method ReadSector(sector: nat) returns (p: nat)
      requires Valid() && sector < |flat|
      modifies Repr()
      ensures Valid() && flat == old(flat)
      ensures At(p, sector) && sectorBuf[p] == flat[sector]
    {
      var index, slot := Lookup(sector);
      if index >= 0 {
        p := index;
        Hit(p, slot, sector);
        return;
      }
      p := LoadBlock(sector);
      CountAccess(View());
    }

    /** The write precaution: flush on every 16th miss or write. */
    method CountAccess(ghost v: State)
      requires Sized() && View() == v && v.Inv(-1, -1)
      requires DirtySum(rec[..]) <= writeFlag <= flushCounter + 1 <= FLUSH_TRIGGER
      modifies this`disk, this`writeFlag, this`flushCounter, rec
      ensures Valid() && |disk| == old(|disk|)
      ensures forall i :: 0 <= i < CACHE_SIZE ==> rec[i].sector == old(rec[i].sector)
      ensures forall p: nat, s: nat :: old(At(p, s)) ==> At(p, s)
    {
      flushCounter := flushCounter + 1;
      if flushCounter == FLUSH_TRIGGER {
        var _ := FlushSectors();
      }
      forall p: nat, s: nat | old(At(p, s))
        ensures At(p, s)
      {
        var i :| 0 <= i < rec.Length && Covers(old(rec[i]), s, indexLimit)
                 && p == Times(i, indexLimit) + (s - old(rec[i].sector));
        assert Covers(rec[i], s, indexLimit);
      }
    }

    /** Change the bytes of a sector in its buffer, as the FAT code does through sbuf. */
    method Edit(p: nat, s: nat, data: Sector)
      requires Valid() && At(p, s) && s < |disk| && |data| == sectorSize
      modifies sectorBuf
      ensures Editing(s) && At(p, s) && sectorBuf[p] == data
    {
      hide Times, Slot, State.Inv, DirtySum;
      View().Shaped(-1, -1);
      ghost var i :| 0 <= i < rec.Length && Covers(rec[i], s, indexLimit)
                     && p == Times(i, indexLimit) + (s - rec[i].sector);
      ghost var before := View();
      before.EditKeeps(i, s, data);
      sectorBuf[p] := data;
      assert View() == before.(buf := before.buf[p := data]);
    }

    /** Report a sector dirty: its buffered bytes become the disk's bytes. */
    method WriteSector(s: nat, ghost p: nat) returns (ret: int)
      requires Editing(s) && s < |disk|
      requires Cached(s) ==> At(p, s) && |sectorBuf[p]| == sectorSize
      modifies this, rec
      ensures Valid() && |disk| == old(|disk|)
      ensures !old(Cached(s)) ==> ret == -1 && flat == old(flat)
      ensures old(Cached(s)) ==> ret == sectorSize && flat == old(flat)[s := sectorBuf[p]]
      ensures forall i :: 0 <= i < CACHE_SIZE ==> rec[i].sector == old(rec[i].sector)
    {
      var slot := GetSlot(s);
      if slot < 0 {
        View().NotCachedNotEdited(s);
        return -1;
      }
      SamePlace(slot, s, p);
      MarkDirty(slot, s, p);
      CountAccess(View());
      ret := sectorSize;
    }

    /** Change a sector in its buffer and report it dirty. */
    method Store(p: nat, s: nat, data: Sector) returns (ret: int)
      requires Valid() && At(p, s) && s < |flat| && |data| == sectorSize
      modifies Repr()
      ensures Valid() && ret == sectorSize && flat == old(flat)[s := data]
      ensures forall i :: 0 <= i < CACHE_SIZE ==> rec[i].sector == old(rec[i].sector)
    {
      Edit(p, s, data);
      ret := WriteSector(s, p);
    }

    /** First sector of the block of s. */
    function Block(s: nat): (a: nat)
      requires indexLimit > 0
      ensures a <= s < a + indexLimit && Rem(a, indexLimit) == 0
    {
      QuotRem(s, indexLimit);
      QuotRemOf(Quot(s, indexLimit), 0, indexLimit);
      Times(Quot(s, indexLimit), indexLimit)
    }

    /** scache_allocSector, a new content and scache_writeSector. On a miss the slot is claimed but
        not filled: the rest of the block becomes what the slot held before, and that is the block
        that was evicted. */
    method AllocStore(s: nat, data: Sector) returns (ghost slot: nat)
      requires Valid() && s < |flat| && |data| == sectorSize
      modifies Repr()
      ensures Valid() && Block(s) + indexLimit <= |flat| == old(|flat|) && slot < CACHE_SIZE
      ensures forall t :: Block(s) <= t < Block(s) + indexLimit ==> Cached(t)
      ensures forall i :: 0 <= i < CACHE_SIZE && i != slot ==> rec[i].sector == old(rec[i].sector)
      ensures rec[slot].sector == Block(s)
      ensures old(Cached(s)) ==> flat == old(flat)[s := data]
      ensures !old(Cached(s)) ==> flat == Adopted(old(flat), Block(s), old(Stale(slot))[s - Block(s) := data])
    {
      hide Times, State.Inv, Slot, DirtySum;
      var index, hit := Lookup(s);
      StretchInside(s, |disk|, indexLimit);
      slot := 0;
      if index >= 0 {
        slot := hit;
        assert Covers(old(rec[hit]), s, indexLimit);
        Hit(index, hit, s);
        var _ := Store(index, s, data);
        BlockCached(hit, s);
      } else {
        assert forall i :: 0 <= i < CACHE_SIZE ==> !Covers(old(rec[i]), s, indexLimit);
        slot := AllocMiss(s, data);
      }
    }

    /** The sectors in slot i. */
    ghost function Stale(i: nat): (d: seq<Sector>)
      requires Sized() && i < CACHE_SIZE
      reads this, sectorBuf
      ensures |d| == indexLimit
    {
      TimesIsProduct(CACHE_SIZE, indexLimit);
      Slot(sectorBuf[..], i, indexLimit)
    }

    /** A slot in use holds its block. */
    lemma HeldBlock(i: nat)
      requires Sized() && View().Inv(-1, -1) && i < CACHE_SIZE && rec[i].sector != NO_SECTOR
      ensures rec[i].sector + indexLimit <= |flat| && Stale(i) == flat[rec[i].sector..rec[i].sector + indexLimit]
    {
      hide Slot, Times;
      var v := View();
      assert v.RecordOk(v.rs[i]) && v.SlotOk(i, -1);
    }

    /** A slot that holds s holds its block. */
    lemma BlockCached(i: nat, s: nat)
      requires Sized() && View().Inv(-1, -1) && i < CACHE_SIZE && Covers(rec[i], s, indexLimit) && s < |flat|
      ensures rec[i].sector == Block(s) && forall t :: Block(s) <= t < Block(s) + indexLimit ==> Cached(t)
    {
      StretchInside(s, |disk|, indexLimit);
      assert View().RecordOk(rec[i]);
      AlignedApart(rec[i].sector, Block(s), s, indexLimit);
      forall t | Block(s) <= t < Block(s) + indexLimit
        ensures Cached(t)
      {
        assert Covers(rec[i], t, indexLimit);
      }
    }

    /** The miss: claim, change, report dirty. */
    method AllocMiss(s: nat, data: Sector) returns (ghost slot: nat)
      requires Valid() && s < |flat| && |data| == sectorSize && forall i :: 0 <= i < CACHE_SIZE ==> !Covers(rec[i], s, indexLimit)
      modifies Repr()
      ensures Valid() && Block(s) + indexLimit <= |flat| == old(|flat|) && slot < CACHE_SIZE
      ensures forall t :: Block(s) <= t < Block(s) + indexLimit ==> Cached(t)
      ensures forall i :: 0 <= i < CACHE_SIZE && i != slot ==> rec[i].sector == old(rec[i].sector)
      ensures rec[slot].sector == Block(s)
      ensures flat == Adopted(old(flat), Block(s), old(Stale(slot))[s - Block(s) := data])
    {
      hide Slot, Times, DirtySum, State.Inv;
      View().Shaped(-1, -1);
      var aligned := s / indexLimit * indexLimit;
      QuotIsDiv(s, indexLimit);
      TimesIsProduct(s / indexLimit, indexLimit);
      StretchInside(s, |disk|, indexLimit);
      View().BlockUncovered(s, aligned);
      var index;
      index, slot := GetIndexWrite(aligned);
      Adopt(s, data, index, slot, aligned);
      CountAccess(View());
      BlockCached(slot, s);
    }

    /** Change sector s in a claimed slot and report it dirty. */
    method Adopt(s: nat, data: Sector, index: nat, ghost slot: nat, aligned: nat)
      requires Sized() && slot < CACHE_SIZE && View().Inv(slot, -1) && Counted() && index == Times(slot, indexLimit)
      requires rec[slot].sector == aligned <= s < aligned + indexLimit <= |disk| && |data| == sectorSize
      requires Rem(aligned, indexLimit) == 0
      modifies sectorBuf, rec, this`flat, this`writeFlag
      ensures Sized() && View().Inv(-1, -1) && DirtySum(rec[..]) <= writeFlag == old(writeFlag) + 1
      ensures forall i :: 0 <= i < CACHE_SIZE ==> rec[i].sector == old(rec[i].sector)
      ensures |flat| == old(|flat|)
      ensures flat == Adopted(old(flat), aligned, old(Stale(slot))[s - aligned := data])
    {
      hide Slot, Times, DirtySum, Rem, State.Inv;
      ghost var v := View();
      v.Shaped(slot, -1);
      AlignedPlace(s, aligned);
      SlotEnd(slot);
      sectorBuf[index + s % indexLimit] := data;
      ghost var b := sectorBuf[..];
      assert b == v.buf[index + (s - aligned) := data];
      var w := GetSlot(s);
      v.OneSlotPerSector(slot, -1, slot, w, s);
      var r := CacheRecord(rec[w].sector, rec[w].tax + 2, rec[w].writeDirty + 1);
      v.OnlySlot(slot, s, data, b);
      ghost var g := Adopted(flat, aligned, Slot(b, slot, indexLimit));
      v.AdoptKeeps(slot, b, r, g);
      SlotSized(b, slot, indexLimit, sectorSize);
      DirtySumUpdate(rec[..], w, r);
      rec[w] := r;
      flat := g;
      writeFlag := writeFlag + 1;
      assert View() == v.(buf := b, rs := v.rs[slot := r], flat := g);
    }

    lemma AlignedPlace(s: nat, a: nat)
      requires indexLimit > 0 && Rem(a, indexLimit) == 0 && a <= s < a + indexLimit
      ensures s % indexLimit == s - a
    {
      QuotRem(a, indexLimit);
      QuotRemOf(Quot(a, indexLimit), s - a, indexLimit);
      QuotIsDiv(s, indexLimit);
    }

    lemma SlotEnd(i: nat)
      requires sectorBuf.Length == CACHE_SIZE * indexLimit && i < CACHE_SIZE
      ensures Times(i, indexLimit) + indexLimit <= sectorBuf.Length
    {
      TimesApart(i, CACHE_SIZE, indexLimit);
      TimesIsProduct(CACHE_SIZE, indexLimit);
    }

    /** A sector has one buffer position. */
    lemma SamePlace(slot: nat, s: nat, p: nat)
      requires Sized() && View().Inv(-1, s) && s < |disk| && At(p, s)
      requires slot < CACHE_SIZE && Covers(rec[slot], s, indexLimit)
      ensures p == Times(slot, indexLimit) + (s - rec[slot].sector)
    {
      var i :| 0 <= i < rec.Length && Covers(rec[i], s, indexLimit)
               && p == Times(i, indexLimit) + (s - rec[i].sector);
      View().OneSlotPerSector(-1, s, i, slot, s);
    }

    /** Set the dirty status of a slot. */
    method MarkDirty(slot: nat, s: nat, ghost p: nat)
      requires Sized() && View().Inv(-1, s) && Counted() && s < |disk|
      requires slot < CACHE_SIZE && Covers(rec[slot], s, indexLimit)
      requires p == Times(slot, indexLimit) + (s - rec[slot].sector) < sectorBuf.Length && |sectorBuf[p]| == sectorSize
      modifies this`writeFlag, this`flat, rec
      ensures Sized() && View().Inv(-1, -1) && flat == old(flat)[s := sectorBuf[p]]
      ensures DirtySum(rec[..]) <= writeFlag == old(writeFlag) + 1
      ensures forall i :: 0 <= i < CACHE_SIZE ==> rec[i].sector == old(rec[i].sector)
    {
      ghost var before := View();
      var r := CacheRecord(rec[slot].sector, rec[slot].tax + 2, rec[slot].writeDirty + 1);
      before.ReportKeeps(slot, s, r);
      DirtySumUpdate(before.rs, slot, r);
      rec[slot] := r;
      flat := flat[s := sectorBuf[p]];
      writeFlag := writeFlag + 1;
      assert rec[..] == before.rs[slot := r];
      assert View() == before.(rs := before.rs[slot := r], flat := before.flat[s := before.buf[p]]);
    }
  }

  /** A sector that is allocated and written takes its neighbour with it: on a fresh cache over a
      disk of ones, storing sector 0 as it was turns sector 1 into zeros. */
  method AllocLosesNeighbour() returns (c: Cache)
    ensures c.Valid() && |c.flat| == 8 && c.flat[0] == seq(512, _ => 1) && c.flat[1] == seq(512, _ => 0)
  {
    hide Times, State.Inv, DirtySum;
    var ones := seq(512, _ => 1);
    WholeSlots();
    c := new Cache(512, seq(8, _ => ones));
    TimesIsProduct(CACHE_SIZE, 8);
    forall i | 0 <= i < CACHE_SIZE
      ensures c.Stale(i)[1] == seq(512, _ => 0)
    {
      SlotEntry(c.sectorBuf[..], i, 8, 1);
    }
    assert !c.Cached(0);
    var slot := c.AllocStore(0, ones);
  }

  lemma WholeSlots()
    ensures Rem(8, 8) == 0
  {
    QuotIsDiv(8, 8);
  }

  lemma SlotEntry(buf: seq<Sector>, i: nat, limit: nat, k: nat)
    requires |buf| == Times(CACHE_SIZE, limit) && i < CACHE_SIZE && k < limit
    ensures Times(i, limit) + k < |buf| && Slot(buf, i, limit)[k] == buf[Times(i, limit) + k]
  {
    TimesApart(i, CACHE_SIZE, limit);
  }

  // ----- whole runs -----

  /** What a user of the cache can do between two calls. */
  datatype Op = Read(s: nat) | Update(s: nat, data: Sector) | Flush

  predicate Legal(op: Op, size: nat, sectorSize: nat) {
    match op
    case Read(s) => s < size
    case Update(s, data) => s < size && |data| == sectorSize
    case Flush => true
  }

  /** The same operations on a plain disk: the sectors read, and the disk at the end. */
  ghost function FlatRun(flat: seq<Sector>, ops: seq<Op>): (seq<Sector>, seq<Sector>)
    decreases |ops|
  {
    if ops == [] then ([], flat)
    else
      var (out, d) := FlatRun(flat, ops[..|ops| - 1]);
      match ops[|ops| - 1]
      case Read(s) => (if s < |d| then out + [d[s]] else out, d)
      case Update(s, data) => (out, if s < |d| then d[s := data] else d)
      case Flush => (out, d)
  }

  /** Every run of reads, read-modify-writes and flushes on the cache reads what the
      plain disk would have given, and a final flush leaves the device equal to it. */
  method Replay(c: Cache, ops: seq<Op>) returns (out: seq<Sector>)
    requires c.Valid()
    requires forall i :: 0 <= i < |ops| ==> Legal(ops[i], |c.flat|, c.sectorSize)
    modifies c.Repr()
    ensures c.Valid() && (out, c.flat) == FlatRun(old(c.flat), ops)
    ensures c.disk == c.flat
  {
    out := [];
    for i := 0 to |ops|
      invariant c.Valid() && |c.flat| == old(|c.flat|)
      invariant (out, c.flat) == FlatRun(old(c.flat), ops[..i])
    {
      assert ops[..i + 1][..i] == ops[..i];
      match ops[i]
      case Read(s) =>
        var p := c.ReadSector(s);
        out := out + [c.sectorBuf[p]];
      case Update(s, data) =>
        var p := c.ReadSector(s);
        c.Edit(p, s, data);
        var _ := c.WriteSector(s, p);
      case Flush =>
        var _ := c.FlushSectors();
    }
    assert ops[..|ops|] == ops;
    var _ := c.FlushSectors();
  }
}
