/** The allocator over whole runs: creating, growing, walking, truncating and deleting any
    number of files keeps their chains disjoint, leaks no cluster and keeps the copies of the
    table equal (iop/usb_mass/fat_write.c). */
module FatAllocator {
  import opened Bytes
  import opened FatRecords
  import opened FatChains
  import opened FatVolume
  import SectorCache

  /** No cluster is on two of the chains. */
  ghost predicate Apart(files: seq<seq<nat>>) {
    forall i, j, c :: 0 <= i < |files| && 0 <= j < |files| && c in files[i] && c in files[j] ==> i == j
  }

  ghost predicate OnSome(files: seq<seq<nat>>, c: nat) {
    exists i :: 0 <= i < |files| && c in files[i]
  }

  ghost predicate Chains(t: seq<nat>, endMark: nat, files: seq<seq<nat>>) {
    forall i :: 0 <= i < |files| ==> IsChain(t, endMark, files[i])
  }

  /** No cluster is lost: every data cluster in use is on one of the chains. */
  ghost predicate Accounted(t: seq<nat>, endMark: nat, files: seq<seq<nat>>) {
    forall c :: 2 <= c < |t| && c < endMark && t[c] != 0 ==> OnSome(files, c)
  }

  /** The files are whole, disjoint chains of the table, and a data cluster is in use
      exactly when it is on one of them. */
  ghost predicate FilesOk(t: seq<nat>, endMark: nat, files: seq<seq<nat>>) {
    Chains(t, endMark, files) && Apart(files) && Accounted(t, endMark, files)
  }

  /** A cluster on a chain is in use: the other half of the accounting. */
  lemma OnChainInUse(t: seq<nat>, endMark: nat, files: seq<seq<nat>>, i: nat, c: nat)
    requires FilesOk(t, endMark, files) && i < |files| && c in files[i]
    ensures 2 <= c < |t| && t[c] != 0
  {
    assert IsChain(t, endMark, files[i]);
    if t[c] == 0 {
      FreeOffChain(t, endMark, files[i], c);
    }
  }

  /** A free cluster is on no file. */
  lemma FreeOffFiles(t: seq<nat>, endMark: nat, files: seq<seq<nat>>, c: nat)
    requires FilesOk(t, endMark, files) && c < |t| && t[c] == 0
    ensures forall i :: 0 <= i < |files| ==> c !in files[i]
  {
    forall i | 0 <= i < |files|
      ensures c !in files[i]
    {
      FreeOffChain(t, endMark, files[i], c);
    }
  }

  /** A free cluster becomes a file of its own. */
  lemma CreateKeepsFiles(t: seq<nat>, endMark: nat, files: seq<seq<nat>>, c: nat, last: nat)
    requires FilesOk(t, endMark, files) && 2 <= c < |t| && c < endMark && t[c] == 0 && last >= endMark
    ensures FilesOk(t[c := last], endMark, files + [[c]])
  {
    var u, more := t[c := last], files + [[c]];
    CreateExtends(t, endMark, c, last, [c]);
    FreeOffFiles(t, endMark, files, c);
    forall i | 0 <= i < |files|
      ensures IsChain(u, endMark, more[i])
    {
      CreateExtends(t, endMark, c, last, files[i]);
    }
    forall x | 2 <= x < |u| && x < endMark && u[x] != 0
      ensures OnSome(more, x)
    {
      if x == c {
        assert x in more[|files|];
      } else {
        var i :| 0 <= i < |files| && x in files[i];
        assert x in more[i];
      }
    }
  }

  /** A free cluster is appended to file k. */
  lemma AppendKeepsFiles(t: seq<nat>, endMark: nat, files: seq<seq<nat>>, k: nat, c: nat, last: nat)
    requires FilesOk(t, endMark, files) && k < |files| && 2 <= c < |t| && c < endMark && t[c] == 0 && last >= endMark
    ensures |files[k]| > 0 && files[k][|files[k]| - 1] < |t|
    ensures FilesOk(Linked(t, files[k][|files[k]| - 1], c, last), endMark, files[k := files[k] + [c]])
  {
    hide Accounted;
    assert IsChain(t, endMark, files[k]);
    FreeOffFiles(t, endMark, files, c);
    AppendKeepsChains(t, endMark, files, k, c, last);
    AppendKeepsAccount(t, endMark, files, k, files[k][|files[k]| - 1], c, last);
  }

  lemma AppendKeepsChains(t: seq<nat>, endMark: nat, files: seq<seq<nat>>, k: nat, c: nat, last: nat)
    requires Chains(t, endMark, files) && Apart(files) && k < |files|
    requires 2 <= c < |t| && c < endMark && t[c] == 0 && last >= endMark && |files[k]| > 0 && files[k][|files[k]| - 1] < |t|
    ensures Chains(Linked(t, files[k][|files[k]| - 1], c, last), endMark, files[k := files[k] + [c]])
  {
    hide IsChain;
    var cur := files[k][|files[k]| - 1];
    var u, more := Linked(t, cur, c, last), files[k := files[k] + [c]];
    assert cur in files[k];
    forall i | 0 <= i < |files|
      ensures IsChain(u, endMark, more[i])
    {
      AppendExtends(t, endMark, files[k], c, last, files[i]);
    }
  }

  lemma AppendKeepsAccount(t: seq<nat>, endMark: nat, files: seq<seq<nat>>, k: nat, cur: nat, c: nat, last: nat)
    requires Accounted(t, endMark, files) && k < |files| && cur in files[k] && cur < |t| && 2 <= c < |t|
    ensures Accounted(Linked(t, cur, c, last), endMark, files[k := files[k] + [c]])
  {
    var u, more := Linked(t, cur, c, last), files[k := files[k] + [c]];
    forall x | 2 <= x < |u| && x < endMark && u[x] != 0
      ensures OnSome(more, x)
    {
      if x == c || x == cur {
        assert x in more[k];
      } else {
        var i :| 0 <= i < |files| && x in files[i];
        assert x in more[i];
      }
    }
  }

  /** File k is deleted. */
  lemma DeleteKeepsFiles(t: seq<nat>, endMark: nat, files: seq<seq<nat>>, k: nat)
    requires FilesOk(t, endMark, files) && k < |files|
    ensures FilesOk(Freed(t, files[k]), endMark, files[..k] + files[k + 1..])
  {
    hide IsChain, Freed;
    var u, less := Freed(t, files[k]), files[..k] + files[k + 1..];
    assert |u| == |t| by { FreedSize(t, files[k]); }
    forall i | 0 <= i < |less|
      ensures IsChain(u, endMark, less[i])
    {
      var j := if i < k then i else i + 1;
      assert less[i] == files[j] && IsChain(t, endMark, files[j]);
      ApartFrom(files, j, k);
      FreedKeeps(t, endMark, files[k], files[j]);
    }
    DeleteKeepsApart(files, k);
    DeleteKeepsAccount(t, endMark, files, k);
  }

  lemma FreedSize(t: seq<nat>, cs: seq<nat>)
    ensures |Freed(t, cs)| == |t|
  {
  }

  lemma ApartFrom(files: seq<seq<nat>>, j: nat, k: nat)
    requires Apart(files) && j < |files| && k < |files| && j != k
    ensures forall i :: 0 <= i < |files[j]| ==> files[j][i] !in files[k]
  {
    forall i | 0 <= i < |files[j]|
      ensures files[j][i] !in files[k]
    {
      assert files[j][i] in files[j];
    }
  }

  lemma DeleteKeepsApart(files: seq<seq<nat>>, k: nat)
    requires Apart(files) && k < |files|
    ensures Apart(files[..k] + files[k + 1..])
  {
    var less := files[..k] + files[k + 1..];
    forall i, j, c | 0 <= i < |less| && 0 <= j < |less| && c in less[i] && c in less[j]
      ensures i == j
    {
      assert c in files[if i < k then i else i + 1] && c in files[if j < k then j else j + 1];
    }
  }

  lemma DeleteKeepsAccount(t: seq<nat>, endMark: nat, files: seq<seq<nat>>, k: nat)
    requires Accounted(t, endMark, files) && k < |files|
    ensures Accounted(Freed(t, files[k]), endMark, files[..k] + files[k + 1..])
  {
    var u, less := Freed(t, files[k]), files[..k] + files[k + 1..];
    forall x | 2 <= x < |u| && x < endMark && u[x] != 0
      ensures OnSome(less, x)
    {
      var i :| 0 <= i < |files| && x in files[i];
      assert x in less[if i < k then i else i - 1];
    }
  }

  /** Freeing clusters leaves the stack a stack of free clusters. */
  lemma StackAfterFree(t: seq<nat>, st: seq<nat>, cs: seq<nat>)
    requires FreeStack(t, st)
    ensures FreeStack(Freed(t, cs), st)
  {
  }

  /** Every copy of the table is equal to the first one. */
  ghost predicate CopiesEqual(b: Bpb, flat: seq<Sector>)
    requires OnDisk(b, flat)
  {
    forall m :: 0 <= m < b.fatCount ==> Table(b, flat, m) == Table(b, flat, 0)
  }

  /** What holds between operations of a run. */
  ghost predicate InOrder(vol: Volume, files: seq<seq<nat>>)
    reads vol, vol.clStack, vol.cbuf, vol.cache, vol.cache.rec, vol.cache.sectorBuf
  {
    && vol.Valid() && vol.StackOk() && vol.Slackless() && vol.T()[0] != 0 && vol.T()[1] != 0
    && CopiesEqual(vol.bpb, vol.cache.flat)
    && FilesOk(vol.T(), vol.bpb.EndMark(), files)
    && MemoOk(vol, files)
  }

  /** The memo is empty or holds the start of one of the files. */
  ghost predicate MemoOk(vol: Volume, files: seq<seq<nat>>)
    requires vol.cbuf.Length == MAX_DIR_CLUSTER
    reads vol, vol.cbuf
  {
    vol.lastChainCluster < 2 || vol.lastChainCluster >= vol.bpb.EndMark()
    || exists i :: 0 <= i < |files| && |files[i]| > 0 && files[i][0] == vol.lastChainCluster
                   && vol.HoldsChunk(files[i], 0, vol.lastChainResult)
  }

  /** In a memo in order, a file finds its own chunk. */
  lemma MemoOfFile(vol: Volume, files: seq<seq<nat>>, k: nat)
    requires vol.cbuf.Length == MAX_DIR_CLUSTER && MemoOk(vol, files) && Apart(files) && k < |files| && |files[k]| > 0
    requires files[k][0] == vol.lastChainCluster && 2 <= vol.lastChainCluster < vol.bpb.EndMark()
    ensures vol.HoldsChunk(files[k], 0, vol.lastChainResult)
  {
    var i :| 0 <= i < |files| && |files[i]| > 0 && files[i][0] == vol.lastChainCluster
             && vol.HoldsChunk(files[i], 0, vol.lastChainResult);
    assert files[i][0] in files[i] && files[k][0] in files[k];
  }

  /** The volume and its files at one moment of a run. */
  datatype Moment = Moment(flat: seq<Sector>, stack: seq<nat>, last: nat, files: seq<seq<nat>>)

  ghost function Now(vol: Volume, files: seq<seq<nat>>): Moment
    requires vol.clStackIndex <= vol.clStack.Length
    reads vol, vol.clStack, vol.cache
  {
    Moment(vol.cache.flat, vol.Stack(), vol.clStackLast, files)
  }

  /** Cluster c is handed out, 0 exactly when nothing can be, and hung behind cur. */
  ghost predicate Handed(vol: Volume, s: Moment, n: Moment, cur: nat, c: nat) {
    && OnDisk(vol.bpb, s.flat) && Popped(vol.bpb, s.flat, s.stack, s.last, c, n.stack, n.last)
    && (c == 0 <==> Exhausted(vol.bpb, s.flat, s.stack, s.last))
    && (if c == 0 then n.flat == s.flat else vol.TakenOnDisk(s.flat, n.flat, cur, c) && !OnSome(s.files, c))
  }

  /** Nothing is handed out, and the clusters xs are set free. */
  ghost predicate Given(vol: Volume, s: Moment, n: Moment, xs: seq<nat>) {
    vol.FreedOnDisk(s.flat, n.flat, xs) && n.stack == s.stack && n.last == s.last
  }

  datatype Op = Create | Append(k: nat) | Walk(k: nat) | Truncate(k: nat) | Delete(k: nat)

  /** Start a file of one cluster (fat_getFreeCluster with no current cluster). */
  method CreateFile(vol: Volume, files: seq<seq<nat>>) returns (more: seq<seq<nat>>)
    requires InOrder(vol, files)
    modifies vol`clStackIndex, vol`clStackLast, vol.clStack, vol.cache.Repr()
    ensures InOrder(vol, more) && SameOutsideFat(vol.bpb, old(vol.cache.flat), vol.cache.flat)
    ensures Step(vol, Create, old(Now(vol, files)), Now(vol, more))
  {
    hide SectorCache.Cache.Valid, Table, FreeStack, FilesOk, Popped, Exhausted, RawAt;
    ghost var t := vol.T();
    ghost var f := vol.cache.flat;
    var c := vol.GetFreeCluster(0);
    more := files;
    if c != 0 {
      TakenIsLinked(t, 0, c, vol.bpb.LastRecord(), vol.bpb.Modulus());
      CreateKeepsFiles(t, vol.bpb.EndMark(), files, c, vol.bpb.LastRecord());
      FreeOffFiles(t, vol.bpb.EndMark(), files, c);
      more := files + [[c]];
      MemoStays(vol, files, more);
      TakenCopiesEqual(vol, f, vol.cache.flat, 0, c);
    }
    CreateStep(vol, old(Now(vol, files)), Now(vol, more), c);
  }

  lemma CreateStep(vol: Volume, s: Moment, n: Moment, c: nat)
    requires Handed(vol, s, n, 0, c) && n.files == if c == 0 then s.files else s.files + [[c]]
    ensures Step(vol, Create, s, n)
  {
  }

  lemma AppendStep(vol: Volume, k: nat, s: Moment, n: Moment, cur: nat, c: nat)
    requires k < |s.files| && |s.files[k]| > 0 && cur == s.files[k][|s.files[k]| - 1] && Handed(vol, s, n, cur, c)
    requires n.files == if c == 0 then s.files else s.files[k := s.files[k] + [c]]
    ensures Step(vol, Append(k), s, n)
  {
  }

  /** The memo of a file is that of a file of a longer list. */
  lemma MemoStays(vol: Volume, files: seq<seq<nat>>, more: seq<seq<nat>>)
    requires vol.cbuf.Length == MAX_DIR_CLUSTER && MemoOk(vol, files) && files <= more
    ensures MemoOk(vol, more)
  {
    assert forall i :: 0 <= i < |files| ==> more[i] == files[i];
  }

  lemma TakenCopiesEqual(vol: Volume, f: seq<Sector>, g: seq<Sector>, cur: nat, next: nat)
    requires vol.TakenOnDisk(f, g, cur, next) && CopiesEqual(vol.bpb, f)
    ensures CopiesEqual(vol.bpb, g) && SameOutsideFat(vol.bpb, f, g)
    ensures Table(vol.bpb, g, 0) == TakenTable(Table(vol.bpb, f, 0), cur, next, vol.bpb.LastRecord(), vol.bpb.Modulus())
  {
    hide Table;
  }

  lemma FreedCopiesEqual(vol: Volume, f: seq<Sector>, g: seq<Sector>, xs: seq<nat>)
    requires vol.FreedOnDisk(f, g, xs) && CopiesEqual(vol.bpb, f)
    ensures CopiesEqual(vol.bpb, g) && SameOutsideFat(vol.bpb, f, g)
    ensures Table(vol.bpb, g, 0) == Freed(Table(vol.bpb, f, 0), xs)
  {
    hide Table;
  }

  /** Append one cluster to file k and drop the memo, as fat_writeFile and
      enlargeDirentryClusterSpace do. */
  method AppendToFile(vol: Volume, files: seq<seq<nat>>, k: nat) returns (more: seq<seq<nat>>)
    requires InOrder(vol, files) && k < |files|
    modifies vol`lastChainCluster, vol`clStackIndex, vol`clStackLast, vol.clStack, vol.cache.Repr()
    ensures InOrder(vol, more) && SameOutsideFat(vol.bpb, old(vol.cache.flat), vol.cache.flat)
    ensures Step(vol, Append(k), old(Now(vol, files)), Now(vol, more))
  {
    hide SectorCache.Cache.Valid, Table, FreeStack, FilesOk, Popped, Exhausted, RawAt;
    ghost var t := vol.T();
    ghost var f := vol.cache.flat;
    LastInUse(t, vol.bpb.EndMark(), files, k);
    var cur := files[k][|files[k]| - 1];
    var c := vol.GetFreeCluster(cur);
    vol.lastChainCluster := 0;
    more := files;
    if c != 0 {
      TakenIsLinked(t, cur, c, vol.bpb.LastRecord(), vol.bpb.Modulus());
      AppendKeepsFiles(t, vol.bpb.EndMark(), files, k, c, vol.bpb.LastRecord());
      FreeOffFiles(t, vol.bpb.EndMark(), files, c);
      more := files[k := files[k] + [c]];
      TakenCopiesEqual(vol, f, vol.cache.flat, cur, c);
    }
    AppendStep(vol, k, old(Now(vol, files)), Now(vol, more), cur, c);
  }

  lemma LastInUse(t: seq<nat>, endMark: nat, files: seq<seq<nat>>, k: nat)
    requires FilesOk(t, endMark, files) && k < |files|
    ensures IsChain(t, endMark, files[k])
    ensures |files[k]| > 0 && 2 <= files[k][|files[k]| - 1] < |t| && t[files[k][|files[k]| - 1]] != 0
    ensures Apart(files)
  {
    assert IsChain(t, endMark, files[k]);
    OnChainInUse(t, endMark, files, k, files[k][|files[k]| - 1]);
  }

  /** Load the first chunk of file k. */
  method WalkFile(vol: Volume, files: seq<seq<nat>>, k: nat) returns (chunk: nat)
    requires InOrder(vol, files) && k < |files|
    modifies vol`lastChainCluster, vol`lastChainResult, vol.cbuf, vol.cache.Repr()
    ensures InOrder(vol, files) && vol.cache.flat == old(vol.cache.flat)
    ensures chunk == ChunkSize(|files[k]|) && vol.cbuf[..chunk] == files[k][..chunk]
  {
    hide SectorCache.Cache.Valid, Table, FreeStack, FilesOk, Apart;
    ghost var t := vol.T();
    LastInUse(t, vol.bpb.EndMark(), files, k);
    if vol.lastChainCluster == files[k][0] {
      MemoOfFile(vol, files, k);
    }
    var ret := vol.GetClusterChain(files[k][0], true, files[k], 0);
    assert vol.T() == t;
    chunk := if ret == 0 then MAX_DIR_CLUSTER else ret;
  }

  /** fat_deleteClusterChain on file k. */
  method DeleteFile(vol: Volume, files: seq<seq<nat>>, k: nat) returns (less: seq<seq<nat>>)
    requires InOrder(vol, files) && k < |files|
    modifies vol`lastChainCluster, vol`lastChainResult, vol.cbuf, vol.cache.Repr()
    ensures InOrder(vol, less) && SameOutsideFat(vol.bpb, old(vol.cache.flat), vol.cache.flat)
    ensures less == files[..k] + files[k + 1..] && vol.lastChainCluster == 0
    ensures vol.FreedOnDisk(old(vol.cache.flat), vol.cache.flat, files[k]) && vol.T() == Freed(old(vol.T()), files[k])
  {
    hide SectorCache.Cache.Valid, Table, FreeStack, FilesOk, Apart, Freed;
    ghost var t := vol.T();
    ghost var f := vol.cache.flat;
    LastInUse(t, vol.bpb.EndMark(), files, k);
    if vol.lastChainCluster == files[k][0] {
      MemoOfFile(vol, files, k);
    }
    var _ := vol.DeleteClusterChain(files[k][0], files[k]);
    FreedCopiesEqual(vol, f, vol.cache.flat, files[k]);
    DeleteKeepsFiles(t, vol.bpb.EndMark(), files, k);
    StackAfterFree(t, vol.clStack[..vol.clStackIndex], files[k]);
    FreedStart(t, vol.bpb.EndMark(), files[k]);
    FreedSlack(t, vol.bpb.EndMark(), files[k]);
    less := files[..k] + files[k + 1..];
  }

  lemma FreedSlack(t: seq<nat>, endMark: nat, cs: seq<nat>)
    requires IsChain(t, endMark, cs)
    ensures forall c :: endMark <= c < |t| ==> Freed(t, cs)[c] == t[c]
  {
  }

  lemma FreedStart(t: seq<nat>, endMark: nat, cs: seq<nat>)
    requires IsChain(t, endMark, cs)
    ensures var u := Freed(t, cs); |u| == |t| && u[0] == t[0] && u[1] == t[1] && u[cs[0]] == 0
  {
    assert cs[0] in cs;
  }

  /** fat_truncateFile: free the chain of file k, then make its first cluster a chain again. */
  method TruncateFile(vol: Volume, files: seq<seq<nat>>, k: nat) returns (cut: seq<seq<nat>>)
    requires InOrder(vol, files) && k < |files|
    modifies vol`lastChainCluster, vol`lastChainResult, vol.cbuf, vol.cache.Repr()
    ensures InOrder(vol, cut) && SameOutsideFat(vol.bpb, old(vol.cache.flat), vol.cache.flat)
    ensures |files[k]| > 0 && cut == files[..k] + files[k + 1..] + [files[k][..1]]
    ensures Step(vol, Truncate(k), old(Now(vol, files)), Now(vol, cut))
  {
    hide SectorCache.Cache.Valid, Table, FreeStack, FilesOk, Apart, Freed;
    ghost var t := vol.T();
    LastInUse(t, vol.bpb.EndMark(), files, k);
    FreedStart(t, vol.bpb.EndMark(), files[k]);
    var first := files[k][0];
    InUseOffStack(t, vol.bpb.EndMark(), files, k, vol.clStack[..vol.clStackIndex], vol.bpb.LastRecord());
    var less := DeleteFile(vol, files, k);
    ghost var u := vol.T();
    ghost var g := vol.cache.flat;
    vol.TakeCluster(0, first);
    CreateKeepsFiles(u, vol.bpb.EndMark(), less, first, vol.bpb.LastRecord());
    TakenCopiesEqual(vol, g, vol.cache.flat, 0, first);
    cut := less + [[first]];
    assert [first] == files[k][..1];
    TakenIsLinked(u, 0, first, vol.bpb.LastRecord(), vol.bpb.Modulus());
    SlackStays(u, 0, first, vol.bpb.EndMark(), vol.bpb.LastRecord(), vol.bpb.Modulus());
  }

  /** The first cluster of a file can be taken back without disturbing the stack. */
  lemma InUseOffStack(t: seq<nat>, endMark: nat, files: seq<seq<nat>>, k: nat, st: seq<nat>, last: nat)
    requires FilesOk(t, endMark, files) && k < |files| && FreeStack(t, st)
    ensures |files[k]| > 0 && files[k][0] < |Freed(t, files[k])|
    ensures FreeStack(Freed(t, files[k])[files[k][0] := last], st)
  {
    assert IsChain(t, endMark, files[k]);
    OnChainInUse(t, endMark, files, k, files[k][0]);
  }

  /** One operation: what it does to the files, the tables and the stack. An operation on a
      file that does not exist does nothing. */
  ghost predicate Step(vol: Volume, op: Op, s: Moment, n: Moment) {
    match op
    case Create =>
      exists c :: Handed(vol, s, n, 0, c) && n.files == if c == 0 then s.files else s.files + [[c]]
    case Append(k) =>
      if k < |s.files| && |s.files[k]| > 0 then
        exists c :: Handed(vol, s, n, s.files[k][|s.files[k]| - 1], c)
                    && n.files == if c == 0 then s.files else s.files[k := s.files[k] + [c]]
      else n == s
    case Walk(k) => n == s
    case Truncate(k) =>
      if k < |s.files| && |s.files[k]| > 0 then
        && n.stack == s.stack && n.last == s.last && n.files == s.files[..k] + s.files[k + 1..] + [s.files[k][..1]]
        && exists mid :: vol.FreedOnDisk(s.flat, mid, s.files[k]) && vol.TakenOnDisk(mid, n.flat, 0, s.files[k][0])
      else n == s
    case Delete(k) =>
      if k < |s.files| then Given(vol, s, n, s.files[k]) && n.files == s.files[..k] + s.files[k + 1..] else n == s
  }

  /** A run: one step per operation. */
  ghost predicate IsRun(vol: Volume, ops: seq<Op>, trace: seq<Moment>) {
    |trace| == |ops| + 1 && forall i :: 0 <= i < |ops| ==> Step(vol, ops[i], trace[i], trace[i + 1])
  }

  /** Any run of operations, with any outcome: each is a step from the state before it, and at
      the end the files are still disjoint whole chains that account for every cluster in use,
      the stack still holds distinct free clusters, all copies of the table agree, and no
      sector outside the tables changed. */
  method Replay(vol: Volume, files0: seq<seq<nat>>, ops: seq<Op>) returns (files: seq<seq<nat>>, ghost trace: seq<Moment>)
    requires InOrder(vol, files0)
    modifies vol`lastChainCluster, vol`lastChainResult, vol.cbuf, vol`clStackIndex, vol`clStackLast, vol.clStack,
      vol.cache.Repr()
    ensures InOrder(vol, files) && SameOutsideFat(vol.bpb, old(vol.cache.flat), vol.cache.flat)
    ensures IsRun(vol, ops, trace) && trace[0] == old(Now(vol, files0)) && trace[|ops|] == Now(vol, files)
  {
    hide SectorCache.Cache.Valid, Table, FreeStack, FilesOk, Step;
    files := files0;
    trace := [Now(vol, files)];
    for n := 0 to |ops|
      invariant InOrder(vol, files) && SameOutsideFat(vol.bpb, old(vol.cache.flat), vol.cache.flat)
      invariant IsRun(vol, ops[..n], trace) && trace[0] == old(Now(vol, files0)) && trace[n] == Now(vol, files)
    {
      var next := Perform(vol, files, ops[n]);
      assert ops[..n + 1] == ops[..n] + [ops[n]];
      files := next;
      trace := trace + [Now(vol, files)];
    }
    assert ops[..|ops|] == ops;
  }

  method Perform(vol: Volume, files: seq<seq<nat>>, op: Op) returns (next: seq<seq<nat>>)
    requires InOrder(vol, files)
    modifies vol`lastChainCluster, vol`lastChainResult, vol.cbuf, vol`clStackIndex, vol`clStackLast, vol.clStack,
      vol.cache.Repr()
    ensures InOrder(vol, next) && SameOutsideFat(vol.bpb, old(vol.cache.flat), vol.cache.flat)
    ensures Step(vol, op, old(Now(vol, files)), Now(vol, next))
  {
    hide SectorCache.Cache.Valid, Table, FreeStack, FilesOk, MemoOk, Handed;
    next := files;
    match op
    case Create =>
      next := CreateFile(vol, files);
    case Append(k) =>
      if k < |files| {
        next := AppendToFile(vol, files, k);
      }
    case Walk(k) =>
      if k < |files| {
        var _ := WalkFile(vol, files, k);
      }
    case Truncate(k) =>
      if k < |files| {
        next := TruncateFile(vol, files, k);
      }
    case Delete(k) =>
      if k < |files| {
        next := DeleteFile(vol, files, k);
      }
  }

  // ----- a full volume -----

  /** Freeing clusters below the last one scanned does not help an exhausted volume. */
  lemma StaysExhausted(vol: Volume, f: seq<Sector>, g: seq<Sector>, xs: seq<nat>, last: nat)
    requires vol.FreedOnDisk(f, g, xs) && Exhausted(vol.bpb, f, [], last) && forall c :: c in xs ==> c < last
    ensures Exhausted(vol.bpb, g, [], last)
  {
    hide RawAt;
    forall c | last <= c < vol.bpb.Entries()
      ensures !FreeIn(vol.bpb, g, c)
    {
      assert !FreeIn(vol.bpb, f, c) && c !in xs;
    }
  }

  /** clStackLast never moves back: on an exhausted volume, deleting a file whose clusters lie
      below it frees them in the table, and still no file can be created. */
  method DeletedIsNotReused(vol: Volume, files: seq<seq<nat>>, k: nat) returns (less: seq<seq<nat>>, after: seq<seq<nat>>)
    requires InOrder(vol, files) && k < |files|
    requires Exhausted(vol.bpb, vol.cache.flat, vol.Stack(), vol.clStackLast)
    requires forall c :: c in files[k] ==> c < vol.clStackLast
    modifies vol`lastChainCluster, vol`lastChainResult, vol.cbuf, vol`clStackIndex, vol`clStackLast, vol.clStack,
      vol.cache.Repr()
    ensures InOrder(vol, after) && less == files[..k] + files[k + 1..] && after == less
    ensures forall c :: c in files[k] ==> c < |vol.T()| && vol.T()[c] == 0
  {
    hide SectorCache.Cache.Valid, Table, FreeStack, FilesOk, MemoOk, FreeIn, RawAt, Popped;
    ghost var f, t := vol.cache.flat, vol.T();
    LastInUse(t, vol.bpb.EndMark(), files, k);
    less := DeleteFile(vol, files, k);
    assert vol.Stack() == [];
    StaysExhausted(vol, f, vol.cache.flat, files[k], vol.clStackLast);
    after := CreateFile(vol, less);
  }
}
