/** pbuf_take: buffers that refer to foreign memory are replaced by copies
    (iop/SMSTCPIP/pbuf.c). */
module PbufTake {
  import opened Bytes
  import opened PbufStore
  import opened Pbufs
  import opened PbufPool

  /** Heap addresses that PBUF_RAM allocations would return, in order, before they fail. */
  ghost predicate RamOk(s: Store, all: set<nat>, ram: seq<nat>) {
    NoDup(ram) && 0 !in ram && forall i :: 0 <= i < |ram| ==> ram[i] !in s && ram[i] !in all
  }

  /** A new buffer of n bytes with one owner. */
  ghost predicate IsNew(s: Store, t: Store, q: nat, n: nat) {
    && q != 0 && q !in s && t.Keys == s.Keys + {q} && (forall x :: x in s ==> t[x] == s[x])
    && t[q].next == 0 && t[q].kind != Ref && |t[q].data| == n && t[q].totLen == n && t[q].refs == 1
  }

  lemma FromPool(s: Store, t: Store, c: seq<nat>, q: nat, n: nat)
    requires Extends(s, t, c) && IsChain(t, q, c) && |c| == 1 && Coming(t, c, 0) && t[q].totLen == n && 0 !in t
    ensures IsNew(s, t, q, n) && t[q].kind == Pool
  {
    assert LinkAt(t, c, 0) && ComingAt(t, c, 0, 0);
    assert Elements(c) == {q} by { assert c[0] == q; }
  }

  lemma RamAdded(s: Store, own: Owners, pool: seq<nat>, all: set<nat>, ram: seq<nat>, b: Pbuf)
    requires Counted(s, own, 0) && PoolOk(s, pool, all) && RamOk(s, all, ram) && ram != []
    requires b.next == 0 && b.refs == 1 && b.kind == Ram && b.totLen == |b.data|
    ensures var t := s[ram[0] := b];
      Counted(t, own[ram[0] := 1], 0) && PoolOk(t, pool, all) && RamOk(t, all, ram[1..])
  {
    hide Counted, PoolOk;
    NoNull(s, own);
    AddOwned(s, own, ram[0], b);
    AddedPool(s, pool, all, ram[0], b);
    forall i | 0 <= i < |ram[1..]|
      ensures ram[1..][i] == ram[i + 1] && ram[1..][i] != ram[0]
    {
    }
  }

  lemma AddedPool(s: Store, pool: seq<nat>, all: set<nat>, q: nat, b: Pbuf)
    requires PoolOk(s, pool, all) && q !in s && q !in all && b.kind == Ram
    ensures PoolOk(s[q := b], pool, all)
  {
    assert PoolLive(s[q := b]) == PoolLive(s);
    forall i | 0 <= i < |pool|
      ensures pool[i] != q
    {
      assert pool[i] in Elements(pool);
    }
  }

  /** A replacement: from the pool if it is small enough and the pool is not empty, else from
      the heap. */
  method NewBuffer(b: Pbufs, n: nat, ram0: seq<nat>) returns (q: nat, ram: seq<nat>)
    requires b.Sound() && RamOk(b.node, b.all, ram0) && n <= 0xFFFF
    modifies b
    ensures b.Sound() && RamOk(b.node, b.all, ram)
    ensures q != 0 ==> IsNew(old(b.node), b.node, q, n)
    ensures q == 0 ==> b.node == old(b.node)
    ensures forall x :: Held(b.own, x) == if q != 0 && x == q then 1 else old(Held(b.own, x))
    ensures q != 0 <==> (n <= PBUF_POOL_BUFSIZE && old(b.pool) != []) || ram0 != []
    ensures if n <= PBUF_POOL_BUFSIZE && old(b.pool) != [] then |b.pool| == |old(b.pool)| - 1 && ram == ram0
            else |b.pool| == |old(b.pool)| && ram == if ram0 == [] then [] else ram0[1..]
  {
    hide Counted, Totals, PoolOk, RamOk, Extends, IsChain, Coming, IsNew;
    ram := ram0;
    ghost var s := b.node;
    q := 0;
    OneBlock(n);
    if n <= PBUF_POOL_BUFSIZE {
      NoElements(b.pool);
      ghost var c;
      q, c := AllocPool(b, n, 0);
      if q != 0 {
        NoNull(b.node, b.own);
        FromPool(s, b.node, c, q, n);
        RamStill(s, b.node, b.pool, b.all, ram, q, n);
      } else {
        NoElements(b.pool);
      }
    }
    if q == 0 && ram != [] {
      q := ram[0];
      var copy := Pbuf(0, Ram, seq(n, _ => 0), n, 1);
      RamAdded(b.node, b.own, b.pool, b.all, ram, copy);
      RamIsNew(b.node, b.all, ram, copy);
      b.node := b.node[q := copy];
      b.own := b.own[q := 1];
      ram := ram[1..];
    }
  }

  lemma OneBlock(n: nat)
    ensures n <= PBUF_POOL_BUFSIZE ==> Needed(n, 0) == 1
  {
  }

  lemma NoElements(l: seq<nat>)
    ensures l == [] <==> Elements(l) == {}
  {
    if l != [] {
      assert l[0] in Elements(l);
    }
  }

  lemma RamIsNew(s: Store, all: set<nat>, ram: seq<nat>, b: Pbuf)
    requires RamOk(s, all, ram) && ram != [] && b.next == 0 && b.kind == Ram && b.refs == 1 && b.totLen == |b.data|
    ensures ram[0] != 0 && IsNew(s, s[ram[0] := b], ram[0], |b.data|)
  {
  }

  lemma RamStill(s: Store, t: Store, pool: seq<nat>, all: set<nat>, ram: seq<nat>, q: nat, n: nat)
    requires RamOk(s, all, ram) && IsNew(s, t, q, n) && PoolOk(t, pool, all) && t[q].kind == Pool
    ensures RamOk(t, all, ram)
  {
    assert q in PoolLive(t);
  }

  // ----- putting the copy in place -----

  /** The store with q in the place of p, which has lost its link. */
  ghost predicate SwappedIn(s: Store, u: Store, prev: nat, p: nat, q: nat) {
    && p in s && q in s && p != q && u.Keys == s.Keys && (prev != 0 ==> prev in s && prev != p && prev != q && s[prev].next == p)
    && u[p] == s[p].(next := 0)
    && u[q] == s[q].(next := s[p].next, data := s[p].data, totLen := s[p].totLen)
    && (prev != 0 ==> u[prev] == s[prev].(next := q))
    && (forall x :: x in s && x != p && x != q && x != prev ==> u[x] == s[x])
  }

  /** Only an owner refers to a new buffer. */
  lemma NoPreds(s: Store, own: Owners, q: nat)
    requires Counted(s, own, 0) && q in s && s[q].refs == 1 && Held(own, q) == 1
    ensures Preds(s, q) == {}
  {
    assert |Preds(s, q)| == 0;
  }

  /** Links before and after: prev, if there is one, now leads to q. */
  lemma SwapPreds(s: Store, u: Store, prev: nat, p: nat, q: nat, x: nat)
    requires SwappedIn(s, u, prev, p, q) && 0 !in s && Preds(s, q) == {} && x in s && s[q].next == 0
    requires s[p].next != p && s[p].next != q
    ensures x == p ==> |Preds(u, x)| == |Preds(s, x)| - if prev == 0 then 0 else 1
    ensures x == q ==> |Preds(u, x)| == if prev == 0 then 0 else 1
    ensures x != p && x != q ==> |Preds(u, x)| == |Preds(s, x)|
  {
    forall y | y in s
      ensures s[y].next != q
    {
      assert y !in Preds(s, q);
    }
    if x == p {
      assert Preds(u, x) == if prev == 0 then Preds(s, x) else Preds(s, x) - {prev};
      assert prev != 0 ==> prev in Preds(s, x);
    } else if x == q {
      assert Preds(u, x) == if prev == 0 then {} else {prev};
    } else {
      SwapOther(s, u, prev, p, q, x);
    }
  }

  lemma SwapOther(s: Store, u: Store, prev: nat, p: nat, q: nat, x: nat)
    requires SwappedIn(s, u, prev, p, q) && 0 !in s && x in s && x != p && x != q && s[q].next == 0
    ensures |Preds(u, x)| == |Preds(s, x)|
  {
    forall y | y in s && y != p && y != q
      ensures u[y].next == x <==> s[y].next == x
    {
      assert y != prev ==> u[y] == s[y];
    }
    var others := set y | y in s && y != p && y != q && s[y].next == x;
    hide SwappedIn;
    SwapSide(s, u, others, p, q, x);
  }

  lemma SwapSide(s: Store, u: Store, others: set<nat>, p: nat, q: nat, x: nat)
    requires u.Keys == s.Keys && p in s && q in s && p != q && x in s && 0 !in s
    requires u[p].next == 0 == s[q].next && u[q].next == s[p].next
    requires forall y :: y in s && y != p && y != q ==> (u[y].next == x <==> s[y].next == x)
    requires others == set y | y in s && y != p && y != q && s[y].next == x
    ensures |Preds(u, x)| == |Preds(s, x)|
  {
    SideOf(s, others, p, q, x);
    SideOf(u, others, q, p, x);
  }

  /** The links to x, with those of q and p told apart. */
  lemma SideOf(s: Store, others: set<nat>, p: nat, q: nat, x: nat)
    requires p in s && q in s && p != q && s[q].next != x && p !in others && q !in others
    requires forall y :: y in others <==> y in s && y != p && y != q && s[y].next == x
    ensures |Preds(s, x)| == |others| + if s[p].next == x then 1 else 0
  {
    assert Preds(s, x) == if s[p].next == x then others + {p} else others;
  }

  /** The counts after the swap: what is left is to drop the reference to p. */
  lemma SwapCounted(s: Store, own: Owners, u: Store, own': Owners, prev: nat, p: nat, q: nat)
    requires Counted(s, own, 0) && SwappedIn(s, u, prev, p, q) && s[q].refs == 1 && s[q].next == 0
    requires Held(own, q) == 1 && (prev == 0 ==> Held(own, p) >= 1) && s[p].next != p && s[p].next != q
    requires own' == if prev == 0 then own[p := Held(own, p) - 1] else own[q := 0]
    ensures Counted(u, own', p) && IsChain(u, p, [p])
  {
    hide Preds;
    NoPreds(s, own, q);
    forall x | x in s
      ensures x == p ==> |Preds(u, x)| == |Preds(s, x)| - if prev == 0 then 0 else 1
      ensures x == q ==> |Preds(u, x)| == if prev == 0 then 0 else 1
      ensures x != p && x != q ==> |Preds(u, x)| == |Preds(s, x)|
    {
      SwapPreds(s, u, prev, p, q, x);
    }
    assert |Preds(s, q)| == 0;
    assert LinkAt(u, [p], 0);
  }

  /** Which tot_len are right after the swap: those that were, that of the copy if that of p was,
      and that of p if nothing was behind it. */
  lemma SwapTotals(s: Store, own: Owners, u: Store, prev: nat, p: nat, q: nat)
    requires Counted(s, own, 0) && SwappedIn(s, u, prev, p, q) && Preds(s, q) == {} && s[p].next != p && s[p].next != q
    ensures forall x :: x in s && x != p && x != q ==> (TotalAt(u, x) <==> TotalAt(s, x))
    ensures TotalAt(u, q) <==> TotalAt(s, p)
    ensures TotalAt(u, p) <==> s[p].totLen == |s[p].data|
  {
    forall x | x in s && x != p && x != q
      ensures TotalAt(u, x) <==> TotalAt(s, x)
    {
      assert x !in Preds(s, q);
    }
  }

  ghost predicate Shared(s: Store, x: nat) {
    x in s && s[x].kind == Ref && s[x].refs > 1
  }

  /** The store t after the reference to p has been dropped as well. */
  ghost predicate Let(u: Store, t: Store, p: nat) {
    && p in u && t.Keys == (if u[p].refs > 1 then u.Keys else u.Keys - {p})
    && (forall x :: x in t && x != p ==> t[x] == u[x]) && (p in t ==> t[p] == u[p].(refs := u[p].refs - 1))
  }

  lemma LetTotals(u: Store, t: Store, p: nat)
    requires Let(u, t, p) && TotalsStay(u, t)
    ensures forall x :: x in t ==> (TotalAt(t, x) <==> TotalAt(u, x))
  {
  }

  /** The chain with q in the place of p. */
  lemma SwapChain(s: Store, u: Store, t: Store, h: nat, c: seq<nat>, i: nat, q: nat)
    requires IsChain(s, h, c) && 0 !in s && i < |c| && q !in c && q in s
    requires SwappedIn(s, u, if i == 0 then 0 else c[i - 1], c[i], q) && Let(u, t, c[i])
    ensures var d := c[i := q];
      && IsChain(t, if i == 0 then q else h, d) && Data(t, d) == Data(s, c) && c[i] !in d
      && (forall j :: i < j < |c| ==> c[j] in s && c[j] in t && t[c[j]] == s[c[j]])
      && (forall j :: 0 <= j < i ==> c[j] in s && c[j] in t && t[c[j]].kind == s[c[j]].kind && |t[c[j]].data| == |s[c[j]].data|)
  {
    var d := c[i := q];
    forall j | 0 <= j < |c|
      ensures LinkAt(s, c, j) && LinkAt(t, d, j) && (j != i ==> c[j] != c[i] && d[j] != c[i])
      ensures t[d[j]].data == s[c[j]].data && (j > i ==> t[c[j]] == s[c[j]]) && (j < i ==> t[c[j]].kind == s[c[j]].kind)
    {
      assert LinkAt(s, c, j) && LinkAt(s, c, i) && (i > 0 ==> LinkAt(s, c, i - 1));
      assert c[j] != q;
      Distinct(s, h, c, j, i);
      if i > 0 {
        Distinct(s, h, c, j, i - 1);
      }
      if j + 1 < |c| {
        Distinct(s, h, c, j + 1, i);
      }
    }
    SwapData(s, t, c, d);
  }

  lemma Distinct(s: Store, h: nat, c: seq<nat>, j: nat, i: nat)
    requires IsChain(s, h, c) && 0 !in s && j < |c| && i < |c|
    ensures c[j] == c[i] <==> j == i
  {
    if c[j] == c[i] {
      if j <= i {
        ChainsMeet(s, c, h, j, i);
      } else {
        ChainsMeet(s, c, h, i, j);
      }
    }
  }

  lemma {:induction false} SwapData(s: Store, t: Store, c: seq<nat>, d: seq<nat>)
    requires |c| == |d| && forall j :: 0 <= j < |c| ==> c[j] in s && d[j] in t && t[d[j]].data == s[c[j]].data
    ensures Data(t, d) == Data(s, c)
  {
    if c != [] {
      assert c[0] in s && d[0] in t;
      SwapData(s, t, c[1..], d[1..]);
    }
  }

  /** A chain the caller holds. */
  ghost predicate Takeable(s: Store, own: Owners, h: nat, c: seq<nat>) {
    && IsChain(s, h, c) && c != [] && Held(own, h) >= 1
    && (forall j :: 0 <= j < |c| ==> c[j] in s && |s[c[j]].data| <= 0xFFFF)
  }

  /** Buffer i of a takeable chain is to be replaced by the new buffer q. */
  ghost predicate ReadyToSwap(s: Store, own0: Owners, s1: Store, own: Owners, head: nat, c: seq<nat>, i: nat, q: nat, prev: nat) {
    && Takeable(s, own0, head, c) && Counted(s, own0, 0) && i < |c| && c[i] in s && s[c[i]].kind == Ref
    && IsNew(s, s1, q, |s[c[i]].data|) && prev == (if i == 0 then 0 else c[i - 1])
    && (forall x :: Held(own, x) == if x == q then 1 else Held(own0, x))
  }

  lemma SwapFacts(s: Store, own0: Owners, s1: Store, own: Owners, head: nat, c: seq<nat>, i: nat, q: nat, prev: nat)
    requires ReadyToSwap(s, own0, s1, own, head, c, i, q, prev)
    ensures var p := c[i];
      && p in s1 && q in s1 && p != q && q != 0 && q !in c && s1[p] == s[p] && s1[q].refs == 1 && s1[q].next == 0
      && s1[p].kind == Ref && s1[q].kind != Ref && Held(own, q) == 1 && (prev == 0 ==> i == 0 && p == head && Held(own, p) >= 1)
      && (prev != 0 ==> i > 0 && prev in s1 && prev != p && prev != q && s1[prev].next == p)
      && s1[p].next != p && s1[p].next != q && IsChain(s1, head, c) && Data(s1, c) == Data(s, c) && 0 !in s1
  {
    hide Counted, Data;
    NoNull(s, own0);
    assert LinkAt(s, c, i) && (i > 0 ==> LinkAt(s, c, i - 1));
    assert forall j :: 0 <= j < |c| ==> c[j] in s && c[j] != q;
    if i > 0 {
      Distinct(s, head, c, i - 1, i);
    }
    if i + 1 < |c| {
      Distinct(s, head, c, i, i + 1);
    }
    StillChain(s, s1, head, c, q, |s[c[i]].data|);
  }

  /** A new buffer does not disturb a chain. */
  lemma StillChain(s: Store, s1: Store, head: nat, c: seq<nat>, q: nat, n: nat)
    requires IsChain(s, head, c) && IsNew(s, s1, q, n) && 0 !in s
    ensures IsChain(s1, head, c) && Data(s1, c) == Data(s, c) && 0 !in s1
  {
    forall j | 0 <= j < |c|
      ensures LinkAt(s1, c, j) && c[j] in s && c[j] in s1 && s1[c[j]].data == s[c[j]].data
    {
      assert LinkAt(s, c, j);
    }
    SwapData(s, s1, c, c);
  }

  /** Replace buffer i of the chain by its copy q and drop it. */
  method PutInPlace(b: Pbufs, head: nat, p: nat, q: nat, prev: nat, ghost s: Store, ghost own0: Owners, ghost c: seq<nat>, ghost i: nat)
    returns (newHead: nat)
    requires b.Sound() && ReadyToSwap(s, own0, b.node, b.own, head, c, i, q, prev) && p == c[i]
    modifies b
    ensures b.Sound() && newHead == (if i == 0 then q else head) && b.pool == old(b.pool)
    ensures Swapped(s, b.node, b.own, newHead, c, i, q)
    ensures b.own == if i == 0 then old(b.own)[p := Held(old(b.own), p) - 1] else old(b.own)[q := 0]
  {
    hide Counted, Totals, PoolOk, ReadyToSwap, Preds, Freed, HeadRun, IsChain, Data, Swapped, TotalsStay;
    ghost var s1, own1 := b.node, b.own;
    SwapFacts(s, own0, s1, own1, head, c, i, q, prev);
    newHead := head;
    b.node := b.node[q := b.node[q].(next := b.node[p].next)];
    b.node := b.node[p := b.node[p].(next := 0)];
    if prev != 0 {
      b.node := b.node[prev := b.node[prev].(next := q)];
    } else {
      newHead := q;
    }
    b.node := b.node[q := b.node[q].(data := b.node[p].data, totLen := b.node[p].totLen)];
    ghost var u := b.node;
    b.own := if prev == 0 then b.own[p := Held(b.own, p) - 1] else b.own[q := 0];
    SwapCounted(s1, own1, u, b.own, prev, p, q);
    SameKinds(s1, u, b.pool, b.all);
    var count := b.Release(p, [p]);
    assert count <= 1 && (count == 1 ==> [p][0] == p && u[[p][0]].kind == Ref) by { OneCount(u, p, count); }
    OneFreed(u, p, count);
    SwapEnd(s, own0, s1, own1, u, b.node, b.own, head, c, i, q, prev);
  }

  lemma OneCount(u: Store, p: nat, k: nat)
    requires HeadRun(u, [p], k)
    ensures k <= 1
  {
  }

  lemma OneFreed(u: Store, p: nat, k: nat)
    requires HeadRun(u, [p], k) && p in u
    ensures Let(u, Freed(u, [p], k), p)
  {
    assert [p][0] == p;
    assert k == (if u[p].refs > 1 then 0 else 1) && [p][..1] == [p] && [p][..0] == [];
  }

  /** The chain with q in the place of buffer i, the same bytes, and what has become of the rest:
      buffer i is gone, or without its link and one reference; every other buffer behind it is as
      it was; a tot_len that was right is right. */
  ghost predicate Swapped(s: Store, t: Store, own: Owners, h: nat, c: seq<nat>, i: nat, q: nat) {
    && i < |c| && Takeable(t, own, h, c[i := q]) && Data(t, c[i := q]) == Data(s, c) && q in t && q !in s && t[q].kind != Ref
    && c[i] in s && c[i] !in c[i := q] && t.Keys <= s.Keys + {q}
    && (if s[c[i]].refs > 1 then c[i] in t && t[c[i]] == s[c[i]].(next := 0, refs := s[c[i]].refs - 1) else c[i] !in t)
    && (forall j :: i < j < |c| ==> c[j] in s && c[j] in t && t[c[j]] == s[c[j]])
    && (forall j :: 0 <= j < i ==> c[j] in s && c[j] in t && t[c[j]].kind == s[c[j]].kind)
    && (forall x :: x in s && x !in c ==> x in t && t[x] == s[x])
    && (forall x :: x in t && x in s && x != c[i] ==> (TotalAt(t, x) <==> TotalAt(s, x)))
    && (TotalAt(t, q) <==> TotalAt(s, c[i]))
    && (c[i] in t ==> (TotalAt(t, c[i]) <==> s[c[i]].totLen == |s[c[i]].data|))
  }

  lemma SwapEnd(s: Store, own0: Owners, s1: Store, own: Owners, u: Store, t: Store, own': Owners, head: nat, c: seq<nat>, i: nat,
                q: nat, prev: nat)
    requires ReadyToSwap(s, own0, s1, own, head, c, i, q, prev) && Counted(s1, own, 0) && SwappedIn(s1, u, prev, c[i], q)
    requires Let(u, t, c[i]) && TotalsStay(u, t)
    requires own' == if prev == 0 then own[c[i] := Held(own, c[i]) - 1] else own[q := 0]
    ensures Swapped(s, t, own', if i == 0 then q else head, c, i, q)
  {
    hide Data, Preds, TotalAt, IsChain, Counted, SwappedIn, Let, TotalsStay;
    SwapFacts(s, own0, s1, own, head, c, i, q, prev);
    NoPreds(s1, own, q);
    SwapChain(s1, u, t, head, c, i, q);
    SwapTotals(s1, own, u, prev, c[i], q);
    LetTotals(u, t, c[i]);
    NewTotals(s, own0, s1, q, |s[c[i]].data|);
    SwapRest(s, s1, u, t, c, i, q, prev);
    SwapTakeable(s, s1, t, own0, own', head, c, i, q);
    LetNew(s, s1, t, q, |s[c[i]].data|, c, i);
  }

  /** What held for the store with the new buffer holds for the one without it. */
  lemma LetNew(s: Store, s1: Store, t: Store, q: nat, n: nat, c: seq<nat>, i: nat)
    requires IsNew(s, s1, q, n) && i < |c| && c[i] in s && forall x :: x in s ==> (TotalAt(s1, x) <==> TotalAt(s, x))
    requires forall x :: x in t && x in s1 && x != c[i] && x != q ==> (TotalAt(t, x) <==> TotalAt(s1, x))
    ensures forall x :: x in t && x in s && x != c[i] ==> (TotalAt(t, x) <==> TotalAt(s, x))
  {
    hide TotalAt;
  }

  /** A new buffer does not disturb any tot_len. */
  lemma NewTotals(s: Store, own: Owners, s1: Store, q: nat, n: nat)
    requires Counted(s, own, 0) && IsNew(s, s1, q, n)
    ensures forall x :: x in s ==> (TotalAt(s1, x) <==> TotalAt(s, x))
  {
    hide Preds;
  }

  /** What a chain to be taken looks like afterwards, buffer by buffer. */
  lemma SwapRest(s: Store, s1: Store, u: Store, t: Store, c: seq<nat>, i: nat, q: nat, prev: nat)
    requires i < |c| && c[i] in s && IsNew(s, s1, q, |s[c[i]].data|) && SwappedIn(s1, u, prev, c[i], q) && Let(u, t, c[i])
    requires q !in c && 0 !in s1 && prev == if i == 0 then 0 else c[i - 1]
    ensures q in t && t[q].kind != Ref && t.Keys <= s.Keys + {q} && t[q].data == s[c[i]].data
    ensures if s[c[i]].refs > 1 then c[i] in t && t[c[i]] == s[c[i]].(next := 0, refs := s[c[i]].refs - 1) else c[i] !in t
    ensures forall x :: x in s && x !in c ==> x in t && t[x] == s[x]
  {
    assert c[i] in c && (prev != 0 ==> prev in c);
    forall x | x in s && x !in c
      ensures x in t && t[x] == s[x]
    {
      assert x != c[i] && x != q && (prev != 0 ==> x != prev);
      assert x in s1 && s1[x] == s[x];
      assert x in u && u[x] == s1[x];
    }
  }

  lemma SwapTakeable(s: Store, s1: Store, t: Store, own: Owners, own': Owners, head: nat, c: seq<nat>, i: nat, q: nat)
    requires Takeable(s, own, head, c) && i < |c| && IsNew(s, s1, q, |s[c[i]].data|) && q !in c
    requires IsChain(t, if i == 0 then q else head, c[i := q]) && q in t && t[q].data == s[c[i]].data
    requires forall j :: i < j < |c| ==> c[j] in t && t[c[j]] == s1[c[j]]
    requires forall j :: 0 <= j < i ==> c[j] in t && |t[c[j]].data| == |s1[c[j]].data|
    requires if i == 0 then Held(own', q) >= 1 else Held(own', head) >= Held(own, head)
    ensures Takeable(t, own', if i == 0 then q else head, c[i := q])
  {
  }

  /** The first i buffers hold their own data. */
  ghost predicate Copied(s: Store, c: seq<nat>, i: nat) {
    forall j :: 0 <= j < |c| && j < i ==> c[j] in s && s[c[j]].kind != Ref
  }

  /** The shared ones among the first i buffers of c0 are still there, without their link. */
  ghost predicate LeftBehind(s0: Store, c0: seq<nat>, i: nat, t: Store) {
    forall j :: 0 <= j < i && j < |c0| && Shared(s0, c0[j]) ==>
      c0[j] in t && t[c0[j]] == s0[c0[j]].(next := 0, refs := s0[c0[j]].refs - 1)
  }

  /** Those of them that had something behind them, whose tot_len is now wrong. */
  ghost predicate Stale(s0: Store, c0: seq<nat>, i: nat, x: nat) {
    exists j :: 0 <= j < i && j < |c0| && c0[j] == x && Shared(s0, x) && s0[x].totLen != |s0[x].data|
  }

  /** How far the loop has come: the first i buffers are done. */
  ghost predicate Progress(s0: Store, c0: seq<nat>, t: Store, c: seq<nat>, i: nat) {
    && |c| == |c0| && i <= |c| && Copied(t, c, i) && Data(t, c) == Data(s0, c0) && LeftBehind(s0, c0, i, t)
    && (forall j :: 0 <= j < i && Shared(s0, c0[j]) ==> c0[j] !in c)
    && (forall j :: i <= j < |c| ==> c[j] == c0[j] && c[j] in t && c[j] in s0 && t[c[j]] == s0[c[j]])
    && (forall x :: x in t ==> TotalAt(t, x) || Stale(s0, c0, i, x))
  }

  lemma Begin(s: Store, own: Owners, p: nat, c: seq<nat>)
    requires Takeable(s, own, p, c) && Counted(s, own, 0) && Totals(s)
    ensures p != 0 && c != [] && c[0] == p && Progress(s, c, s, c, 0) && Elsewhere(s, c, s, c, 0)
  {
  }

  lemma Next(s: Store, own: Owners, h: nat, c: seq<nat>, i: nat)
    requires Takeable(s, own, h, c) && Counted(s, own, 0) && i < |c|
    ensures c[i] in s && |s[c[i]].data| <= 0xFFFF && s[c[i]].next == (if i + 1 < |c| then c[i + 1] else 0)
    ensures 0 !in s && IsChain(s, h, c)
  {
    assert LinkAt(s, c, i);
  }

  /** A buffer with its own data stays. */
  lemma Skipped(s0: Store, c0: seq<nat>, t: Store, c: seq<nat>, i: nat)
    requires Progress(s0, c0, t, c, i) && i < |c| && c[i] in t && t[c[i]].kind != Ref
    ensures Progress(s0, c0, t, c, i + 1)
  {
    forall x | x in t
      ensures TotalAt(t, x) || Stale(s0, c0, i + 1, x)
    {
      if Stale(s0, c0, i, x) {
        StaleStays(s0, c0, i, x);
      }
    }
  }

  lemma StaleStays(s0: Store, c0: seq<nat>, i: nat, x: nat)
    requires Stale(s0, c0, i, x)
    ensures Stale(s0, c0, i + 1, x)
  {
  }

  /** A replaced buffer is done. */
  lemma Replaced(s0: Store, c0: seq<nat>, s: Store, t: Store, own: Owners, h: nat, c: seq<nat>, i: nat, q: nat)
    requires Progress(s0, c0, s, c, i) && i < |c| && c[i] in s && s[c[i]].kind == Ref && Swapped(s, t, own, h, c, i, q)
    ensures Progress(s0, c0, t, c[i := q], i + 1)
  {
    hide Data, TotalAt;
    var d, p := c[i := q], c[i];
    ReplacedLeft(s0, c0, s, t, own, h, c, i, q);
    assert p in c;
    forall x | x in t
      ensures TotalAt(t, x) || Stale(s0, c0, i + 1, x)
    {
      if x in s && x != p && Stale(s0, c0, i, x) {
        StaleStays(s0, c0, i, x);
      }
      if x == p && !TotalAt(t, p) {
        assert c0[i] == p && Shared(s0, p);
      }
    }
  }

  lemma ReplacedLeft(s0: Store, c0: seq<nat>, s: Store, t: Store, own: Owners, h: nat, c: seq<nat>, i: nat, q: nat)
    requires Progress(s0, c0, s, c, i) && i < |c| && c[i] in s && s[c[i]].kind == Ref && Swapped(s, t, own, h, c, i, q)
    ensures LeftBehind(s0, c0, i + 1, t) && Copied(t, c[i := q], i + 1)
    ensures forall j :: 0 <= j < i + 1 && Shared(s0, c0[j]) ==> c0[j] !in c[i := q]
  {
    hide Data, TotalAt, Totals, Takeable;
    forall j | 0 <= j < i + 1 && Shared(s0, c0[j])
      ensures c0[j] !in c[i := q] && c0[j] in t && t[c0[j]] == s0[c0[j]].(next := 0, refs := s0[c0[j]].refs - 1)
    {
      if j < i {
        assert c0[j] in s && c0[j] !in c && c0[j] != q;
        NewElement(c, i, q, c0[j]);
      }
    }
  }

  lemma NewElement(c: seq<nat>, i: nat, q: nat, x: nat)
    requires i < |c| && x !in c && x != q
    ensures x !in c[i := q]
  {
  }

  /** Releasing the chain leaves what is behind as it is. */
  lemma Released(s0: Store, c0: seq<nat>, s: Store, c: seq<nat>, i: nat, k: nat)
    requires Progress(s0, c0, s, c, i) && HeadRun(s, c, k) && TotalsStay(s, Freed(s, c, k))
    ensures LeftBehind(s0, c0, i, Freed(s, c, k))
    ensures forall x :: x in Freed(s, c, k) ==> TotalAt(Freed(s, c, k), x) || Stale(s0, c0, i, x)
  {
    hide Data, TotalAt, Copied;
    var t := Freed(s, c, k);
    forall x | x in s && x !in c
      ensures x in t && t[x] == s[x]
    {
    }
    forall x | x in t
      ensures TotalAt(t, x) || Stale(s0, c0, i, x)
    {
      assert x in t.Keys && x in s;
    }
  }

  /** None of the shared ones among the first i buffers has something behind it. */
  ghost predicate SharedAlone(s0: Store, c0: seq<nat>, i: nat) {
    forall j :: 0 <= j < i && j < |c0| && Shared(s0, c0[j]) ==> s0[c0[j]].totLen == |s0[c0[j]].data|
  }

  /** The totals are right exactly when no shared buffer had something behind it. */
  lemma StaleTotals(s0: Store, c0: seq<nat>, i: nat, t: Store)
    requires i <= |c0| && LeftBehind(s0, c0, i, t) && 0 !in t && forall x :: x in t ==> TotalAt(t, x) || Stale(s0, c0, i, x)
    ensures Totals(t) <==> SharedAlone(s0, c0, i)
  {
    if Totals(t) {
      forall j | 0 <= j < i && Shared(s0, c0[j])
        ensures s0[c0[j]].totLen == |s0[c0[j]].data|
      {
        assert TotalAt(t, c0[j]);
      }
    } else {
      var x :| x in t && !TotalAt(t, x);
      assert Stale(s0, c0, i, x);
    }
  }

  /** The first foreign buffer of c, from the i-th on, that cannot be copied: each takes a pool
      buffer if it is small and there is one, else memory from the heap. */
  ghost function Reach(s: Store, c: seq<nat>, i: nat, pool: nat, ram: nat): nat
    decreases |c| - i
  {
    if i >= |c| then |c|
    else if c[i] !in s || s[c[i]].kind != Ref then Reach(s, c, i + 1, pool, ram)
    else if |s[c[i]].data| <= PBUF_POOL_BUFSIZE && pool > 0 then Reach(s, c, i + 1, pool - 1, ram)
    else if ram > 0 then Reach(s, c, i + 1, pool, ram - 1)
    else i
  }

  /** Only the foreign ones among the first i buffers of c0 have other ones in their place in c, and
      no buffer outside the chain has changed. */
  ghost predicate Elsewhere(s0: Store, c0: seq<nat>, t: Store, c: seq<nat>, i: nat) {
    && |c| == |c0|
    && (forall j :: 0 <= j < |c| && c0[j] in s0 && (s0[c0[j]].kind != Ref || j >= i) ==> c[j] == c0[j])
    && (forall x :: x in s0 && x !in c0 ==> x in t && t[x] == s0[x] && x !in c)
  }

  lemma ElsewhereSkips(s0: Store, c0: seq<nat>, t: Store, c: seq<nat>, i: nat)
    requires Elsewhere(s0, c0, t, c, i) && i < |c| && c0[i] in s0 && s0[c0[i]].kind != Ref
    ensures Elsewhere(s0, c0, t, c, i + 1)
  {
  }

  lemma ElsewhereStays(s0: Store, c0: seq<nat>, s: Store, t: Store, own: Owners, h: nat, c: seq<nat>, i: nat, q: nat)
    requires Elsewhere(s0, c0, s, c, i) && i < |c| && c0[i] in s0 && s0[c0[i]].kind == Ref && q !in s
    requires c[i] in s && Swapped(s, t, own, h, c, i, q)
    ensures Elsewhere(s0, c0, t, c[i := q], i + 1)
  {
    hide Data, TotalAt, Totals, Takeable, Copied;
    forall x | x in s0 && x !in c0
      ensures x in t && t[x] == s0[x] && x !in c[i := q]
    {
      NewElement(c, i, q, x);
    }
  }

  /** The owners after the head of a chain has moved from p to q; q is 0 when the chain is released. */
  ghost predicate HeadMoved(own: Owners, own': Owners, p: nat, q: nat) {
    forall x :: Held(own', x) == (if x == p && q != p then Held(own, x) - 1 else Held(own, x))
                                 + (if x == q && q != p && q != 0 then 1 else 0)
  }

  /** pbuf_take: on success a chain of the same bytes in which no buffer refers to foreign
      memory, held by the caller; otherwise the chain as far as it was copied is released, with the
      caller's reference. k buffers have been dealt with, and mid is the store before the release.
      Foreign buffers with another reference stay, but without their link; every tot_len is right
      afterwards exactly when none of them had something behind it. */
  method Take(b: Pbufs, p0: nat, ram0: seq<nat>, ghost c0: seq<nat>)
    returns (head: nat, ram: seq<nat>, ghost c: seq<nat>, ghost k: nat, ghost mid: Store, ghost freed: nat)
    requires b.Valid() && Takeable(b.node, b.own, p0, c0) && RamOk(b.node, b.all, ram0)
    modifies b
    ensures b.Sound() && RamOk(b.node, b.all, ram)
    ensures k == Reach(old(b.node), c0, 0, |old(b.pool)|, |ram0|) && (head != 0 <==> k == |c0|)
    ensures HeadMoved(old(b.own), b.own, p0, head)
    ensures Elsewhere(old(b.node), c0, mid, c, k) && Copied(mid, c, k) && Data(mid, c) == Data(old(b.node), c0)
    ensures head != 0 ==> Takeable(b.node, b.own, head, c) && mid == b.node
    ensures head == 0 ==> && HeadRun(mid, c, freed) && b.node == Freed(mid, c, freed)
    ensures LeftBehind(old(b.node), c0, k, b.node)
    ensures b.Valid() <==> SharedAlone(old(b.node), c0, k)
  {
    hide Counted, Totals, PoolOk, Takeable, RamOk, Data, ReadyToSwap, Swapped, Progress, LeftBehind, Copied, Shared, Stale, TotalAt,
         TotalsStay, HeadRun, Freed, IsNew, Elsewhere, SharedAlone;
    ghost var s0, own0 := b.node, b.own;
    head, ram, c := p0, ram0, c0;
    Begin(s0, b.own, p0, c0);
    var p, prev := p0, 0;
    k, freed, mid := 0, 0, s0;
    while p != 0
      invariant HeadMoved(own0, b.own, p0, head)
      invariant Reach(s0, c0, 0, |old(b.pool)|, |ram0|) == Reach(s0, c0, k, |b.pool|, |ram|)
      invariant Elsewhere(s0, c0, b.node, c, k)
      invariant b.Sound() && RamOk(b.node, b.all, ram) && Takeable(b.node, b.own, head, c) && |c| == |c0|
      invariant head != 0 && k <= |c| && p == (if k < |c| then c[k] else 0) && prev == (if k == 0 then 0 else c[k - 1])
      invariant Progress(s0, c0, b.node, c, k)
      decreases |c| - k
    {
      Next(b.node, b.own, head, c, k);
      SameAhead(s0, c0, b.node, c, k);
      if b.node[p].kind == Ref {
        ghost var s, own := b.node, b.own;
        var q;
        q, ram := NewBuffer(b, |b.node[p].data|, ram);
        if q == 0 {
          StillTakeable(s, own, b.own, head, c);
          ghost var own1 := b.own;
          mid := s;
          ProgressIs(s0, c0, s, c, k);
          var count := b.Free(head, c);
          freed := count;
          Gone(own0, own, own1, b.own, p0, head);
          FreedKeys(s, c, count);
          RamLess(s, b.node, b.all, ram);
          Released(s0, c0, s, c, k, count);
          NoNull(b.node, b.own);
          StaleTotals(s0, c0, k, b.node);
          head := 0;
          return;
        }
        NewUnheld(s, own, b.node, q, |s[p].data|, head, c);
        Prepared(s, own, b.node, b.own, head, c, k, q, prev);
        ghost var s1, own1, was := b.node, b.own, head;
        head := PutInPlace(b, head, p, q, prev, s, own, c, k);
        Moves(own0, own, own1, b.own, p0, was, q, k == 0);
        RamLeft(s, s1, b.node, b.own, b.all, ram, head, c, k, q);
        Replaced(s0, c0, s, b.node, b.own, head, c, k, q);
        ElsewhereStays(s0, c0, s, b.node, b.own, head, c, k, q);
        c := c[k := q];
        p := q;
      } else {
        Skipped(s0, c0, b.node, c, k);
        ElsewhereSkips(s0, c0, b.node, c, k);
      }
      Next(b.node, b.own, head, c, k);
      prev := p;
      p := b.node[p].next;
      k := k + 1;
    }
    if k < |c| {
      Next(b.node, b.own, head, c, k);
    }
    mid := b.node;
    Finished(s0, c0, b.node, b.own, c, k);
  }

  /** The release after a failed copy. */
  lemma Gone(own0: Owners, own: Owners, own1: Owners, own2: Owners, p0: nat, head: nat)
    requires HeadMoved(own0, own, p0, head) && p0 != 0 && head != 0 && forall x :: Held(own1, x) == Held(own, x)
    requires Held(own1, head) >= 1 && own2 == own1[head := Held(own1, head) - 1]
    ensures HeadMoved(own0, own2, p0, 0)
  {
  }

  /** A copy takes the place of the head, with its owner, or that of a buffer behind it. */
  lemma Moves(own0: Owners, own: Owners, own1: Owners, own2: Owners, p0: nat, head: nat, q: nat, first: bool)
    requires HeadMoved(own0, own, p0, head) && Held(own, q) == 0 && q != 0 && (first ==> head == p0 && q != p0 && Held(own, p0) >= 1)
    requires forall x :: Held(own1, x) == if x == q then 1 else Held(own, x)
    requires own2 == if first then own1[p0 := Held(own1, p0) - 1] else own1[q := 0]
    ensures HeadMoved(own0, own2, p0, if first then q else head)
  {
  }

  /** Nobody holds a buffer that is yet to be made. */
  lemma NewUnheld(s: Store, own: Owners, s1: Store, q: nat, n: nat, h: nat, c: seq<nat>)
    requires Counted(s, own, 0) && IsNew(s, s1, q, n) && Takeable(s, own, h, c)
    ensures Held(own, q) == 0 && q !in s && q != 0 && q != h && Held(own, h) >= 1
  {
    assert LinkAt(s, c, 0);
  }

  lemma ProgressIs(s0: Store, c0: seq<nat>, t: Store, c: seq<nat>, i: nat)
    requires Progress(s0, c0, t, c, i)
    ensures |c| == |c0| && Copied(t, c, i) && Data(t, c) == Data(s0, c0)
  {
  }

  lemma SameAhead(s0: Store, c0: seq<nat>, t: Store, c: seq<nat>, i: nat)
    requires Progress(s0, c0, t, c, i) && i < |c|
    ensures c[i] == c0[i] && c[i] in t && c[i] in s0 && t[c[i]] == s0[c[i]]
  {
  }

  lemma Finished(s0: Store, c0: seq<nat>, t: Store, own: Owners, c: seq<nat>, i: nat)
    requires Progress(s0, c0, t, c, i) && i == |c0| && Counted(t, own, 0)
    ensures Copied(t, c, |c|) && Data(t, c) == Data(s0, c0) && LeftBehind(s0, c0, i, t)
    ensures Totals(t) <==> SharedAlone(s0, c0, i)
  {
    StaleTotals(s0, c0, i, t);
  }

  lemma StillTakeable(s: Store, own: Owners, own': Owners, h: nat, c: seq<nat>)
    requires Takeable(s, own, h, c) && forall x :: Held(own', x) == Held(own, x)
    ensures Takeable(s, own', h, c) && IsChain(s, h, c) && Held(own', h) >= 1
  {
  }

  lemma FreedKeys(s: Store, c: seq<nat>, k: nat)
    requires HeadRun(s, c, k)
    ensures Freed(s, c, k).Keys <= s.Keys
  {
  }

  lemma RamLess(s: Store, t: Store, all: set<nat>, ram: seq<nat>)
    requires RamOk(s, all, ram) && t.Keys <= s.Keys
    ensures RamOk(t, all, ram)
  {
    forall i | 0 <= i < |ram|
      ensures ram[i] !in t
    {
      assert ram[i] !in s.Keys;
    }
  }

  lemma Prepared(s: Store, own0: Owners, s1: Store, own: Owners, h: nat, c: seq<nat>, i: nat, q: nat, prev: nat)
    requires Takeable(s, own0, h, c) && Counted(s, own0, 0) && i < |c| && c[i] in s && s[c[i]].kind == Ref
    requires IsNew(s, s1, q, |s[c[i]].data|) && prev == (if i == 0 then 0 else c[i - 1])
    requires forall x :: Held(own, x) == if x == q then 1 else Held(own0, x)
    ensures ReadyToSwap(s, own0, s1, own, h, c, i, q, prev)
  {
  }

  /** The heap addresses that are left are still new. */
  lemma RamLeft(s: Store, s1: Store, t: Store, own: Owners, all: set<nat>, ram: seq<nat>, h: nat, c: seq<nat>, i: nat, q: nat)
    requires i < |c| && c[i] in s && IsNew(s, s1, q, |s[c[i]].data|) && RamOk(s1, all, ram) && Swapped(s, t, own, h, c, i, q)
    ensures RamOk(t, all, ram) && Takeable(t, own, h, c[i := q])
  {
    hide Data, TotalAt, Takeable;
    RamLess(s1, t, all, ram);
  }

  /** The caller of pbuf_take, and another holder of the foreign buffer: the latter is left with a
      tot_len of two for one byte. */
  method SharedLosesTail() returns (b: Pbufs)
    ensures b.Sound() && !b.Valid() && 1 in b.node && b.node[1].totLen == 2 && Data(b.node, [1]) == [7]
  {
    b := new Pbufs([]);
    b.node := map[1 := Pbuf(2, Ref, [7], 2, 2), 2 := Pbuf(0, Ram, [8], 1, 1)];
    b.own := map[1 := 2];
    ghost var s := b.node;
    SharedStore(s, b.own);
    assert Elements([]) == {};
    assert Reach(s, [1, 2], 2, 0, 0) == Reach(s, [1, 2], 1, 0, 0) == Reach(s, [1, 2], 0, 0, 1) == 2;
    var head, ram, c, k, mid, freed := Take(b, 1, [3], [1, 2]);
    assert [1, 2][0] == 1 && [1, 2][1] == 2 && Shared(s, [1, 2][0]);
    assert Data(b.node, [1]) == b.node[1].data + Data(b.node, []);
  }

  lemma SharedStore(s: Store, own: Owners)
    requires s == map[1 := Pbuf(2, Ref, [7], 2, 2), 2 := Pbuf(0, Ram, [8], 1, 1)] && own == map[1 := 2]
    ensures Counted(s, own, 0) && Totals(s) && PoolOk(s, [], {}) && Takeable(s, own, 1, [1, 2]) && RamOk(s, {}, [3])
  {
    assert Preds(s, 1) == {} && Preds(s, 2) == {1};
    assert LinkAt(s, [1, 2], 0) && LinkAt(s, [1, 2], 1);
    assert PoolLive(s) == {} && Elements([]) == {};
  }
}
