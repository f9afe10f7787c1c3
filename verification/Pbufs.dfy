/** Operations on packet-buffer chains: pbuf_alloc, pbuf_free, pbuf_realloc, pbuf_cat,
    pbuf_chain (iop/SMSTCPIP/pbuf.c). */
module Pbufs {
  import opened Bytes
  import opened PbufStore

  const PBUF_POOL_BUFSIZE := 1540

  /** The store without the first k buffers of c. */
  ghost function Cut(s: Store, c: seq<nat>, k: nat): Store
    requires k <= |c|
  {
    map x | x in s && x !in c[..k] :: s[x]
  }

  lemma CutMore(s: Store, c: seq<nat>, k: nat)
    requires k < |c|
    ensures Cut(s, c, k) - {c[k]} == Cut(s, c, k + 1)
  {
    assert c[..k + 1] == c[..k] + [c[k]];
  }

  /** A buffer further down the chain is still there, as it was. */
  lemma CutKeeps(s: Store, p: nat, c: seq<nat>, k: nat)
    requires IsChain(s, p, c) && 0 !in s && k < |c|
    ensures c[k] in s && c[k] in Cut(s, c, k) && Cut(s, c, k)[c[k]] == s[c[k]]
    ensures s[c[k]].next == if k + 1 < |c| then c[k + 1] else 0
  {
    assert LinkAt(s, c, k);
    forall i | 0 <= i < k
      ensures c[i] != c[k]
    {
      if c[i] == c[k] {
        ChainsMeet(s, c, p, i, k);
      }
    }
  }

  class Pbufs {
    var node: Store
    var pool: seq<nat>

    /** References held by the rest of the stack, and all pool buffers there are. */
    ghost var own: Owners
    ghost const all: set<nat>

    /** Links, counts and pool are in order. */
    ghost predicate Sound()
      reads this
    {
      Counted(node, own, 0) && PoolOk(node, pool, all)
    }

    ghost predicate Valid()
      reads this
    {
      Sound() && Totals(node)
    }

    /** pbuf_init: every pool buffer is free. */
    constructor (addresses: seq<nat>)
      requires NoDup(addresses) && 0 !in addresses
      ensures Valid() && node == map[] && pool == addresses && all == Elements(addresses)
    {
      node, pool, own, all := map[], addresses, map[], Elements(addresses);
    }

    /** The loop of pbuf_free: drop one reference to p; buffers whose count becomes 0 go, and
        with them their reference to the next one. */
    method Release(p0: nat, ghost c: seq<nat>) returns (count: nat)
      requires Counted(node, own, p0) && IsChain(node, p0, c) && PoolOk(node, pool, all)
      modifies this`node, this`pool
      ensures Counted(node, own, 0) && PoolOk(node, pool, all)
      ensures HeadRun(old(node), c, count) && node == Freed(old(node), c, count)
      ensures TotalsStay(old(node), node)
      ensures (forall i :: 0 <= i < count ==> old(node)[c[i]].kind != Pool) ==> pool == old(pool)
    {
      hide Counted, PoolOk, IsChain, Preds, Freed, HeadRun, Cut, TotalAt;
      ghost var s := node;
      Start(s, own, p0, c);
      var p := p0;
      count := 0;
      CutNone(s, c);
      while p != 0
        invariant count <= |c| && p == (if count < |c| then c[count] else 0)
        invariant node == Cut(s, c, count) && Counted(node, own, p) && PoolOk(node, pool, all)
        invariant forall i :: 0 <= i < count ==> s[c[i]].refs == 1
        invariant TotalsStay(s, node)
        invariant (forall i :: 0 <= i < count ==> s[c[i]].kind != Pool) ==> pool == old(pool)
        decreases |c| - count
      {
        CutKeeps(s, p0, c, count);
        Positive(node, own, p);
        if node[p].refs - 1 == 0 {
          var q := node[p].next;
          TakenOut(node, own, p);
          StayTwice(s, node, node - {p});
          Returned(node, pool, all, p);
          CutMore(s, c, count);
          if node[p].kind == Pool {
            pool := [p] + pool;
          }
          node := node - {p};
          count := count + 1;
          p := q;
        } else {
          Recounted(node, own, p, node[p].refs - 1, p, own, 0);
          SameKinds(node, node[p := node[p].(refs := node[p].refs - 1)], pool, all);
          StayTwice(s, node, node[p := node[p].(refs := node[p].refs - 1)]);
          node := node[p := node[p].(refs := node[p].refs - 1)];
          FreedIs(s, c, count);
          return;
        }
      }
      FreedIs(s, c, count);
    }

    /** pbuf_free: the caller gives its reference to p back. Exactly the maximal run of buffers
        with no other reference at the head of the chain is freed, and the next one loses one. */
    method Free(p: nat, ghost c: seq<nat>) returns (count: nat)
      requires Sound() && IsChain(node, p, c) && (p != 0 ==> Held(own, p) >= 1)
      modifies this
      ensures Sound() && HeadRun(old(node), c, count) && node == Freed(old(node), c, count)
      ensures TotalsStay(old(node), node) && (old(Valid()) ==> Valid())
      ensures p != 0 ==> own == old(own)[p := Held(old(own), p) - 1]
    {
      hide Counted, PoolOk, Totals;
      if p == 0 {
        NothingFreed(node, own, c);
        return 0;
      }
      GivenBack(node, own, p);
      own := own[p := Held(own, p) - 1];
      count := Release(p, c);
      if old(Valid()) {
        TotalsFollow(old(node), node);
      }
    }

    /** pbuf_ref. */
    method AddRef(p: nat)
      requires Sound() && (p != 0 ==> p in node)
      modifies this`node, this`own
      ensures Sound() && (Valid() <==> old(Valid()))
      ensures p != 0 ==> && own == old(own)[p := Held(old(own), p) + 1]
                         && node == old(node)[p := old(node)[p].(refs := old(node)[p].refs + 1)]
      ensures p == 0 ==> own == old(own) && node == old(node)
    {
      hide PoolOk, Totals, TotalsStay, Counted;
      if p != 0 {
        ghost var s := node;
        OneMoreReference(node, own, p);
        SameKinds(node, node[p := node[p].(refs := node[p].refs + 1)], pool, all);
        own := own[p := Held(own, p) + 1];
        node := node[p := node[p].(refs := node[p].refs + 1)];
        TotalsAgree(s, node);
      }
    }

    /** pbuf_cat: the chain c gets the chain d appended, with every tot_len of c adjusted, and
        takes over the caller's reference to d. Every tot_len is right afterwards exactly when no
        buffer outside c links into it, or d is empty of bytes. */
    method Cat(h: nat, t: nat, ghost c: seq<nat>, ghost d: seq<nat>)
      requires Valid() && IsChain(node, h, c) && IsChain(node, t, d)
      requires h != 0 && t != 0 ==> && (forall x :: x in c ==> x !in d) && Held(own, t) >= 1 && h in node && t in node
                                    && node[h].totLen + node[t].totLen <= 0xFFFF
      modifies this`node, this`own
      ensures Sound() && (h == 0 || t == 0 ==> node == old(node) && own == old(own))
      ensures h != 0 && t != 0 ==>
                && own == old(own)[t := Held(old(own), t) - 1] && node.Keys == old(node).Keys
                && (Valid() <==> !Entered(old(node), c, c) || old(node)[t].totLen == 0)
                && IsChain(node, h, c + d) && Data(node, c + d) == Data(old(node), c) + Data(old(node), d)
                && (forall x :: x in node && x !in c ==> node[x] == old(node)[x])
                && (forall x :: x in node ==> node[x].refs == old(node)[x].refs && node[x].kind == old(node)[x].kind)
    {
      hide Counted, PoolOk, Totals, IsChain, Entered, Longer, Data;
      if h == 0 || t == 0 {
        return;
      }
      ghost var s := node;
      ChainHead(s, own, h, c);
      ChainHead(s, own, t, d);
      var n := node[t].totLen;
      var p := h;
      ghost var i := 0;
      LongerNone(s, c, n);
      while node[p].next != 0
        invariant i < |c| && p == c[i] && node == Longer(s, c, i, n) && p in s && p in node && node[p] == s[p] && own == old(own)
        decreases |c| - i
      {
        LongerMore(s, h, c, i, n);
        var q := node[p].next;
        node := node[p := node[p].(totLen := node[p].totLen + n)];
        p := q;
        i := i + 1;
      }
      LongerMore(s, h, c, i, n);
      node := node[p := node[p].(totLen := node[p].totLen + n)];
      node := node[p := node[p].(next := t)];
      JoinedKeeps(s, t, c, n);
      CatKeeps(s, own, h, t, c, d);
      SameKinds(s, node, pool, all);
      own := own[t := Held(own, t) - 1];
    }

    /** pbuf_chain: the same, and the caller keeps its reference to t. Without a chain to append to,
        t gets a reference all the same. */
    method Chain(h: nat, t: nat, ghost c: seq<nat>, ghost d: seq<nat>)
      requires Valid() && IsChain(node, h, c) && IsChain(node, t, d)
      requires h != 0 && t != 0 ==> && (forall x :: x in c ==> x !in d) && Held(own, t) >= 1 && h in node && t in node
                                    && node[h].totLen + node[t].totLen <= 0xFFFF
      modifies this`node, this`own
      ensures Sound() && node.Keys == old(node).Keys
      ensures own == if h == 0 && t != 0 then old(own)[t := Held(old(own), t) + 1] else old(own)
      ensures t == 0 ==> node == old(node)
      ensures h == 0 || t == 0 ==> Valid()
      ensures t != 0 ==> t in node && node[t].refs == old(node)[t].refs + 1
      ensures h != 0 && t != 0 ==>
                && (Valid() <==> !Entered(old(node), c, c) || old(node)[t].totLen == 0)
                && IsChain(node, h, c + d) && Data(node, c + d) == Data(old(node), c) + Data(old(node), d)
    {
      hide Counted, PoolOk, Totals, IsChain, Entered;
      NoNull(node, own);
      Cat(h, t, c, d);
      if t != 0 {
        ChainHead(old(node), old(own), t, d);
      }
      ghost var s := node;
      AddRef(t);
      if h != 0 && t != 0 {
        SameLinksChain(s, node, h, c + d);
        SameData(s, node, c + d);
        SameOwners(old(own), t);
      }
    }

    /** pbuf_realloc: cut the chain c to newLen bytes; the buffers behind the cut lose the
        reference of the chain. A chain is never lengthened. Every tot_len is right afterwards
        exactly when no buffer outside the chain links into the part that is kept. */
    method Shrink(p: nat, newLen: nat, ghost c: seq<nat>) returns (ghost j: nat)
      requires Valid() && IsChain(node, p, c) && p in node
      modifies this`node, this`pool
      ensures Sound()
      ensures newLen >= old(node)[p].totLen ==> Valid() && node == old(node)
      ensures newLen < old(node)[p].totLen ==>
                && j < |c| && IsChain(node, p, c[..j + 1]) && |Data(old(node), c)| > newLen
                && Data(node, c[..j + 1]) == Data(old(node), c)[..newLen]
                && (j > 0 ==> newLen > |Data(old(node), c[..j])|)
                && (Valid() <==> !Entered(old(node), c, c[..j + 1]))
                && (forall x :: x in node ==> x in old(node) && (x !in c ==> node[x] == old(node)[x]))
    {
      hide Counted, PoolOk, Totals, IsChain, Entered, Data, Longer, WrongAfterCut, TotalsStay, HeadRun, Freed, TotalAt;
      j := 0;
      NoNull(node, own);
      ChainHead(node, own, p, c);
      ghost var s := node;
      if newLen >= node[p].totLen {
        return;
      }
      var grow := newLen - node[p].totLen;
      var rem: nat, q := newLen, p;
      LongerNone(s, c, grow);
      Measured(s, own, p, c, 0);
      assert c[0..] == c;
      while rem > |node[q].data|
        invariant j < |c| && q == c[j] && node == Longer(s, c, j, grow) && q in s && q in node && node[q] == s[q]
        invariant rem < |Data(s, c[j..])| && newLen == |Data(s, c)| - |Data(s, c[j..])| + rem && own == old(own)
        invariant pool == old(pool) && (j > 0 ==> rem > 0)
        decreases |c| - j
      {
        DataStep(s, own, p, c, j);
        LongerMore(s, p, c, j, grow);
        rem := rem - |node[q].data|;
        var n := node[q].next;
        node := node[q := node[q].(totLen := node[q].totLen + grow)];
        q := n;
        j := j + 1;
      }
      assert c[..j] + c[j..] == c;
      DataConcat(s, c[..j], c[j..]);
      CutAt(s, own, p, c, j, rem, grow);
      CutRest(s, c, j, rem, grow);
      var tail := node[q].next;
      node := node[q := node[q].(data := node[q].data[..rem], totLen := rem, next := 0)];
      SameKinds(s, node, pool, all);
      ghost var u := node;
      var count := Release(tail, c[j + 1..]);
      AfterCut(s, u, p, c, j, count);
      CutTotalsStay(s, u, node, c, j);
    }
  }

  lemma OneMoreReference(s: Store, own: Owners, p: nat)
    requires Counted(s, own, 0) && p in s
    ensures var t := s[p := s[p].(refs := s[p].refs + 1)];
      Counted(t, own[p := Held(own, p) + 1], 0) && TotalsStay(s, t)
  {
    hide TotalsStay, Counted, Preds;
    CountAt(s, own, p);
    Recounted(s, own, p, s[p].refs + 1, 0, own[p := Held(own, p) + 1], 0);
  }

  lemma CountAt(s: Store, own: Owners, x: nat)
    requires Counted(s, own, 0) && x in s
    ensures 0 !in s && s[x].refs == |Preds(s, x)| + Held(own, x)
  {
    hide Preds;
  }

  /** Some buffer outside the chain c links to one of d. */
  ghost predicate Entered(s: Store, c: seq<nat>, d: seq<nat>) {
    exists x :: x in s && x !in c && s[x].next in d
  }

  lemma ChainHead(s: Store, own: Owners, t: nat, d: seq<nat>)
    requires IsChain(s, t, d) && t != 0 && Counted(s, own, 0)
    ensures d != [] && t == d[0] && t in s && 0 !in s
  {
    ChainLive(s, t, d);
  }

  lemma TotalsAgree(s: Store, t: Store)
    requires TotalsStay(s, t) && t.Keys == s.Keys
    ensures Totals(t) <==> Totals(s)
  {
    hide TotalAt;
  }

  /** The first i buffers of c with n added to their tot_len. */
  ghost function Longer(s: Store, c: seq<nat>, i: nat, n: int): Store
    requires i <= |c|
  {
    map x | x in s :: if x in c[..i] then s[x].(totLen := s[x].totLen + n) else s[x]
  }

  lemma LongerNone(s: Store, c: seq<nat>, n: int)
    ensures Longer(s, c, 0, n) == s
  {
  }

  lemma LongerMore(s: Store, h: nat, c: seq<nat>, i: nat, n: int)
    requires IsChain(s, h, c) && 0 !in s && i < |c|
    ensures c[i] in s && s[c[i]].next == (if i + 1 < |c| then c[i + 1] else 0)
    ensures Longer(s, c, i, n)[c[i] := s[c[i]].(totLen := s[c[i]].totLen + n)] == Longer(s, c, i + 1, n)
    ensures i + 1 < |c| ==> c[i + 1] in s && c[i + 1] != 0 && c[i + 1] in Longer(s, c, i + 1, n)
                             && Longer(s, c, i + 1, n)[c[i + 1]] == s[c[i + 1]]
  {
    assert LinkAt(s, c, i) && (i + 1 < |c| ==> LinkAt(s, c, i + 1));
    assert c[..i + 1] == c[..i] + [c[i]];
    if i + 1 < |c| {
      forall j | 0 <= j < i + 1
        ensures c[j] != c[i + 1]
      {
        if c[j] == c[i + 1] {
          ChainsMeet(s, c, h, j, i + 1);
        }
      }
    }
  }

  /** The store after a concatenation. */
  ghost function Joined(s: Store, t: nat, c: seq<nat>, n: int): Store
    requires c != [] && c[|c| - 1] in s
  {
    var l := Longer(s, c, |c|, n);
    l[c[|c| - 1] := l[c[|c| - 1]].(next := t)]
  }

  lemma JoinedKeeps(s: Store, t: nat, c: seq<nat>, n: int)
    requires c != [] && c[|c| - 1] in s
    ensures var u := Joined(s, t, c, n);
      && u.Keys == s.Keys && (forall x :: x in s ==> u[x].refs == s[x].refs && u[x].kind == s[x].kind)
      && (forall x :: x in s && x !in c ==> u[x] == s[x])
  {
  }

  lemma CatKeeps(s: Store, own: Owners, h: nat, t: nat, c: seq<nat>, d: seq<nat>)
    requires Counted(s, own, 0) && Totals(s) && IsChain(s, h, c) && c != [] && IsChain(s, t, d) && d != []
    requires (forall x :: x in c ==> x !in d) && Held(own, t) >= 1 && t in s && c[|c| - 1] in s
    ensures var u := Joined(s, t, c, s[t].totLen);
      && Counted(u, own[t := Held(own, t) - 1], 0) && IsChain(u, h, c + d)
      && (Totals(u) <==> !Entered(s, c, c) || s[t].totLen == 0)
      && Data(u, c + d) == Data(s, c) + Data(s, d)
  {
    hide Counted, Totals, Entered;
    NoNull(s, own);
    CatCounted(s, own, h, t, c, d);
    CatTotals(s, own, h, t, c, d);
    CatChain(s, h, t, c, d);
    var u := Joined(s, t, c, s[t].totLen);
    SameData(s, u, c);
    SameData(s, u, d);
    DataConcat(u, c, d);
  }

  lemma CatChain(s: Store, h: nat, t: nat, c: seq<nat>, d: seq<nat>)
    requires IsChain(s, h, c) && 0 !in s && c != [] && IsChain(s, t, d) && d != [] && t in s && c[|c| - 1] in s
    requires forall x :: x in c ==> x !in d
    ensures IsChain(Joined(s, t, c, s[t].totLen), h, c + d)
  {
    var u := Joined(s, t, c, s[t].totLen);
    var last := |c| - 1;
    forall i | 0 <= i < |c + d|
      ensures LinkAt(u, c + d, i)
    {
      if i < |c| {
        assert LinkAt(s, c, i);
        if i < last && c[i] == c[last] {
          ChainsMeet(s, c, h, i, last);
        }
      } else {
        assert LinkAt(s, d, i - |c|);
        assert d[i - |c|] in d && c[last] in c;
      }
    }
  }

  lemma CatCounted(s: Store, own: Owners, h: nat, t: nat, c: seq<nat>, d: seq<nat>)
    requires Counted(s, own, 0) && IsChain(s, h, c) && c != [] && t in s && c[|c| - 1] in s && Held(own, t) >= 1
    ensures Counted(Joined(s, t, c, s[t].totLen), own[t := Held(own, t) - 1], 0)
  {
    hide Counted, Preds;
    assert LinkAt(s, c, |c| - 1);
    NewLink(s, Joined(s, t, c, s[t].totLen), own, c[|c| - 1], t);
  }

  /** The last buffer of a chain gets a link to t, which takes over a reference of an owner. */
  lemma NewLink(s: Store, u: Store, own: Owners, last: nat, t: nat)
    requires Counted(s, own, 0) && last in s && s[last].next == 0 && t in s && Held(own, t) >= 1
    requires u.Keys == s.Keys && u[last].next == t && (forall x :: x in s && x != last ==> u[x].next == s[x].next)
    requires forall x :: x in s ==> u[x].refs == s[x].refs
    ensures Counted(u, own[t := Held(own, t) - 1], 0)
  {
    hide Preds;
    forall x | x in u
      ensures |Preds(u, x)| == |Preds(s, x)| + if x == t then 1 else 0
    {
      LinkPreds(s, u, last, t, x);
    }
  }

  lemma LinkPreds(s: Store, u: Store, last: nat, t: nat, x: nat)
    requires 0 !in s && last in s && s[last].next == 0 && t in s && x in s
    requires u.Keys == s.Keys && u[last].next == t && (forall x :: x in s && x != last ==> u[x].next == s[x].next)
    ensures |Preds(u, x)| == |Preds(s, x)| + if x == t then 1 else 0
  {
    if x == t {
      assert Preds(u, x) == Preds(s, x) + {last} && last !in Preds(s, x);
    } else {
      assert Preds(u, x) == Preds(s, x);
    }
  }

  lemma CatTotals(s: Store, own: Owners, h: nat, t: nat, c: seq<nat>, d: seq<nat>)
    requires Counted(s, own, 0) && Totals(s) && IsChain(s, h, c) && c != [] && t in s && c[|c| - 1] in s
    requires t !in c
    ensures Totals(Joined(s, t, c, s[t].totLen)) <==> !Entered(s, c, c) || s[t].totLen == 0
  {
    hide Joined, TotalAt, Counted;
    var u := Joined(s, t, c, s[t].totLen);
    JoinedKeeps(s, t, c, s[t].totLen);
    NoNull(s, own);
    forall x | x in s
      ensures TotalAt(u, x) <==> x in c || s[x].next !in c || s[t].totLen == 0
    {
      assert TotalAt(s, x);
      CatTotalAt(s, h, t, c, x);
    }
  }

  lemma CatTotalAt(s: Store, h: nat, t: nat, c: seq<nat>, x: nat)
    requires IsChain(s, h, c) && c != [] && 0 !in s && t in s && c[|c| - 1] in s && t !in c && TotalAt(s, x)
    ensures TotalAt(Joined(s, t, c, s[t].totLen), x) <==> x in c || s[x].next !in c || s[t].totLen == 0
  {
    assert c[..|c|] == c;
    if x in c {
      var i :| 0 <= i < |c| && c[i] == x;
      assert LinkAt(s, c, i) && LinkAt(s, c, |c| - 1);
      if i + 1 < |c| {
        assert LinkAt(s, c, i + 1);
        assert c[i + 1] in c;
      }
    } else if s[x].next in c {
      InChain(s, h, c, s[x].next);
    }
  }

  lemma InChain(s: Store, h: nat, c: seq<nat>, y: nat)
    requires IsChain(s, h, c) && y in c
    ensures y in s
  {
    ChainLive(s, h, c);
  }

  lemma {:induction false} SameData(s: Store, u: Store, c: seq<nat>)
    requires s.Keys == u.Keys && forall x :: x in s ==> u[x].data == s[x].data
    ensures Data(u, c) == Data(s, c)
  {
    if c != [] {
      SameData(s, u, c[1..]);
    }
  }

  lemma {:induction false} DataConcat(s: Store, c: seq<nat>, d: seq<nat>)
    ensures Data(s, c + d) == Data(s, c) + Data(s, d)
  {
    if c == [] {
      assert c + d == d;
    } else {
      assert (c + d)[1..] == c[1..] + d;
      DataConcat(s, c[1..], d);
    }
  }

  lemma CutNone(s: Store, c: seq<nat>)
    ensures Cut(s, c, 0) == s
  {
    assert c[..0] == [];
  }

  /** What has been removed and recounted is what freeing k buffers means. */
  lemma FreedIs(s: Store, c: seq<nat>, k: nat)
    requires k <= |c| && (forall i :: 0 <= i < |c| ==> c[i] in s) && (forall i :: 0 <= i < k ==> s[c[i]].refs == 1)
    requires k < |c| ==> s[c[k]].refs > 1
    ensures HeadRun(s, c, k)
    ensures Freed(s, c, k) == if k < |c| then Cut(s, c, k)[c[k] := s[c[k]].(refs := s[c[k]].refs - 1)] else Cut(s, c, k)
  {
  }

  lemma Start(s: Store, own: Owners, p: nat, c: seq<nat>)
    requires Counted(s, own, p) && IsChain(s, p, c)
    ensures 0 !in s && forall i :: 0 <= i < |c| ==> c[i] in s && c[i] != 0
    ensures p == if c == [] then 0 else c[0]
  {
    ChainLive(s, p, c);
  }

  lemma Positive(s: Store, own: Owners, p: nat)
    requires Counted(s, own, p) && p in s
    ensures 0 !in s && s[p].refs >= 1 && s[p].refs == |Preds(s, p)| + Held(own, p) + 1
  {
  }

  lemma SameKinds(s: Store, t: Store, pool: seq<nat>, all: set<nat>)
    requires PoolOk(s, pool, all) && t.Keys == s.Keys && forall x :: x in s ==> t[x].kind == s[x].kind
    ensures PoolOk(t, pool, all)
  {
    assert PoolLive(t) == PoolLive(s);
  }

  lemma NothingFreed(s: Store, own: Owners, c: seq<nat>)
    requires IsChain(s, 0, c) && Counted(s, own, 0)
    ensures c == [] && HeadRun(s, c, 0) && s == Freed(s, c, 0)
  {
    assert c != [] ==> LinkAt(s, c, 0);
  }

  /** A reference given back is the one to drop. */
  lemma GivenBack(s: Store, own: Owners, p: nat)
    requires Counted(s, own, 0) && Held(own, p) >= 1
    ensures Counted(s, own[p := Held(own, p) - 1], p)
  {
  }

  lemma SameOwners(own: Owners, t: nat)
    requires Held(own, t) >= 1
    ensures var less := own[t := Held(own, t) - 1]; less[t := Held(less, t) + 1] == own
  {
  }

  lemma NoNull(s: Store, own: Owners)
    requires Counted(s, own, 0)
    ensures 0 !in s
  {
  }

  lemma SameLinksChain(s: Store, u: Store, h: nat, c: seq<nat>)
    requires IsChain(s, h, c) && SameLinks(s, u)
    ensures IsChain(u, h, c)
  {
    forall i | 0 <= i < |c|
      ensures LinkAt(u, c, i)
    {
      assert LinkAt(s, c, i);
    }
  }

  /** tot_len of the k-th buffer of a chain. */
  lemma {:induction false} Measured(s: Store, own: Owners, p: nat, c: seq<nat>, k: nat)
    requires Counted(s, own, 0) && Totals(s) && IsChain(s, p, c) && k < |c|
    ensures c[k] in s && s[c[k]].totLen == |Data(s, c[k..])|
  {
    ChainFrom(s, p, c, k);
    ChainLive(s, c[k], c[k..]);
    TotalIsLength(s, c[k], c[k..]);
  }

  lemma ChainFrom(s: Store, p: nat, c: seq<nat>, k: nat)
    requires IsChain(s, p, c) && k < |c|
    ensures IsChain(s, c[k], c[k..])
  {
    forall i | 0 <= i < |c[k..]|
      ensures LinkAt(s, c[k..], i)
    {
      assert LinkAt(s, c, k + i);
    }
  }

  lemma DataStep(s: Store, own: Owners, p: nat, c: seq<nat>, k: nat)
    requires Counted(s, own, 0) && IsChain(s, p, c) && k < |c|
    ensures c[k] in s && Data(s, c[k..]) == s[c[k]].data + Data(s, c[k + 1..])
    ensures k + 1 == |c| ==> Data(s, c[k + 1..]) == []
  {
    assert LinkAt(s, c, k);
    assert c[k..][1..] == c[k + 1..];
  }

  /** The store after the chain has been cut inside buffer j, before the rest is released. */
  ghost function CutStore(s: Store, c: seq<nat>, j: nat, rem: nat, grow: int): Store
    requires j < |c| && c[j] in s && rem <= |s[c[j]].data|
  {
    var l := Longer(s, c, j, grow);
    l[c[j] := s[c[j]].(data := s[c[j]].data[..rem], totLen := rem, next := 0)]
  }

  lemma CutAt(s: Store, own: Owners, p: nat, c: seq<nat>, j: nat, rem: nat, grow: int)
    requires Counted(s, own, 0) && Totals(s) && IsChain(s, p, c) && j < |c| && p in s && c[j] in s && rem <= |s[c[j]].data|
    requires rem < |Data(s, c[j..])| && grow == |Data(s, c)| - |Data(s, c[j..])| + rem - |Data(s, c)|
    ensures var u := CutStore(s, c, j, rem, grow);
      && Counted(u, own, s[c[j]].next) && WrongAfterCut(s, u, c, j) && IsChain(u, s[c[j]].next, c[j + 1..]) && IsChain(u, p, c[..j + 1])
      && Data(u, c[..j + 1]) + Data(s, c[j..])[rem..] == Data(s, c)
  {
    hide Counted, Totals, WrongAfterCut;
    CutCounted(s, own, p, c, j, rem, grow);
    CutTotals(s, own, p, c, j, rem, grow);
    CutChains(s, own, p, c, j, rem, grow);
    CutData(s, own, p, c, j, rem, grow);
  }

  /** After the cut exactly those tot_len are wrong that count the part behind it from outside. */
  ghost predicate WrongAfterCut(s: Store, u: Store, c: seq<nat>, j: nat) {
    && j < |c| && u.Keys == s.Keys
    && forall x :: x in s ==> (TotalAt(u, x) <==> x in c || s[x].next !in c[..j + 1])
  }

  /** Releasing the rest changes nothing about that. */
  lemma CutTotalsStay(s: Store, u: Store, t: Store, c: seq<nat>, j: nat)
    requires WrongAfterCut(s, u, c, j) && TotalsStay(u, t) && forall x :: x in u && x !in c ==> x in t
    ensures Totals(t) <==> !Entered(s, c, c[..j + 1])
  {
    hide TotalAt;
    forall x | x in t
      ensures TotalAt(t, x) <==> x in c || s[x].next !in c[..j + 1]
    {
      assert x in t.Keys && x in u;
    }
  }

  lemma CutCounted(s: Store, own: Owners, p: nat, c: seq<nat>, j: nat, rem: nat, grow: int)
    requires Counted(s, own, 0) && j < |c| && c[j] in s && rem <= |s[c[j]].data|
    ensures Counted(CutStore(s, c, j, rem, grow), own, s[c[j]].next)
  {
    hide Counted;
    Unlinked(s, CutStore(s, c, j, rem, grow), own, c[j]);
  }

  /** Buffer q loses its link: the reference it held is the one to drop. */
  lemma Unlinked(s: Store, u: Store, own: Owners, q: nat)
    requires Counted(s, own, 0) && q in s && u.Keys == s.Keys && u[q].next == 0
    requires forall x :: x in s ==> u[x].refs == s[x].refs && (x != q ==> u[x].next == s[x].next)
    ensures Counted(u, own, s[q].next)
  {
    hide Preds;
    forall x | x in u
      ensures |Preds(s, x)| == |Preds(u, x)| + if x == s[q].next then 1 else 0
    {
      UnlinkedPreds(s, u, q, x);
    }
  }

  lemma UnlinkedPreds(s: Store, u: Store, q: nat, x: nat)
    requires 0 !in s && q in s && u.Keys == s.Keys && u[q].next == 0 && x in s
    requires forall x :: x in s ==> (x != q ==> u[x].next == s[x].next)
    ensures |Preds(s, x)| == |Preds(u, x)| + if x == s[q].next then 1 else 0
  {
    if x == s[q].next {
      assert Preds(s, x) == Preds(u, x) + {q} && q !in Preds(u, x);
    } else {
      assert Preds(s, x) == Preds(u, x);
    }
  }

  lemma CutTotals(s: Store, own: Owners, p: nat, c: seq<nat>, j: nat, rem: nat, grow: int)
    requires Counted(s, own, 0) && Totals(s) && IsChain(s, p, c) && j < |c| && c[j] in s && rem <= |s[c[j]].data|
    requires rem < |Data(s, c[j..])| && grow == rem - |Data(s, c[j..])|
    ensures WrongAfterCut(s, CutStore(s, c, j, rem, grow), c, j)
  {
    hide Data, CutStore, Counted;
    var u := CutStore(s, c, j, rem, grow);
    Measured(s, own, p, c, j);
    NoNull(s, own);
    CutKeys(s, c, j, rem, grow);
    forall x | x in s
      ensures TotalAt(u, x) <==> x in c || s[x].next !in c[..j + 1]
    {
      assert TotalAt(s, x);
      if x in c {
        var i :| 0 <= i < |c| && c[i] == x;
        CutNode(s, own, p, c, j, rem, grow, i);
        if i + 1 < |c| {
          CutNode(s, own, p, c, j, rem, grow, i + 1);
        }
      } else {
        CutOutside(s, own, p, c, j, rem, grow, x);
      }
    }
  }

  /** A buffer outside the chain after the cut. */
  lemma CutOutside(s: Store, own: Owners, p: nat, c: seq<nat>, j: nat, rem: nat, grow: int, x: nat)
    requires Counted(s, own, 0) && IsChain(s, p, c) && j < |c| && c[j] in s && rem <= |s[c[j]].data|
    requires TotalAt(s, x) && x !in c && grow == rem - s[c[j]].totLen && grow < 0
    ensures TotalAt(CutStore(s, c, j, rem, grow), x) <==> s[x].next !in c[..j + 1]
  {
    hide CutStore, Counted;
    var y := s[x].next;
    CutKeys(s, c, j, rem, grow);
    CutOther(s, c, j, rem, grow, x);
    if y in c {
      var i :| 0 <= i < |c| && c[i] == y;
      CutNode(s, own, p, c, j, rem, grow, i);
      InKept(s, own, p, c, j, i);
    } else {
      CutOther(s, c, j, rem, grow, y);
      assert y !in c[..j + 1];
    }
  }

  lemma InKept(s: Store, own: Owners, p: nat, c: seq<nat>, j: nat, i: nat)
    requires Counted(s, own, 0) && IsChain(s, p, c) && j < |c| && i < |c|
    ensures c[i] in c[..j + 1] <==> i <= j
  {
    if i <= j {
      assert c[..j + 1][i] == c[i];
    } else if c[i] in c[..j + 1] {
      var k :| 0 <= k < j + 1 && c[..j + 1][k] == c[i];
      ChainsMeet(s, c, p, k, i);
    }
  }

  lemma CutRest(s: Store, c: seq<nat>, j: nat, rem: nat, grow: int)
    requires j < |c| && c[j] in s && rem <= |s[c[j]].data|
    ensures var u := CutStore(s, c, j, rem, grow);
      u.Keys == s.Keys && forall x :: x in s ==> u[x].kind == s[x].kind && (x !in c ==> u[x] == s[x])
  {
  }

  lemma CutKeys(s: Store, c: seq<nat>, j: nat, rem: nat, grow: int)
    requires j < |c| && c[j] in s && rem <= |s[c[j]].data|
    ensures CutStore(s, c, j, rem, grow).Keys == s.Keys
  {
  }

  lemma CutOther(s: Store, c: seq<nat>, j: nat, rem: nat, grow: int, x: nat)
    requires j < |c| && c[j] in s && rem <= |s[c[j]].data| && x !in c
    ensures var u := CutStore(s, c, j, rem, grow); (x in u <==> x in s) && (x in s ==> u[x] == s[x])
  {
  }

  /** Each buffer of the chain after the cut. */
  lemma CutNode(s: Store, own: Owners, p: nat, c: seq<nat>, j: nat, rem: nat, grow: int, i: nat)
    requires Counted(s, own, 0) && IsChain(s, p, c) && j < |c| && c[j] in s && rem <= |s[c[j]].data| && i < |c|
    ensures c[i] in s && c[i] in CutStore(s, c, j, rem, grow) && LinkAt(s, c, i)
    ensures CutStore(s, c, j, rem, grow)[c[i]] ==
            if i < j then s[c[i]].(totLen := s[c[i]].totLen + grow)
            else if i == j then s[c[i]].(data := s[c[i]].data[..rem], totLen := rem, next := 0)
            else s[c[i]]
  {
    assert LinkAt(s, c, i);
    forall k | 0 <= k < j && i >= j
      ensures c[k] != c[i]
    {
      if c[k] == c[i] {
        ChainsMeet(s, c, p, k, i);
      }
    }
    if c[i] == c[j] {
      if i < j {
        ChainsMeet(s, c, p, i, j);
      } else {
        ChainsMeet(s, c, p, j, i);
      }
    }
    assert i < j ==> c[..j][i] == c[i];
  }

  lemma CutChains(s: Store, own: Owners, p: nat, c: seq<nat>, j: nat, rem: nat, grow: int)
    requires Counted(s, own, 0) && IsChain(s, p, c) && j < |c| && c[j] in s && rem <= |s[c[j]].data|
    ensures var u := CutStore(s, c, j, rem, grow); IsChain(u, s[c[j]].next, c[j + 1..]) && IsChain(u, p, c[..j + 1])
  {
    var u := CutStore(s, c, j, rem, grow);
    hide Counted, CutStore;
    var kept, gone := c[..j + 1], c[j + 1..];
    forall i | 0 <= i < |kept|
      ensures LinkAt(u, kept, i)
    {
      CutNode(s, own, p, c, j, rem, grow, i);
    }
    forall i | 0 <= i < |gone|
      ensures LinkAt(u, gone, i)
    {
      CutNode(s, own, p, c, j, rem, grow, j + 1 + i);
    }
    assert LinkAt(s, c, j);
  }

  lemma CutData(s: Store, own: Owners, p: nat, c: seq<nat>, j: nat, rem: nat, grow: int)
    requires Counted(s, own, 0) && IsChain(s, p, c) && j < |c| && c[j] in s && rem <= |s[c[j]].data|
    ensures var u := CutStore(s, c, j, rem, grow); rem <= |Data(s, c[j..])| && Data(u, c[..j + 1]) + Data(s, c[j..])[rem..] == Data(s, c)
  {
    hide Counted, CutStore;
    var u := CutStore(s, c, j, rem, grow);
    var a, d, rest := Data(s, c[..j]), s[c[j]].data, Data(s, c[j + 1..]);
    forall i | 0 <= i < |c[..j]|
      ensures c[..j][i] in s && c[..j][i] in u && u[c[..j][i]].data == s[c[..j][i]].data
    {
      CutNode(s, own, p, c, j, rem, grow, i);
    }
    SameDataOf(s, u, c[..j]);
    CutNode(s, own, p, c, j, rem, grow, j);
    assert c[..j + 1] == c[..j] + [c[j]] && [c[j]][1..] == [];
    DataConcat(u, c[..j], [c[j]]);
    assert Data(u, [c[j]]) == d[..rem];
    assert c == c[..j] + c[j..];
    DataConcat(s, c[..j], c[j..]);
    DataStep(s, own, p, c, j);
    assert a + d[..rem] + (d + rest)[rem..] == a + (d + rest);
  }

  lemma {:induction false} SameDataOf(s: Store, u: Store, c: seq<nat>)
    requires forall i :: 0 <= i < |c| ==> c[i] in s && c[i] in u && u[c[i]].data == s[c[i]].data
    ensures Data(u, c) == Data(s, c)
  {
    if c != [] {
      assert c[0] in s && c[0] in u;
      SameDataOf(s, u, c[1..]);
    }
  }

  /** Releasing the rest leaves the kept part of the chain alone. */
  lemma AfterCut(s: Store, u: Store, p: nat, c: seq<nat>, j: nat, k: nat)
    requires IsChain(s, p, c) && 0 !in s && j < |c| && IsChain(u, p, c[..j + 1]) && HeadRun(u, c[j + 1..], k)
    ensures var t := Freed(u, c[j + 1..], k);
      && IsChain(t, p, c[..j + 1]) && Data(t, c[..j + 1]) == Data(u, c[..j + 1])
      && (forall x :: x in t ==> x in u && (x !in c ==> t[x] == u[x])) && (forall x :: x in u && x !in c ==> x in t)
  {
    var t := Freed(u, c[j + 1..], k);
    var kept, gone := c[..j + 1], c[j + 1..];
    forall i | 0 <= i < |kept|
      ensures kept[i] in u && kept[i] in t && t[kept[i]] == u[kept[i]] && LinkAt(t, kept, i)
    {
      assert LinkAt(u, kept, i);
      forall l | 0 <= l < |gone|
        ensures gone[l] != c[i]
      {
        if c[j + 1 + l] == c[i] {
          ChainsMeet(s, c, p, i, j + 1 + l);
        }
      }
    }
    SameDataOf(u, t, c[..j + 1]);
  }
}
