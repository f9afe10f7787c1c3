/** Allocating a chain from the buffer pool (pbuf_alloc with PBUF_POOL,
    iop/SMSTCPIP/pbuf.c). */
module PbufPool {
  import opened Bytes
  import opened PbufStore
  import opened Pbufs

  /** Bytes the next buffer of a chain takes. */
  function Piece(rem: nat): nat {
    if rem > PBUF_POOL_BUFSIZE then PBUF_POOL_BUFSIZE else rem
  }

  /** Buffers for rem more bytes. */
  function Blocks(rem: nat): nat {
    if rem == 0 then 0 else 1 + Blocks(rem - Piece(rem))
  }

  /** Bytes the first buffer takes, behind room for headers. */
  function First(length: nat, offset: nat): nat
    requires offset < PBUF_POOL_BUFSIZE
  {
    if length > PBUF_POOL_BUFSIZE - offset then PBUF_POOL_BUFSIZE - offset else length
  }

  /** Buffers that a chain for `length` bytes needs. */
  function Needed(length: nat, offset: nat): nat
    requires offset < PBUF_POOL_BUFSIZE
  {
    1 + Blocks(length - First(length, offset))
  }

  /** Every buffer but the last is full, so a chain needs as many as hold the bytes behind the
      offset. */
  lemma {:induction false} NeededIs(length: nat, offset: nat)
    requires offset < PBUF_POOL_BUFSIZE
    ensures var n := Needed(length, offset);
      n >= 1 && offset + length <= n * PBUF_POOL_BUFSIZE && (n > 1 ==> (n - 1) * PBUF_POOL_BUFSIZE < offset + length)
  {
    BlocksIs(length - First(length, offset));
  }

  lemma {:induction false} BlocksIs(rem: nat)
    ensures (Blocks(rem) - 1) * PBUF_POOL_BUFSIZE < rem || (rem == 0 && Blocks(rem) == 0)
    ensures rem <= Blocks(rem) * PBUF_POOL_BUFSIZE
  {
    if rem > PBUF_POOL_BUFSIZE {
      BlocksIs(rem - PBUF_POOL_BUFSIZE);
    }
  }

  /** The new buffers c: each tot_len counts the rest of the chain and the bytes still to come, and
      each buffer behind the first is full or holds all of them. */
  ghost predicate Coming(s: Store, c: seq<nat>, rem: nat) {
    forall i :: 0 <= i < |c| ==> ComingAt(s, c, rem, i)
  }

  ghost predicate ComingAt(s: Store, c: seq<nat>, rem: nat, i: nat) {
    && i < |c| && c[i] in s && s[c[i]].refs == 1 && s[c[i]].kind == Pool
    && (i + 1 < |c| ==> c[i + 1] in s)
    && s[c[i]].totLen == |s[c[i]].data| + (if i + 1 < |c| then s[c[i + 1]].totLen else rem)
    && (i > 0 ==> |s[c[i]].data| == if s[c[i]].totLen > PBUF_POOL_BUFSIZE then PBUF_POOL_BUFSIZE else s[c[i]].totLen)
  }

  /** t is s with the new buffers c. */
  ghost predicate Extends(s: Store, t: Store, c: seq<nat>) {
    && t.Keys == s.Keys + Elements(c) && (forall x :: x in s ==> t[x] == s[x])
    && (forall i :: 0 <= i < |c| ==> c[i] !in s)
  }

  function Fresh(n: nat, tot: nat): Pbuf {
    Pbuf(0, Pool, seq(n, _ => 0), tot, 1)
  }

  // ----- one more buffer -----

  lemma AddOwned(s: Store, own: Owners, p: nat, b: Pbuf)
    requires Counted(s, own, 0) && p !in s && p != 0 && b.next == 0 && b.refs == 1
    ensures Counted(s[p := b], own[p := 1], 0)
  {
    var t := s[p := b];
    forall x | x in t
      ensures Preds(t, x) == if x == p then {} else Preds(s, x)
    {
      forall y | y in t
        ensures t[y].next != p
      {
        assert y != p ==> s[y].next == 0 || s[y].next in s;
      }
    }
  }

  lemma AddLinked(s: Store, own: Owners, r: nat, q: nat, b: Pbuf)
    requires Counted(s, own, 0) && r in s && s[r].next == 0 && q !in s && q != 0 && b.next == 0 && b.refs == 1
    ensures Counted(s[q := b][r := s[r].(next := q)], own, 0)
  {
    hide Preds;
    var t := s[q := b][r := s[r].(next := q)];
    assert Held(own, q) == 0;
    forall x | x in t
      ensures |Preds(t, x)| == if x == q then 1 else |Preds(s, x)|
    {
      AddedPreds(s, t, r, q, x);
    }
  }

  lemma AddedPreds(s: Store, t: Store, r: nat, q: nat, x: nat)
    requires 0 !in s && r in s && s[r].next == 0 && q !in s && q != 0 && t.Keys == s.Keys + {q} && x in t
    requires t[q].next == 0 && t[r].next == q && forall y :: y in s && y != r ==> t[y].next == s[y].next
    requires forall y :: y in s && s[y].next != 0 ==> s[y].next in s
    ensures |Preds(t, x)| == if x == q then 1 else |Preds(s, x)|
  {
    forall y | y in s
      ensures s[y].next != q
    {
    }
    if x == q {
      assert Preds(t, x) == {r};
    } else {
      assert Preds(t, x) == Preds(s, x);
    }
  }

  lemma PoolTaken(s: Store, t: Store, pool: seq<nat>, all: set<nat>)
    requires PoolOk(s, pool, all) && pool != [] && t.Keys == s.Keys + {pool[0]} && t[pool[0]].kind == Pool
    requires forall x :: x in s && x != pool[0] ==> t[x].kind == s[x].kind
    ensures PoolOk(t, pool[1..], all) && pool[0] !in s && pool[0] != 0
  {
    var rest := pool[1..];
    assert pool[0] in Elements(pool);
    forall x | x in all
      ensures x in Elements(rest) + PoolLive(t)
    {
      if x in Elements(pool) {
        var i :| 0 <= i < |pool| && pool[i] == x;
        assert i > 0 ==> rest[i - 1] == x;
      }
    }
    forall i | 0 <= i < |rest|
      ensures rest[i] !in t && rest[i] in all
    {
      assert rest[i] == pool[i + 1] && pool[i + 1] in Elements(pool);
    }
  }

  /** The chain after one more buffer has been linked behind its last one. */
  lemma LinkedMore(s: Store, t: Store, c: seq<nat>, rem: nat, q: nat)
    requires c != [] && IsChain(t, c[0], c) && Coming(t, c, rem) && Extends(s, t, c) && q !in t && 0 !in t && q != 0
    ensures var last := c[|c| - 1];
      && last in t
      && var u := t[q := Fresh(Piece(rem), rem)][last := t[last].(next := q)];
         IsChain(u, c[0], c + [q]) && Coming(u, c + [q], rem - Piece(rem)) && Extends(s, u, c + [q])
  {
    var last, d := c[|c| - 1], c + [q];
    assert LinkAt(t, c, |c| - 1);
    var u := t[q := Fresh(Piece(rem), rem)][last := t[last].(next := q)];
    forall i | 0 <= i < |d|
      ensures LinkAt(u, d, i) && ComingAt(u, d, rem - Piece(rem), i) && d[i] !in s
    {
      if i < |c| {
        assert LinkAt(t, c, i) && ComingAt(t, c, rem, i) && (i + 1 < |c| ==> LinkAt(t, c, i + 1));
      }
    }
    assert Elements(d) == Elements(c) + {q} by {
      assert d[|c|] == q;
      forall x | x in Elements(c)
        ensures x in Elements(d)
      {
        var i :| 0 <= i < |c| && c[i] == x;
        assert d[i] == x;
      }
    }
  }

  /** With nothing left to come, the new chain has its totals and all its bytes. */
  lemma Complete(s: Store, t: Store, c: seq<nat>)
    requires Extends(s, t, c) && c != [] && IsChain(t, c[0], c) && Coming(t, c, 0) && 0 !in t
    requires forall x :: x in s && s[x].next != 0 ==> s[x].next in s
    ensures forall i :: 0 <= i < |c| ==> TotalAt(t, c[i])
    ensures Totals(s) ==> Totals(t)
  {
    forall i | 0 <= i < |c|
      ensures TotalAt(t, c[i])
    {
      assert LinkAt(t, c, i) && ComingAt(t, c, 0, i);
    }
    if Totals(s) {
      forall x | x in t
        ensures TotalAt(t, x)
      {
        assert x in s ==> TotalAt(s, x);
        assert x !in s ==> x in Elements(c);
      }
    }
  }

  /** Freeing a chain of new buffers gives the old store back. */
  lemma AllGone(s: Store, t: Store, c: seq<nat>, rem: nat, k: nat)
    requires Extends(s, t, c) && Coming(t, c, rem) && HeadRun(t, c, k)
    ensures k == |c| && Freed(t, c, k) == s
  {
    assert k < |c| ==> ComingAt(t, c, rem, k);
    assert c[..|c|] == c;
    forall x | x in t
      ensures x in c <==> x !in s
    {
      if x in c {
        var i :| 0 <= i < |c| && c[i] == x;
      }
    }
  }

  lemma FirstBuffer(s: Store, own: Owners, pool: seq<nat>, all: set<nat>, p: nat, head: Pbuf, rem: nat)
    requires Counted(s, own, 0) && PoolOk(s, pool, all) && pool != [] && p == pool[0]
    requires head.next == 0 && head.refs == 1 && head.kind == Pool && head.totLen == |head.data| + rem
    ensures var t := s[p := head];
      && Counted(t, own[p := 1], 0) && PoolOk(t, pool[1..], all) && p != 0 && p !in s
      && IsChain(t, p, [p]) && Coming(t, [p], rem) && Extends(s, t, [p])
  {
    hide Counted, PoolOk;
    var t, c := s[p := head], [p];
    PoolTaken(s, t, pool, all);
    AddOwned(s, own, p, head);
    assert LinkAt(t, c, 0) && ComingAt(t, c, rem, 0);
    assert Elements(c) == {p} by { assert c[0] == p; }
  }

  lemma NextBuffer(s: Store, t: Store, own: Owners, pool: seq<nat>, all: set<nat>, p: nat, c: seq<nat>, rem: nat, r: nat, q: nat)
    requires Counted(t, own, 0) && PoolOk(t, pool, all) && pool != [] && q == pool[0] && c != [] && c[0] == p && r == c[|c| - 1]
    requires IsChain(t, p, c) && Coming(t, c, rem) && Extends(s, t, c) && rem > 0 && p in t
    ensures r in t && q !in t && q != 0
    ensures var v := t[q := Fresh(Piece(rem), rem)];
      var u := v[r := v[r].(next := q)];
      && Counted(u, own, 0) && PoolOk(u, pool[1..], all) && p in u && u[p].totLen == t[p].totLen && u[p].data == t[p].data
      && IsChain(u, p, c + [q]) && Coming(u, c + [q], rem - Piece(rem)) && Extends(s, u, c + [q])
  {
    hide Counted, PoolOk, Coming, Extends;
    assert LinkAt(t, c, |c| - 1);
    NoNull(t, own);
    var b := Fresh(Piece(rem), rem);
    PoolTaken(t, t[q := b], pool, all);
    AddLinked(t, own, r, q, b);
    LinkedMore(s, t, c, rem, q);
    SameKinds(t[q := b], t[q := b][r := t[r].(next := q)], pool[1..], all);
  }

  lemma PoolSet(s: Store, pool: seq<nat>, all: set<nat>)
    requires PoolOk(s, pool, all)
    ensures Elements(pool) == all - PoolLive(s)
  {
  }

  lemma Bail(own: Owners, s: Store, t: Store, p: nat, c: seq<nat>)
    requires Counted(s, own, 0) && Extends(s, t, c) && c != [] && c[0] == p
    ensures Held(own, p) == 0
  {
  }

  lemma Finish(s: Store, t: Store, own: Owners, own': Owners, p: nat, c: seq<nat>)
    requires Counted(s, own, 0) && Counted(t, own', 0) && Extends(s, t, c) && c != [] && c[0] == p
    requires IsChain(t, p, c) && Coming(t, c, 0)
    ensures (Totals(s) ==> Totals(t)) && p in t && t[p].totLen == |Data(t, c)|
  {
    hide Totals, Coming, Extends;
    NoNull(t, own');
    Complete(s, t, c);
    TotalIsLength(t, p, c);
  }

  /** pbuf_alloc for PBUF_POOL. It succeeds exactly when the pool has enough buffers; when it
      runs out half-way, what was taken goes back and nothing else has changed. */
  method AllocPool(b: Pbufs, length: nat, offset: nat) returns (p: nat, ghost c: seq<nat>)
    requires b.Sound() && offset < PBUF_POOL_BUFSIZE && length <= 0xFFFF
    modifies b
    ensures b.Sound() && (old(b.Valid()) ==> b.Valid())
    ensures p != 0 <==> |old(b.pool)| >= Needed(length, offset)
    ensures p == 0 ==> b.node == old(b.node) && Elements(b.pool) == old(Elements(b.pool))
                       && forall x :: Held(b.own, x) == old(Held(b.own, x))
    ensures p != 0 ==> && Extends(old(b.node), b.node, c) && IsChain(b.node, p, c) && |c| == Needed(length, offset)
                       && b.node[p].totLen == length == |Data(b.node, c)| && b.own == old(b.own)[p := 1]
                       && Coming(b.node, c, 0) && |b.pool| == |old(b.pool)| - |c|
                       && |b.node[p].data| == if length > PBUF_POOL_BUFSIZE - offset then PBUF_POOL_BUFSIZE - offset else length
  {
    hide Counted, PoolOk, Totals, IsChain, Coming, Extends, Freed, HeadRun;
    c := [];
    ghost var s := b.node;
    if b.pool == [] {
      p := 0;
      return;
    }
    p := b.pool[0];
    var rem: nat := length - First(length, offset);
    var head := Fresh(First(length, offset), length);
    FirstBuffer(s, b.own, b.pool, b.all, p, head, rem);
    b.node := b.node[p := head];
    b.pool := b.pool[1..];
    b.own := b.own[p := 1];
    c := [p];
    var r := p;
    while rem > 0
      invariant c != [] && c[0] == p && p != 0 && r == c[|c| - 1] && p in b.node && b.node[p].totLen == length
      invariant |b.node[p].data| == First(length, offset)
      invariant IsChain(b.node, p, c) && Coming(b.node, c, rem) && Extends(s, b.node, c)
      invariant Counted(b.node, b.own, 0) && PoolOk(b.node, b.pool, b.all) && b.own == old(b.own)[p := 1]
      invariant |c| + |b.pool| == |old(b.pool)| && |c| + Blocks(rem) == Needed(length, offset)
      decreases rem
    {
      if b.pool == [] {
        ghost var t := b.node;
        PoolSet(s, old(b.pool), b.all);
        Bail(old(b.own), s, t, p, c);
        GivenBack(b.node, b.own, p);
        b.own := b.own[p := 0];
        var count := b.Release(p, c);
        AllGone(s, t, c, rem, count);
        PoolSet(b.node, b.pool, b.all);
        p := 0;
        return;
      }
      var q := b.pool[0];
      NextBuffer(s, b.node, b.own, b.pool, b.all, p, c, rem, r, q);
      b.pool := b.pool[1..];
      b.node := b.node[q := Fresh(Piece(rem), rem)];
      b.node := b.node[r := b.node[r].(next := q)];
      rem := rem - Piece(rem);
      c := c + [q];
      r := q;
    }
    Finish(s, b.node, old(b.own), b.own, p, c);
  }
}
