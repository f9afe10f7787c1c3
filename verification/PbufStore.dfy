/** Reference-counted packet buffers as values: links, counts and lengths
    (iop/SMSTCPIP/pbuf.c). */
module PbufStore {
  import opened Bytes

  datatype Kind = Ram | Rom | Ref | Pool

  /** A packet buffer: the link (0 is NULL), its payload, tot_len and the reference count. */
  datatype Pbuf = Pbuf(next: nat, kind: Kind, data: seq<Byte>, totLen: int, refs: nat)

  /** The live packet buffers by address. */
  type Store = map<nat, Pbuf>

  /** Buffers that link to x. */
  ghost function Preds(s: Store, x: nat): set<nat> {
    set y | y in s && s[y].next == x
  }

  /** References held outside the store. */
  type Owners = map<nat, nat>

  ghost function Held(own: Owners, x: nat): nat {
    if x in own then own[x] else 0
  }

  /** Links lead to live buffers, and every count is the number of links and owners, plus one
      for the buffer whose reference is being dropped. */
  ghost predicate Counted(s: Store, own: Owners, extra: nat) {
    && 0 !in s
    && (forall x :: x in s && s[x].next != 0 ==> s[x].next in s)
    && (forall x :: x in s ==> s[x].refs >= 1 && s[x].refs == |Preds(s, x)| + Held(own, x) + (if x == extra then 1 else 0))
    && (forall x :: x in own && own[x] > 0 ==> x in s)
  }

  /** tot_len is the length of the buffer and of everything behind it. */
  ghost predicate TotalAt(s: Store, x: nat) {
    x in s && s[x].totLen == |s[x].data| + (if s[x].next in s then s[s[x].next].totLen else 0)
  }

  ghost predicate Totals(s: Store) {
    forall x :: x in s ==> TotalAt(s, x)
  }

  /** No buffer that is still there has a tot_len that has become right or wrong. */
  ghost predicate TotalsStay(s: Store, t: Store) {
    t.Keys <= s.Keys && forall x :: x in t ==> (TotalAt(t, x) <==> TotalAt(s, x))
  }

  lemma TotalsFollow(s: Store, t: Store)
    requires TotalsStay(s, t) && Totals(s)
    ensures Totals(t)
  {
    forall x | x in t
      ensures TotalAt(t, x)
    {
      assert x in t.Keys && TotalAt(s, x);
    }
  }

  lemma StayTwice(s: Store, t: Store, u: Store)
    requires TotalsStay(s, t) && TotalsStay(t, u)
    ensures TotalsStay(s, u)
  {
    hide TotalAt;
    forall x | x in u
      ensures TotalAt(u, x) <==> TotalAt(s, x)
    {
      assert x in u.Keys && x in t;
    }
  }

  /** Buffer i of c links to the next one. */
  ghost predicate LinkAt(s: Store, c: seq<nat>, i: nat) {
    i < |c| && c[i] in s && s[c[i]].next == if i + 1 < |c| then c[i + 1] else 0
  }

  /** c are the buffers from p on. */
  ghost predicate IsChain(s: Store, p: nat, c: seq<nat>) {
    (forall i :: 0 <= i < |c| ==> LinkAt(s, c, i)) && p == if c == [] then 0 else c[0]
  }

  lemma ChainTail(s: Store, p: nat, c: seq<nat>)
    requires IsChain(s, p, c) && c != []
    ensures p in s && IsChain(s, s[p].next, c[1..])
  {
    assert LinkAt(s, c, 0);
    forall i | 0 <= i < |c[1..]|
      ensures LinkAt(s, c[1..], i)
    {
      assert LinkAt(s, c, i + 1);
    }
  }

  lemma ChainLive(s: Store, p: nat, c: seq<nat>)
    requires IsChain(s, p, c)
    ensures forall i :: 0 <= i < |c| ==> c[i] in s
  {
    forall i | 0 <= i < |c|
      ensures c[i] in s
    {
      assert LinkAt(s, c, i);
    }
  }

  /** The bytes of a chain. */
  ghost function Data(s: Store, c: seq<nat>): seq<Byte> {
    if c == [] then [] else (if c[0] in s then s[c[0]].data else []) + Data(s, c[1..])
  }

  /** tot_len of a chain is the number of its bytes. */
  lemma {:induction false} TotalIsLength(s: Store, p: nat, c: seq<nat>)
    requires 0 !in s && IsChain(s, p, c) && c != [] && forall i :: 0 <= i < |c| ==> TotalAt(s, c[i])
    ensures (forall i :: 0 <= i < |c| ==> c[i] in s) && p in s && s[p].totLen == |Data(s, c)|
    decreases |c|
  {
    ChainLive(s, p, c);
    assert TotalAt(s, c[0]);
    ChainTail(s, p, c);
    if |c| > 1 {
      TotalIsLength(s, s[p].next, c[1..]);
    }
  }

  // ----- dropping a reference -----

  /** A buffer without links to it is taken out: the reference it held on its successor is the
      next one to drop. */
  lemma TakenOut(s: Store, own: Owners, p: nat)
    requires Counted(s, own, p) && p in s && s[p].refs == 1
    ensures Counted(s - {p}, own, s[p].next) && Held(own, p) == 0 && Preds(s, p) == {}
    ensures TotalsStay(s, s - {p})
  {
    hide Preds, TotalAt;
    var t := s - {p};
    assert |Preds(s, p)| == 0;
    forall x | x in t
      ensures t[x].refs == |Preds(t, x)| + Held(own, x) + (if x == s[p].next then 1 else 0)
      ensures t[x].next != p
    {
      assert x in s;
      PredsLess(s, p, x);
    }
    TakenOutTotals(s, p);
  }

  lemma PredsLess(s: Store, p: nat, x: nat)
    requires p in s && Preds(s, p) == {} && x in s
    ensures |Preds(s, x)| == |Preds(s - {p}, x)| + (if x == s[p].next then 1 else 0)
    ensures s[x].next != p
  {
    assert x !in Preds(s, p);
    if x == s[p].next {
      assert Preds(s, x) == Preds(s - {p}, x) + {p};
    } else {
      assert Preds(s, x) == Preds(s - {p}, x);
    }
  }

  lemma TakenOutTotals(s: Store, p: nat)
    requires p in s && Preds(s, p) == {}
    ensures TotalsStay(s, s - {p})
  {
    forall x | x in s - {p}
      ensures TotalAt(s - {p}, x) <==> TotalAt(s, x)
    {
      assert x !in Preds(s, p);
    }
  }

  /** Only the count of x changes. */
  lemma Recounted(s: Store, own: Owners, x: nat, n: nat, extra: nat, own': Owners, extra': nat)
    requires Counted(s, own, extra) && x in s && n >= 1
    requires n == |Preds(s, x)| + Held(own', x) + (if x == extra' then 1 else 0)
    requires forall y :: y != x ==> Held(own', y) == Held(own, y)
    requires forall y :: y in s && y != x ==> (y == extra <==> y == extra')
    ensures Counted(s[x := s[x].(refs := n)], own', extra')
    ensures TotalsStay(s, s[x := s[x].(refs := n)])
  {
    hide Preds;
    var t := s[x := s[x].(refs := n)];
    forall y | y in t
      ensures |Preds(t, y)| == |Preds(s, y)|
    {
      SamePreds(s, t, y);
    }
    forall y | y in own' && own'[y] > 0
      ensures y in t
    {
      assert y != x ==> Held(own, y) > 0;
    }
    SameTotals(s, t);
  }

  ghost predicate SameLinks(s: Store, t: Store) {
    s.Keys == t.Keys && forall x :: x in s ==> t[x].next == s[x].next
  }

  lemma SamePreds(s: Store, t: Store, y: nat)
    requires SameLinks(s, t)
    ensures Preds(t, y) == Preds(s, y)
  {
  }

  lemma SameTotals(s: Store, t: Store)
    requires SameLinks(s, t) && forall x :: x in s ==> t[x].data == s[x].data && t[x].totLen == s[x].totLen
    ensures TotalsStay(s, t)
  {
  }

  /** The store after dropping a reference to the head of c, when the first k buffers have no
      other reference and the next one, if any, has. */
  function Freed(s: Store, c: seq<nat>, k: nat): Store
    requires k <= |c| && (k < |c| ==> c[k] in s && s[c[k]].refs > 0)
  {
    var t := map x | x in s && x !in c[..k] :: s[x];
    if k < |c| then t[c[k] := s[c[k]].(refs := s[c[k]].refs - 1)] else t
  }

  /** The length of the maximal run of buffers with one reference at the head of c. */
  ghost predicate HeadRun(s: Store, c: seq<nat>, k: nat) {
    && k <= |c| && (forall i :: 0 <= i < |c| ==> c[i] in s)
    && (forall i :: 0 <= i < k ==> s[c[i]].refs == 1) && (k < |c| ==> s[c[k]].refs > 1)
  }

  /** A chain never visits a buffer twice. */
  lemma {:induction false} ChainsMeet(s: Store, c: seq<nat>, p: nat, i: nat, j: nat)
    requires IsChain(s, p, c) && 0 !in s && i <= j < |c| && c[i] == c[j]
    ensures i == j
    decreases |c| - j
  {
    assert LinkAt(s, c, i) && LinkAt(s, c, j) && (i + 1 < |c| ==> LinkAt(s, c, i + 1));
    if j + 1 < |c| {
      ChainsMeet(s, c, p, i + 1, j + 1);
    }
  }

  // ----- the pool -----

  ghost predicate NoDup(l: seq<nat>) {
    forall i, j :: 0 <= i < |l| && 0 <= j < |l| && l[i] == l[j] ==> i == j
  }

  ghost function PoolLive(s: Store): set<nat> {
    set x | x in s && s[x].kind == Pool
  }

  ghost function Elements(l: seq<nat>): set<nat> {
    set i | 0 <= i < |l| :: l[i]
  }

  /** Every pool buffer is either in the free list or live, and in no other way. */
  ghost predicate PoolOk(s: Store, pool: seq<nat>, all: set<nat>) {
    && NoDup(pool) && 0 !in all && Elements(pool) + PoolLive(s) == all
    && (forall i :: 0 <= i < |pool| ==> pool[i] !in s)
    && (forall x :: x in s && x in all ==> s[x].kind == Pool)
  }

  /** A pool buffer is returned. */
  lemma Returned(s: Store, pool: seq<nat>, all: set<nat>, p: nat)
    requires PoolOk(s, pool, all) && p in s
    ensures PoolOk(s - {p}, if s[p].kind == Pool then [p] + pool else pool, all)
  {
    var t := s - {p};
    var l := if s[p].kind == Pool then [p] + pool else pool;
    forall x | x in all
      ensures x in Elements(l) + PoolLive(t)
    {
      if x == p {
        assert l[0] == p;
      } else if x in Elements(pool) {
        var i :| 0 <= i < |pool| && pool[i] == x;
        assert s[p].kind == Pool ==> l[i + 1] == x;
      }
    }
    forall x | x in Elements(l) + PoolLive(t)
      ensures x in all
    {
      if x in Elements(l) {
        var i :| 0 <= i < |l| && l[i] == x;
        if s[p].kind == Pool && i > 0 {
          assert pool[i - 1] == x;
        }
      }
    }
  }

  lemma {:induction false} ElementsSize(l: seq<nat>)
    requires NoDup(l)
    ensures |Elements(l)| == |l|
  {
    if l != [] {
      var t, x := l[..|l| - 1], l[|l| - 1];
      ElementsSize(t);
      assert Elements(l) == Elements(t) + {x} && x !in Elements(t);
    }
  }

  /** Conservation: free and live pool buffers together are always all of them. */
  lemma PoolConserved(s: Store, pool: seq<nat>, all: set<nat>)
    requires PoolOk(s, pool, all)
    ensures |pool| + |PoolLive(s)| == |all|
  {
    ElementsSize(pool);
    assert Elements(pool) !! PoolLive(s);
  }
}
