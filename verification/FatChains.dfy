/** Cluster chains of a file allocation table, as sequences of records. */
module FatChains {

  /** cs is a whole chain of table t: each record names the next cluster, and the record
      of the last cluster is an end mark. */
  ghost predicate IsChain(t: seq<nat>, endMark: nat, cs: seq<nat>) {
    && |cs| >= 1
    && (forall i :: 0 <= i < |cs| ==> 2 <= cs[i] < |t| && cs[i] < endMark)
    && (forall i :: 0 <= i < |cs| - 1 ==> t[cs[i]] == cs[i + 1])
    && t[cs[|cs| - 1]] >= endMark
  }

  lemma ChainInside(t: seq<nat>, endMark: nat, cs: seq<nat>)
    requires IsChain(t, endMark, cs)
    ensures |cs| > 0 && forall i :: 0 <= i < |cs| ==> 2 <= cs[i] < |t|
  {
  }

  /** Reading one record decides whether the chain goes on, and where. */
  lemma ChainStep(t: seq<nat>, endMark: nat, cs: seq<nat>, i: nat)
    requires IsChain(t, endMark, cs) && i < |cs|
    ensures t[cs[i]] < endMark <==> i < |cs| - 1
    ensures i < |cs| - 1 ==> t[cs[i]] == cs[i + 1]
  {
    if i < |cs| - 1 {
      assert t[cs[i]] == cs[i + 1] && cs[i + 1] < endMark;
    } else {
      assert cs[i] == cs[|cs| - 1];
    }
  }

  /** Chains that meet have the same rest: a cluster has one successor. */
  lemma {:induction false} ChainsMeet(t: seq<nat>, endMark: nat, cs: seq<nat>, ds: seq<nat>, i: nat, j: nat)
    requires IsChain(t, endMark, cs) && IsChain(t, endMark, ds)
    requires i < |cs| && j < |ds| && cs[i] == ds[j]
    ensures cs[i..] == ds[j..]
    decreases |cs| - i
  {
    ChainStep(t, endMark, cs, i);
    ChainStep(t, endMark, ds, j);
    if i < |cs| - 1 {
      ChainsMeet(t, endMark, cs, ds, i + 1, j + 1);
      assert cs[i..] == [cs[i]] + cs[i + 1..] && ds[j..] == [ds[j]] + ds[j + 1..];
    }
  }

  /** A chain that ends never visits a cluster twice. */
  lemma ChainDistinct(t: seq<nat>, endMark: nat, cs: seq<nat>, i: nat, j: nat)
    requires IsChain(t, endMark, cs) && i < |cs| && j < |cs| && cs[i] == cs[j]
    ensures i == j
  {
    ChainsMeet(t, endMark, cs, cs, i, j);
    assert |cs[i..]| == |cs[j..]|;
  }

  /** A free cluster is on no chain. */
  lemma FreeOffChain(t: seq<nat>, endMark: nat, cs: seq<nat>, c: nat)
    requires IsChain(t, endMark, cs) && c < |t| && t[c] == 0
    ensures c !in cs
  {
    forall i | 0 <= i < |cs|
      ensures t[cs[i]] != 0
    {
      ChainStep(t, endMark, cs, i);
      assert i < |cs| - 1 ==> cs[i + 1] >= 2;
    }
  }

  /** The table after `next` has been hung behind `cur` (fat_appendClusterChain). */
  ghost function Linked(t: seq<nat>, cur: nat, next: nat, last: nat): seq<nat>
    requires cur < |t| && next < |t|
  {
    t[cur := next][next := last]
  }

  /** Hanging a free cluster behind element k of a chain makes the chain its first k+1 clusters
      and the new one, and leaves every chain that does not run through that element as it was. */
  lemma AppendBehind(t: seq<nat>, endMark: nat, cs: seq<nat>, k: nat, next: nat, last: nat, ds: seq<nat>)
    requires IsChain(t, endMark, cs) && k < |cs| && 2 <= next < |t| && next < endMark && t[next] == 0 && last >= endMark
    ensures IsChain(Linked(t, cs[k], next, last), endMark, cs[..k + 1] + [next])
    ensures IsChain(t, endMark, ds) && cs[k] !in ds ==> IsChain(Linked(t, cs[k], next, last), endMark, ds)
  {
    var u, es := Linked(t, cs[k], next, last), cs[..k + 1] + [next];
    FreeOffChain(t, endMark, cs, next);
    forall i | 0 <= i <= k
      ensures u[cs[i]] == es[i + 1] && cs[i] != next
    {
      assert cs[i] in cs;
      if cs[i] == cs[k] {
        ChainDistinct(t, endMark, cs, i, k);
      }
    }
    if IsChain(t, endMark, ds) && cs[k] !in ds {
      FreeOffChain(t, endMark, ds, next);
    }
  }

  /** Appending a free cluster to a chain extends that chain by it. */
  lemma AppendExtends(t: seq<nat>, endMark: nat, cs: seq<nat>, next: nat, last: nat, ds: seq<nat>)
    requires IsChain(t, endMark, cs) && 2 <= next < |t| && next < endMark && t[next] == 0 && last >= endMark
    ensures IsChain(Linked(t, cs[|cs| - 1], next, last), endMark, cs + [next])
    ensures IsChain(t, endMark, ds) && cs[|cs| - 1] !in ds
            ==> IsChain(Linked(t, cs[|cs| - 1], next, last), endMark, ds)
  {
    AppendBehind(t, endMark, cs, |cs| - 1, next, last, ds);
    assert cs[..|cs| - 1 + 1] == cs;
  }

  /** A free cluster becomes a chain of its own (fat_createClusterChain). */
  lemma CreateExtends(t: seq<nat>, endMark: nat, next: nat, last: nat, ds: seq<nat>)
    requires 2 <= next < |t| && next < endMark && t[next] == 0 && last >= endMark
    ensures IsChain(t[next := last], endMark, [next])
    ensures IsChain(t, endMark, ds) ==> IsChain(t[next := last], endMark, ds)
  {
    if IsChain(t, endMark, ds) {
      FreeOffChain(t, endMark, ds, next);
    }
  }

  /** The table with the clusters of cs set free. */
  ghost function Freed(t: seq<nat>, cs: seq<nat>): seq<nat> {
    seq(|t|, c requires 0 <= c < |t| => if c in cs then 0 else t[c])
  }

  /** Freeing clusters keeps every chain that avoids them. */
  lemma FreedKeeps(t: seq<nat>, endMark: nat, cs: seq<nat>, ds: seq<nat>)
    requires IsChain(t, endMark, ds) && forall i :: 0 <= i < |ds| ==> ds[i] !in cs
    ensures IsChain(Freed(t, cs), endMark, ds)
  {
  }

  /** The rest of a chain is a chain. */
  lemma ChainSuffix(t: seq<nat>, endMark: nat, cs: seq<nat>, k: nat)
    requires IsChain(t, endMark, cs) && k < |cs|
    ensures IsChain(t, endMark, cs[k..])
  {
    forall i | 0 <= i < |cs| - k
      ensures cs[k..][i] == cs[k + i] && (i < |cs| - k - 1 ==> t[cs[k..][i]] == cs[k..][i + 1])
    {
      ChainStep(t, endMark, cs, k + i);
    }
    assert cs[k..][|cs| - k - 1] == cs[|cs| - 1];
  }

  /** With its first k clusters free, the rest of a chain is still a chain. */
  lemma FreedSuffix(t: seq<nat>, endMark: nat, cs: seq<nat>, k: nat)
    requires IsChain(t, endMark, cs) && k < |cs|
    ensures IsChain(Freed(t, cs[..k]), endMark, cs[k..])
  {
    ChainSuffix(t, endMark, cs, k);
    forall i | 0 <= i < |cs| - k
      ensures cs[k..][i] !in cs[..k]
    {
      if j :| 0 <= j < k && cs[j] == cs[k + i] {
        ChainDistinct(t, endMark, cs, j, k + i);
      }
    }
    FreedKeeps(t, endMark, cs[..k], cs[k..]);
  }

  /** A cluster whose number is an end mark cannot be linked: the chain it was hung behind ends
      where it ended before, and the cluster is on no chain. */
  lemma EndMarkLost(t: seq<nat>, endMark: nat, cs: seq<nat>, next: nat, last: nat)
    requires IsChain(t, endMark, cs) && endMark <= next < |t| && last >= endMark
    ensures IsChain(Linked(t, cs[|cs| - 1], next, last), endMark, cs)
    ensures forall ds :: IsChain(Linked(t, cs[|cs| - 1], next, last), endMark, ds) ==> next !in ds
  {
    var u := Linked(t, cs[|cs| - 1], next, last);
    forall i | 0 <= i < |cs| - 1
      ensures u[cs[i]] == cs[i + 1]
    {
      if cs[i] == cs[|cs| - 1] {
        ChainDistinct(t, endMark, cs, i, |cs| - 1);
      }
    }
  }
}
