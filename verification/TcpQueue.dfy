/** Sequence numbers and sender queues of a connection, as values
    (iop/SMSTCPIP/tcp_out.c, tcp_in.c; section 3.3 of RFC 793). */
module TcpQueue {
  import opened Bytes

  const M := 0x1_0000_0000
  const HALF := 0x8000_0000
  const TCP_SND_QUEUELEN := 8

  /** A 32-bit sequence number. */
  type Seq = x: nat | x < 0x1_0000_0000

  function Add(a: Seq, n: int): Seq {
    (a + n) % M
  }

  /** How far b is ahead of a. */
  function Fwd(a: Seq, b: Seq): nat {
    (b - a) % M
  }

  /** TCP_SEQ_LT and TCP_SEQ_LEQ: the sign of the 32-bit difference. */
  predicate SeqLt(a: Seq, b: Seq) {
    Fwd(b, a) >= HALF
  }

  predicate SeqLeq(a: Seq, b: Seq) {
    Fwd(b, a) == 0 || Fwd(b, a) >= HALF
  }

  lemma AddAdd(a: Seq, m: int, n: int)
    ensures Add(Add(a, m), n) == Add(a, m + n)
  {
  }

  lemma AddZero(a: Seq)
    ensures Add(a, 0) == a
  {
  }

  lemma FwdAdd(a: Seq, n: nat, b: Seq)
    ensures n < M ==> Fwd(a, Add(a, n)) == n
    ensures Add(a, Fwd(a, b)) == b && Fwd(a, b) < M
  {
  }

  /** Comparing two positions that are both counted from a. */
  lemma Compare(a: Seq, x: nat, y: nat)
    requires x < HALF && y < HALF
    ensures SeqLt(Add(a, x), Add(a, y)) <==> x < y
    ensures SeqLeq(Add(a, x), Add(a, y)) <==> x <= y
  {
  }

  /** A queued segment: its first sequence number, its bytes, its SYN or FIN flag and the
      number of packet buffers that hold it. */
  datatype Segment = Segment(seqno: Seq, data: seq<Byte>, syn: bool, fin: bool, clen: nat)

  /** TCP_TCPLEN: a SYN or FIN takes one sequence number. */
  function TcpLen(s: Segment): nat {
    |s.data| + if s.syn || s.fin then 1 else 0
  }

  ghost predicate SegmentOk(s: Segment) {
    && 1 <= TcpLen(s) && |s.data| <= 0xFFFF && 1 <= s.clen
    && (s.syn || s.fin ==> s.data == [] && s.clen == 1)
  }

  function Sum(q: seq<Segment>): nat {
    if q == [] then 0 else TcpLen(q[0]) + Sum(q[1..])
  }

  function Clen(q: seq<Segment>): nat {
    if q == [] then 0 else q[0].clen + Clen(q[1..])
  }

  function Payload(q: seq<Segment>): seq<Byte> {
    if q == [] then [] else q[0].data + Payload(q[1..])
  }

  /** Every segment starts where the one before it ends. */
  ghost predicate Contig(q: seq<Segment>, start: Seq) {
    q == [] || (q[0].seqno == start && SegmentOk(q[0]) && Contig(q[1..], Add(start, TcpLen(q[0]))))
  }

  lemma {:induction false} ConcatSums(q: seq<Segment>, r: seq<Segment>)
    ensures Sum(q + r) == Sum(q) + Sum(r) && Clen(q + r) == Clen(q) + Clen(r)
    ensures Payload(q + r) == Payload(q) + Payload(r)
  {
    hide TcpLen;
    if q == [] {
      assert q + r == r;
    } else {
      assert (q + r)[1..] == q[1..] + r;
      ConcatSums(q[1..], r);
    }
  }

  lemma {:induction false} ConcatContig(q: seq<Segment>, r: seq<Segment>, start: Seq)
    ensures Contig(q + r, start) <==> Contig(q, start) && Contig(r, Add(start, Sum(q)))
  {
    hide Add, SegmentOk, TcpLen;
    if q == [] {
      AddZero(start);
      assert q + r == r;
    } else {
      assert (q + r)[1..] == q[1..] + r;
      ConcatContig(q[1..], r, Add(start, TcpLen(q[0])));
      AddAdd(start, TcpLen(q[0]), Sum(q[1..]));
    }
  }

  lemma Concat(q: seq<Segment>, r: seq<Segment>, start: Seq)
    ensures Sum(q + r) == Sum(q) + Sum(r) && Clen(q + r) == Clen(q) + Clen(r)
    ensures Payload(q + r) == Payload(q) + Payload(r)
    ensures Contig(q + r, start) <==> Contig(q, start) && Contig(r, Add(start, Sum(q)))
  {
    ConcatSums(q, r);
    ConcatContig(q, r, start);
  }

  /** Few packet buffers hold few bytes: sequence comparisons inside a queue are unambiguous. */
  lemma {:induction false} SumBound(q: seq<Segment>, start: Seq)
    requires Contig(q, start)
    ensures |q| <= Clen(q) && |q| <= Sum(q) <= 0x10000 * Clen(q)
  {
    hide Add;
    if q != [] {
      SumBound(q[1..], Add(start, TcpLen(q[0])));
    }
  }

  /** First sequence number the queues hold. */
  function Start(q: seq<Segment>, lastack: Seq): Seq {
    if q == [] then lastack else q[0].seqno
  }

  /** The queue invariant: unacked ++ unsent is gap-free from a segment that is not fully
      acknowledged up to snd_lbb, and snd_max lies behind all of unacked. */
  ghost predicate QueueOk(unacked: seq<Segment>, unsent: seq<Segment>, lastack: Seq, lbb: Seq, max: Seq) {
    var q := unacked + unsent;
    var start := Start(q, lastack);
    && Contig(q, start) && lbb == Add(start, Sum(q)) && Clen(q) <= TCP_SND_QUEUELEN
    && (q != [] ==> Fwd(start, lastack) < TcpLen(q[0]))
    && Fwd(start, lastack) <= Fwd(start, max) <= Sum(q)
    && Sum(unacked) <= Fwd(start, max)
  }

  /** Moving the boundary between the two queues, with snd_max behind it. */
  lemma Moved(unacked: seq<Segment>, unsent: seq<Segment>, left: seq<Segment>, right: seq<Segment>,
              lastack: Seq, lbb: Seq, max: Seq)
    requires QueueOk(unacked, unsent, lastack, lbb, max) && left + right == unacked + unsent
    requires Sum(left) <= Fwd(Start(left + right, lastack), max)
    ensures QueueOk(left, right, lastack, lbb, max)
  {
  }

  /** The boundary after one more segment has been sent. */
  lemma SentOne(unacked: seq<Segment>, unsent: seq<Segment>, lastack: Seq, lbb: Seq, max: Seq)
    requires QueueOk(unacked, unsent, lastack, lbb, max) && unsent != []
    ensures var nxt := Add(unsent[0].seqno, TcpLen(unsent[0]));
      QueueOk(unacked + [unsent[0]], unsent[1..], lastack, lbb, if SeqLt(max, nxt) then nxt else max)
  {
    hide Add, Fwd, SeqLt, Contig;
    var q := unacked + unsent;
    var start := Start(q, lastack);
    var sent, rest := unacked + [unsent[0]], unsent[1..];
    assert sent + rest == q;
    FrontOfUnsent(unacked, unsent, start);
    Concat(sent, rest, start);
    SumBound(q, start);
    FwdAdd(start, Sum(sent), max);
    Compare(start, Fwd(start, max), Sum(sent));
  }

  /** Where the first unsent segment lies. */
  lemma FrontOfUnsent(unacked: seq<Segment>, unsent: seq<Segment>, start: Seq)
    requires Contig(unacked + unsent, start) && unsent != []
    ensures unsent[0].seqno == Add(start, Sum(unacked)) && SegmentOk(unsent[0])
    ensures Sum(unacked + [unsent[0]]) == Sum(unacked) + TcpLen(unsent[0])
    ensures Add(unsent[0].seqno, TcpLen(unsent[0])) == Add(start, Sum(unacked + [unsent[0]]))
  {
    hide Add;
    Concat(unacked, unsent, start);
    Concat(unacked, [unsent[0]], start);
    AddAdd(start, Sum(unacked), TcpLen(unsent[0]));
  }

  /** Queues after `more` has been appended. */
  lemma Appended(unacked: seq<Segment>, unsent: seq<Segment>, more: seq<Segment>, lastack: Seq, lbb: Seq, max: Seq)
    requires QueueOk(unacked, unsent, lastack, lbb, max) && Contig(more, lbb)
    requires Clen(unacked + unsent) + Clen(more) <= TCP_SND_QUEUELEN
    ensures QueueOk(unacked, unsent + more, lastack, Add(lbb, Sum(more)), max)
    ensures Clen(unacked + (unsent + more)) == Clen(unacked + unsent) + Clen(more)
    ensures Payload(unacked + (unsent + more)) == Payload(unacked + unsent) + Payload(more)
  {
    hide Add, Fwd, Contig;
    var q := unacked + unsent;
    var start := Start(q, lastack);
    assert unacked + (unsent + more) == q + more;
    Concat(q, more, start);
    AddAdd(start, Sum(q), Sum(more));
    AddZero(start);
    FwdAdd(start, 0, start);
    if q == [] {
      assert q + more == more;
      FirstIsOk(more, lbb);
    } else {
      assert (q + more)[0] == q[0];
    }
  }

  lemma FirstIsOk(q: seq<Segment>, start: Seq)
    requires Contig(q, start)
    ensures q != [] ==> q[0].seqno == start && SegmentOk(q[0]) && TcpLen(q[0]) > 0
  {
  }

  /** The last segment of the queue absorbs the first of `more`. */
  function Merged(a: Segment, b: Segment): Segment {
    a.(data := a.data + b.data, clen := a.clen + b.clen)
  }

  lemma {:induction false} MergeKeeps(q: seq<Segment>, a: Segment, b: Segment, r: seq<Segment>, start: Seq)
    requires Contig(q + [a, b] + r, start) && !a.syn && !a.fin && !b.syn && !b.fin && |a.data| + |b.data| <= 0xFFFF
    ensures Contig(q + [Merged(a, b)] + r, start)
    ensures Sum(q + [Merged(a, b)] + r) == Sum(q + [a, b] + r)
    ensures Clen(q + [Merged(a, b)] + r) == Clen(q + [a, b] + r)
    ensures Payload(q + [Merged(a, b)] + r) == Payload(q + [a, b] + r)
  {
    hide Add;
    if q == [] {
      var s, m := [a, b] + r, [Merged(a, b)] + r;
      assert q + [a, b] + r == s && q + [Merged(a, b)] + r == m;
      assert s[1..] == [b] + r && s[1..][1..] == r && m[1..] == r;
      AddAdd(start, TcpLen(a), TcpLen(b));
    } else {
      var t := q[1..];
      assert (q + [a, b] + r)[1..] == t + [a, b] + r && (q + [Merged(a, b)] + r)[1..] == t + [Merged(a, b)] + r;
      MergeKeeps(t, a, b, r, Add(start, TcpLen(q[0])));
    }
  }

  /** Coalescing inside unsent keeps the queues in order. */
  lemma Coalesced(unacked: seq<Segment>, u: seq<Segment>, a: Segment, b: Segment, r: seq<Segment>,
                  lastack: Seq, lbb: Seq, max: Seq)
    requires QueueOk(unacked, u + [a, b] + r, lastack, lbb, max)
    requires !a.syn && !a.fin && !b.syn && !b.fin && |a.data| + |b.data| <= 0xFFFF
    ensures QueueOk(unacked, u + [Merged(a, b)] + r, lastack, lbb, max)
    ensures Clen(unacked + (u + [Merged(a, b)] + r)) == Clen(unacked + (u + [a, b] + r))
    ensures Payload(unacked + (u + [Merged(a, b)] + r)) == Payload(unacked + (u + [a, b] + r))
  {
    var q := unacked + (u + [a, b] + r);
    var m := unacked + (u + [Merged(a, b)] + r);
    assert q == unacked + u + [a, b] + r && m == unacked + u + [Merged(a, b)] + r;
    MergeKeeps(unacked + u, a, b, r, Start(q, lastack));
    if unacked + u != [] {
      assert q[0] == (unacked + u)[0] == m[0];
    }
  }

  // ----- acknowledgements -----

  /** The end of a segment has been reached by ackno, as the code decides it. */
  predicate Covered(s: Segment, ackno: Seq) {
    SeqLeq(Add(s.seqno, TcpLen(s)), ackno)
  }

  /** Drop covered segments from the front. */
  function DropCovered(q: seq<Segment>, ackno: Seq): seq<Segment> {
    if q != [] && Covered(q[0], ackno) then DropCovered(q[1..], ackno) else q
  }

  /** In a queue that starts at `start`, an ackno x ahead drops exactly the segments that end
      by then, and stops inside the first one that remains. */
  lemma {:induction false} DropExact(q: seq<Segment>, start: Seq, x: nat)
    requires Contig(q, start) && Clen(q) <= TCP_SND_QUEUELEN && x <= Sum(q)
    ensures var r := DropCovered(q, Add(start, x));
      && Sum(r) <= Sum(q) && Clen(r) <= Clen(q) && Sum(q) - Sum(r) <= x
      && Contig(r, Add(start, Sum(q) - Sum(r)))
      && (r != [] ==> x < Sum(q) - Sum(r) + TcpLen(r[0]))
  {
    hide Add, SeqLeq, SegmentOk, TcpLen;
    AddZero(start);
    if q != [] {
      SumBound(q, start);
      Compare(start, TcpLen(q[0]), x);
      if TcpLen(q[0]) <= x {
        var t := TcpLen(q[0]);
        AddAdd(start, t, x - t);
        DropExact(q[1..], Add(start, t), x - t);
        AddAdd(start, t, Sum(q[1..]) - Sum(DropCovered(q[1..], Add(start, x))));
      }
    }
  }

  lemma {:induction false} DropConcat(q: seq<Segment>, r: seq<Segment>, ackno: Seq)
    ensures DropCovered(q + r, ackno) ==
            if DropCovered(q, ackno) == [] then DropCovered(r, ackno) else DropCovered(q, ackno) + r
  {
    hide Covered;
    if q == [] {
      assert q + r == r;
    } else {
      assert (q + r)[0] == q[0] && (q + r)[1..] == q[1..] + r;
      if Covered(q[0], ackno) {
        DropConcat(q[1..], r, ackno);
      }
    }
  }

  /** What is dropped is a front part. */
  lemma {:induction false} DropIsSuffix(q: seq<Segment>, ackno: Seq) returns (k: nat)
    ensures k <= |q| && DropCovered(q, ackno) == q[k..]
    ensures q != [] && Covered(q[0], ackno) ==> k > 0
  {
    hide Covered;
    k := 0;
    if q != [] && Covered(q[0], ackno) {
      var j := DropIsSuffix(q[1..], ackno);
      k := j + 1;
    }
  }

  /** The three comparisons of an ACK, by position: e and s are near, x is anywhere. */
  lemma CompareFar(a: Seq, e: nat, x: nat)
    requires e < HALF && x < M
    ensures SeqLeq(Add(a, e), Add(a, x)) <==> e <= x <= e + HALF
    ensures SeqLt(Add(a, e), Add(a, x)) <==> e < x <= e + HALF
    ensures SeqLeq(Add(a, x), Add(a, e)) <==> x <= e || x >= e + HALF
    ensures Fwd(Add(a, e), Add(a, x)) == if x >= e then x - e else x - e + M
  {
    hide Add, Fwd;
    FwdBetween(a, e, x);
    FwdBetween(a, x, e);
  }

  lemma FwdBetween(a: Seq, e: nat, x: nat)
    requires e < M && x < M
    ensures Fwd(Add(a, e), Add(a, x)) == if x >= e then x - e else x - e + M
  {
  }

  /** The ACK acknowledges new data, as the code decides it. */
  predicate AckNew(lastack: Seq, max: Seq, ackno: Seq) {
    lastack != ackno && SeqLt(lastack, ackno) && SeqLeq(ackno, max)
  }

  function UnackedAfter(unacked: seq<Segment>, lastack: Seq, max: Seq, ackno: Seq): seq<Segment> {
    if AckNew(lastack, max, ackno) then DropCovered(unacked, ackno) else unacked
  }

  function UnsentAfter(unsent: seq<Segment>, max: Seq, ackno: Seq): seq<Segment> {
    if SeqLeq(ackno, max) then DropCovered(unsent, ackno) else unsent
  }

  function LastackAfter(lastack: Seq, max: Seq, ackno: Seq): Seq {
    if AckNew(lastack, max, ackno) then ackno else lastack
  }

  /** Acknowledgement numbers half the sequence space away that the signed comparisons take
      for old and new at once: either for lastack, or for a segment that was never sent. */
  predicate Ambiguous(unsent: seq<Segment>, lastack: Seq, max: Seq, ackno: Seq) {
    || (lastack == max && ackno == Add(lastack, HALF))
    || (unsent != [] && var e := Add(unsent[0].seqno, TcpLen(unsent[0]));
                        SeqLeq(max, e) && HALF <= Fwd(max, ackno) <= HALF + Fwd(max, e))
  }

  /** Positions of everything an ACK compares, counted from the start of the queue. */
  ghost predicate At(unacked: seq<Segment>, unsent: seq<Segment>, lastack: Seq, max: Seq, ackno: Seq,
                     start: Seq, A: nat, S: nat, x: nat) {
    && start == Start(unacked + unsent, lastack)
    && lastack == Add(start, A) && max == Add(start, S) && ackno == Add(start, x) && x < M
    && A <= S <= Sum(unacked + unsent) && Sum(unacked) <= S
    && (unacked + unsent != [] ==> A < TcpLen((unacked + unsent)[0]))
    && Sum(unacked + unsent) <= 0x100000
  }

  lemma Positions(unacked: seq<Segment>, unsent: seq<Segment>, lastack: Seq, lbb: Seq, max: Seq, ackno: Seq)
    returns (start: Seq, A: nat, S: nat, x: nat)
    requires QueueOk(unacked, unsent, lastack, lbb, max)
    ensures At(unacked, unsent, lastack, max, ackno, start, A, S, x)
  {
    hide Add, Fwd, Contig;
    start := Start(unacked + unsent, lastack);
    A, S, x := Fwd(start, lastack), Fwd(start, max), Fwd(start, ackno);
    FwdAdd(start, 0, lastack);
    FwdAdd(start, 0, max);
    FwdAdd(start, 0, ackno);
    SumBound(unacked + unsent, start);
  }

  /** The decisions of an ACK, by position. */
  lemma Decisions(unacked: seq<Segment>, unsent: seq<Segment>, lastack: Seq, lbb: Seq, max: Seq, ackno: Seq,
                  start: Seq, A: nat, S: nat, x: nat)
    requires QueueOk(unacked, unsent, lastack, lbb, max) && At(unacked, unsent, lastack, max, ackno, start, A, S, x)
    ensures AckNew(lastack, max, ackno) <==> A < x <= S || (A == S && x == A + HALF)
    ensures SeqLeq(ackno, max) <==> x <= S || x >= S + HALF
    ensures unsent != [] ==> var E := Sum(unacked) + TcpLen(unsent[0]);
      && A < E <= 0x100000
      && (Covered(unsent[0], ackno) <==> E <= x <= E + HALF)
      && (Ambiguous(unsent, lastack, max, ackno) <==> (A == S && x == A + HALF) || (S <= E && S + HALF <= x <= E + HALF))
    ensures unsent == [] ==> (Ambiguous(unsent, lastack, max, ackno) <==> (A == S && x == A + HALF))
  {
    hide Add, Fwd, SeqLt, SeqLeq, Contig;
    CompareFar(start, A, x);
    CompareFar(start, S, x);
    AddAdd(start, A, HALF);
    FwdAdd(start, A + HALF, ackno);
    FwdAdd(start, x, ackno);
    FwdAdd(start, A, lastack);
    FwdAdd(start, S, max);
    if unsent != [] {
      var E := Sum(unacked) + TcpLen(unsent[0]);
      FrontOfUnsent(unacked, unsent, start);
      Concat(unacked, unsent, start);
      FirstOfBoth(unacked, unsent, start);
      CompareFar(start, E, x);
      CompareFar(start, S, E);
    }
  }

  /** The first unsent segment ends behind the first segment of all. */
  lemma FirstOfBoth(unacked: seq<Segment>, unsent: seq<Segment>, start: Seq)
    requires Contig(unacked + unsent, start) && unsent != []
    ensures TcpLen((unacked + unsent)[0]) <= Sum(unacked) + TcpLen(unsent[0]) <= Sum(unacked) + Sum(unsent)
  {
  }

  /** An acceptable ACK: position x in (A, S]. */
  lemma AckAdvances(unacked: seq<Segment>, unsent: seq<Segment>, lastack: Seq, lbb: Seq, max: Seq, ackno: Seq,
                    start: Seq, A: nat, S: nat, x: nat)
    requires QueueOk(unacked, unsent, lastack, lbb, max) && At(unacked, unsent, lastack, max, ackno, start, A, S, x)
    requires A < x <= S
    ensures DropCovered(unacked, ackno) + DropCovered(unsent, ackno) == DropCovered(unacked + unsent, ackno)
    ensures DropCovered(unacked, ackno) == [] || DropCovered(unsent, ackno) == unsent
    ensures QueueOk(DropCovered(unacked, ackno), DropCovered(unsent, ackno), ackno, lbb, max)
  {
    hide Add, Fwd, SeqLt, SeqLeq, Contig, Covered, DropCovered, TcpLen;
    var q := unacked + unsent;
    DropsTogether(unacked, unsent, lastack, lbb, max, ackno, start, A, S, x);
    DropExact(q, start, x);
    DropsApart(unacked, unsent, start, x);
    var q' := DropCovered(q, ackno);
    var d := Sum(q) - Sum(q');
    Shift(start, d, x, S, Sum(q));
    FirstIsOk(q', Add(start, d));
  }

  lemma DropsTogether(unacked: seq<Segment>, unsent: seq<Segment>, lastack: Seq, lbb: Seq, max: Seq, ackno: Seq,
                      start: Seq, A: nat, S: nat, x: nat)
    requires QueueOk(unacked, unsent, lastack, lbb, max) && At(unacked, unsent, lastack, max, ackno, start, A, S, x)
    requires A < x <= S
    ensures DropCovered(unacked, ackno) + DropCovered(unsent, ackno) == DropCovered(unacked + unsent, ackno)
    ensures DropCovered(unacked, ackno) == [] || DropCovered(unsent, ackno) == unsent
  {
    hide Add, Fwd, SeqLt, SeqLeq, Contig, Covered;
    Decisions(unacked, unsent, lastack, lbb, max, ackno, start, A, S, x);
    DropConcat(unacked, unsent, ackno);
    DropsApart(unacked, unsent, start, x);
  }

  /** Counting from d further on. */
  lemma Shift(start: Seq, d: nat, x: nat, S: nat, L: nat)
    requires d <= x <= S <= L < HALF
    ensures Fwd(Add(start, d), Add(start, x)) == x - d && Fwd(Add(start, d), Add(start, S)) == S - d
    ensures Add(Add(start, d), L - d) == Add(start, L)
    ensures Fwd(Add(start, x), Add(start, x)) == 0
  {
    hide Add, Fwd;
    FwdBetween(start, d, x);
    FwdBetween(start, d, S);
    FwdBetween(start, x, x);
    AddAdd(start, d, L - d);
  }

  /** How much of the dropped part came from unacked. */
  lemma DropsApart(unacked: seq<Segment>, unsent: seq<Segment>, start: Seq, x: nat)
    requires Contig(unacked + unsent, start) && Clen(unacked + unsent) <= TCP_SND_QUEUELEN
    requires x <= Sum(unacked + unsent)
    ensures var ackno := Add(start, x);
      var rest := Sum(unacked + unsent) - Sum(DropCovered(unacked + unsent, ackno));
      && (x < Sum(unacked) ==> DropCovered(unacked, ackno) != [] && Sum(DropCovered(unacked, ackno)) == Sum(unacked) - rest)
      && (x >= Sum(unacked) ==> DropCovered(unacked, ackno) == [])
  {
    hide Add, Covered;
    var ackno := Add(start, x);
    Concat(unacked, unsent, start);
    DropConcat(unacked, unsent, ackno);
    if x < Sum(unacked) {
      DropExact(unacked, start, x);
      ConcatSums(DropCovered(unacked, ackno), unsent);
    } else {
      SumBound(unacked + unsent, start);
      DropAll(unacked, start, x);
    }
  }

  lemma {:induction false} DropAll(q: seq<Segment>, start: Seq, x: nat)
    requires Contig(q, start) && Sum(q) <= x < HALF
    ensures DropCovered(q, Add(start, x)) == []
  {
    hide Add, SeqLeq, SegmentOk, TcpLen;
    if q != [] {
      var t := TcpLen(q[0]);
      Compare(start, t, x);
      AddAdd(start, t, x - t);
      DropAll(q[1..], Add(start, t), x - t);
    }
  }

  /** What the invariant says about distances. */
  lemma Span(unacked: seq<Segment>, unsent: seq<Segment>, lastack: Seq, lbb: Seq, max: Seq)
    requires QueueOk(unacked, unsent, lastack, lbb, max)
    ensures var q := unacked + unsent;
      && Fwd(Start(q, lastack), lbb) == Sum(q) <= 0x100000 && Fwd(lastack, max) <= 0x100000
      && Fwd(lastack, lbb) <= Sum(q) && (q != [] ==> Sum(q) - TcpLen(q[0]) < Fwd(lastack, lbb))
  {
    hide Add, Fwd, Contig;
    var q := unacked + unsent;
    var start := Start(q, lastack);
    SumBound(q, start);
    var A, S := Fwd(start, lastack), Fwd(start, max);
    FwdAdd(start, Sum(q), lastack);
    FwdAdd(start, Sum(q), max);
    CompareFar(start, A, S);
    CompareFar(start, A, Sum(q));
  }

  lemma HalfAway(a: Seq)
    ensures Fwd(Add(a, HALF), a) == HALF
  {
  }

  lemma FarAck(unacked: seq<Segment>, unsent: seq<Segment>, max: Seq, lbb: Seq, ackno: Seq)
    requires ackno == Add(max, HALF)
    ensures !QueueOk(unacked, unsent, ackno, lbb, max)
  {
    hide QueueOk, Add;
    if QueueOk(unacked, unsent, ackno, lbb, max) {
      Span(unacked, unsent, ackno, lbb, max);
      HalfAway(max);
    }
  }

  lemma LostSegment(unacked: seq<Segment>, unsent: seq<Segment>, k: nat, lastack: Seq, lbb: Seq, max: Seq)
    requires QueueOk(unacked, unsent, lastack, lbb, max) && 0 < k <= |unsent|
    ensures !QueueOk(unacked, unsent[k..], lastack, lbb, max)
  {
    hide Add, Fwd, Contig, QueueOk, TcpLen;
    Span(unacked, unsent, lastack, lbb, max);
    ConcatSums(unacked, unsent);
    ConcatSums(unacked, unsent[k..]);
    assert unsent == unsent[..k] + unsent[k..] && unsent[..k][0] == unsent[0];
    ConcatSums(unsent[..k], unsent[k..]);
    FirstUnsentLen(unacked, unsent, lastack, lbb, max);
    assert unacked == [] ==> unacked + unsent == unsent;
    assert unacked != [] ==> (unacked + unsent)[0] == unacked[0] == (unacked + unsent[k..])[0];
    if QueueOk(unacked, unsent[k..], lastack, lbb, max) {
      Span(unacked, unsent[k..], lastack, lbb, max);
    }
  }

  lemma FirstUnsentLen(unacked: seq<Segment>, unsent: seq<Segment>, lastack: Seq, lbb: Seq, max: Seq)
    requires QueueOk(unacked, unsent, lastack, lbb, max) && unsent != []
    ensures TcpLen(unsent[0]) > 0
  {
    FrontOfUnsent(unacked, unsent, Start(unacked + unsent, lastack));
  }

  /** Processing an ACK keeps the queue invariant exactly when ackno is not ambiguous. */
  lemma AckKeeps(unacked: seq<Segment>, unsent: seq<Segment>, lastack: Seq, lbb: Seq, max: Seq, ackno: Seq)
    requires QueueOk(unacked, unsent, lastack, lbb, max)
    ensures !Ambiguous(unsent, lastack, max, ackno) <==>
            QueueOk(UnackedAfter(unacked, lastack, max, ackno), UnsentAfter(unsent, max, ackno),
                    LastackAfter(lastack, max, ackno), lbb, max)
    ensures !Ambiguous(unsent, lastack, max, ackno) ==>
              UnackedAfter(unacked, lastack, max, ackno) + UnsentAfter(unsent, max, ackno) ==
              if AckNew(lastack, max, ackno) then DropCovered(unacked + unsent, ackno) else unacked + unsent
    ensures !Ambiguous(unsent, lastack, max, ackno) ==>
              UnackedAfter(unacked, lastack, max, ackno) == [] || UnsentAfter(unsent, max, ackno) == unsent
  {
    hide Add, Fwd, SeqLt, SeqLeq, Contig, Covered, Ambiguous, QueueOk, AckNew;
    var start, A, S, x := Positions(unacked, unsent, lastack, lbb, max, ackno);
    Decisions(unacked, unsent, lastack, lbb, max, ackno, start, A, S, x);
    if A < x <= S {
      AckAdvances(unacked, unsent, lastack, lbb, max, ackno, start, A, S, x);
    } else if Ambiguous(unsent, lastack, max, ackno) {
      AckBreaks(unacked, unsent, lastack, lbb, max, ackno, start, A, S, x);
    }
  }

  lemma AckBreaks(unacked: seq<Segment>, unsent: seq<Segment>, lastack: Seq, lbb: Seq, max: Seq, ackno: Seq,
                  start: Seq, A: nat, S: nat, x: nat)
    requires QueueOk(unacked, unsent, lastack, lbb, max) && At(unacked, unsent, lastack, max, ackno, start, A, S, x)
    requires Ambiguous(unsent, lastack, max, ackno)
    ensures !QueueOk(UnackedAfter(unacked, lastack, max, ackno), UnsentAfter(unsent, max, ackno),
                     LastackAfter(lastack, max, ackno), lbb, max)
  {
    hide Add, Fwd, SeqLt, SeqLeq, Contig, Covered, Ambiguous, AckNew;
    Decisions(unacked, unsent, lastack, lbb, max, ackno, start, A, S, x);
    AddAdd(start, S, HALF);
    if A == S && x == A + HALF {
      FarAck(DropCovered(unacked, ackno), UnsentAfter(unsent, max, ackno), max, lbb, ackno);
    } else {
      var k := DropIsSuffix(unsent, ackno);
      LostSegment(unacked, unsent, k, lastack, lbb, max);
    }
  }

  /** An idle connection with three unsent bytes loses them to an acknowledgement number half
      the sequence space away, which the comparison takes for one that has passed them. */
  lemma AmbiguousLosesData() returns (seg: Segment, ackno: Seq)
    ensures QueueOk([], [seg], seg.seqno, Add(seg.seqno, 3), seg.seqno) && |seg.data| == 3
    ensures Ambiguous([seg], seg.seqno, seg.seqno, ackno) && UnsentAfter([seg], seg.seqno, ackno) == []
    ensures !AckNew(seg.seqno, seg.seqno, ackno)
  {
    seg := Segment(100, [1, 2, 3], false, false, 1);
    ackno := 100 + HALF + 1;
    assert [] + [seg] == [seg] && [seg][1..] == [];
    assert Covered(seg, ackno);
    assert DropCovered([seg], ackno) == DropCovered([], ackno);
  }
}
