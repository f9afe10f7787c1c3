/** The sending half of a connection: tcp_enqueue, tcp_output, tcp_rexmit and the ACK half
    of tcp_receive (iop/SMSTCPIP/tcp_out.c, tcp_in.c). */
module TcpSender {
  import opened Arith
  import opened Bytes
  import opened TcpQueue

  const TCP_MSS := 1460
  const TCP_SND_BUF := 5840

  /** Length of the next segment. With TF_EVENSEG the last odd segment is halved. */
  function SegmentLength(left: nat, mss: nat, even: bool, count: nat): (r: nat)
    requires mss > 0
    ensures r <= left && r <= mss && (left > 0 ==> r > 0)
  {
    if left > mss then mss
    else if even && count % 2 == 1 then (left + 1) / 2
    else left
  }

  /** The last 1 to mss bytes of a write are sent in two halves: with TF_EVENSEG, when an even number
      of full segments comes before them. */
  predicate Halved(len: nat, mss: nat, even: bool)
    requires len > 0 && mss > 0
  {
    even && (len - 1) / mss % 2 == 0
  }

  /** Segments a call of tcp_enqueue makes for len bytes; a control call makes one. */
  function SegmentCount(len: nat, mss: nat, even: bool): (n: nat)
    requires mss > 0
  {
    if len == 0 then 1 else (len - 1) / mss + 1 + if Halved(len, mss, even) && (len - 1) % mss > 0 then 1 else 0
  }

  /** Bytes of the i-th of them: full ones, then the last 1 to mss bytes, in one or two. */
  function LengthAt(len: nat, mss: nat, even: bool, i: nat): nat
    requires mss > 0
  {
    if len == 0 then 0
    else
      var last := (len - 1) % mss + 1;
      if i < (len - 1) / mss then mss
      else if !Halved(len, mss, even) then last
      else if i == (len - 1) / mss then (last + 1) / 2
      else last / 2
  }

  /** Bytes left after n segments. */
  function LeftAfter(len: nat, mss: nat, even: bool, n: nat): int
    requires len > 0 && mss > 0
  {
    if n <= (len - 1) / mss then len - n * mss
    else if n == (len - 1) / mss + 1 && Halved(len, mss, even) then ((len - 1) % mss + 1) / 2
    else 0
  }

  /** The loop of tcp_enqueue cuts like that. */
  lemma NextCut(len: nat, mss: nat, even: bool, n: nat)
    requires len > 0 && mss > 0
    ensures LeftAfter(len, mss, even, n) > 0 <==> n < SegmentCount(len, mss, even)
    ensures LeftAfter(len, mss, even, n) >= 0 && (n == 0 ==> LeftAfter(len, mss, even, n) == len)
    ensures n < SegmentCount(len, mss, even) ==>
              && SegmentLength(LeftAfter(len, mss, even, n), mss, even, n + 1) == LengthAt(len, mss, even, n)
              && LeftAfter(len, mss, even, n + 1) == LeftAfter(len, mss, even, n) - LengthAt(len, mss, even, n)
  {
    if n <= (len - 1) / mss {
      FullCut(len, mss, n);
    }
    CutsAdd(len, mss, even, n, (len - 1) / mss, (len - 1) % mss + 1, len - n * mss, len - (n + 1) * mss);
  }

  /** More than mss bytes are left while full segments follow. */
  lemma FullCut(len: nat, mss: nat, n: nat)
    requires len > 0 && mss > 0 && n <= (len - 1) / mss
    ensures n < (len - 1) / mss ==> len - n * mss > mss
    ensures n == (len - 1) / mss ==> len - n * mss == (len - 1) % mss + 1
    ensures len - (n + 1) * mss == len - n * mss - mss
  {
    var q := (len - 1) / mss;
    assert len - 1 == q * mss + (len - 1) % mss;
    if n < q {
      StretchesApart(n, q, mss);
    }
    assert (n + 1) * mss == n * mss + mss;
  }

  lemma CutsAdd(len: nat, mss: nat, even: bool, n: nat, q: nat, r: nat, left: int, next: int)
    requires len > 0 && mss > 0 && q == (len - 1) / mss && r == (len - 1) % mss + 1
    requires left == len - n * mss && next == len - (n + 1) * mss
    requires n <= q ==> next == left - mss
    requires (n < q ==> left > mss) && (n == q ==> left == r)
    ensures LeftAfter(len, mss, even, n) > 0 <==> n < SegmentCount(len, mss, even)
    ensures LeftAfter(len, mss, even, n) >= 0 && (n == 0 ==> LeftAfter(len, mss, even, n) == len)
    ensures n < SegmentCount(len, mss, even) ==>
              && SegmentLength(LeftAfter(len, mss, even, n), mss, even, n + 1) == LengthAt(len, mss, even, n)
              && LeftAfter(len, mss, even, n + 1) == LeftAfter(len, mss, even, n) - LengthAt(len, mss, even, n)
  {
    assert LeftAfter(len, mss, even, n) == if n <= q then left else if n == q + 1 && Halved(len, mss, even) then r / 2 else 0;
    assert LeftAfter(len, mss, even, n + 1) == if n < q then next else if n == q && Halved(len, mss, even) then r / 2 else 0;
  }

  /** Without TF_EVENSEG these are the fewest segments that hold the bytes: a write of 1 to mss bytes
      is one. */
  lemma FewestSegments(len: nat, mss: nat)
    requires len > 0 && mss > 0
    ensures SegmentCount(len, mss, false) == (len + mss - 1) / mss
    ensures (SegmentCount(len, mss, false) - 1) * mss < len <= SegmentCount(len, mss, false) * mss
    ensures len <= mss ==> SegmentCount(len, mss, false) == 1 && LengthAt(len, mss, false, 0) == len
    ensures forall i :: 0 <= i < SegmentCount(len, mss, false) - 1 ==> LengthAt(len, mss, false, i) == mss
  {
    var q, r := (len - 1) / mss, (len - 1) % mss;
    assert len - 1 == q * mss + r;
    assert (q + 1) * mss == q * mss + mss;
    DivModOf(q + 1, r, mss);
    if len <= mss {
      DivModOf(0, len - 1, mss);
    }
  }

  /** The first new segment joins the last unsent one: neither is a SYN or FIN, and both fit mss. */
  predicate Joins(unsent: seq<Segment>, syn: bool, fin: bool, first: nat, mss: nat) {
    && unsent != [] && !syn && !fin
    && var last := unsent[|unsent| - 1];
    && last.data != [] && !last.syn && !last.fin && |last.data| + first <= mss
  }

  /** The unsent queue after a write of len bytes: how many segments there are, and how long. */
  ghost predicate CutUp(was: seq<Segment>, now: seq<Segment>, len: nat, mss: nat, even: bool)
    requires mss > 0
  {
    var n := SegmentCount(len, mss, even);
    var joins := Joins(was, false, false, LengthAt(len, mss, even, 0), mss);
    var at := if joins then |was| - 1 else |was|;
    && n >= 1 && |now| == at + n && now[..at] == was[..at]
    && |now[at].data| == LengthAt(len, mss, even, 0) + (if joins then |was[at].data| else 0)
    && (forall i :: at < i < at + n ==> |now[i].data| == LengthAt(len, mss, even, i - at))
  }

  /** The sending half at one moment. */
  datatype Moment = Moment(lastack: Seq, sndLbb: Seq, sndMax: Seq, sndBuf: nat, sndQueuelen: nat, mss: nat, evenseg: bool,
                           unacked: seq<Segment>, unsent: seq<Segment>, stream: seq<Byte>, gone: seq<Byte>)
  {
    /** The queues are in order and counted, and hold exactly the accepted bytes that have
        not been given up. */
    ghost predicate Good() {
      && QueueOk(unacked, unsent, lastack, sndLbb, sndMax)
      && sndQueuelen == Clen(unacked + unsent)
      && 0 < mss <= 0xFFFF && sndBuf <= 0xFFFF
      && gone + Payload(unacked + unsent) == stream
    }

    /** Buffer space plus sequence numbers in flight, modulo 16 bits. */
    function Budget(): nat {
      (sndBuf + Fwd(lastack, sndLbb)) % 0x10000
    }

    /** A write fits: there is buffer space, and room for its segments on the queue. */
    predicate Fits(len: nat, per: nat)
      requires mss > 0
    {
      len <= sndBuf && sndQueuelen < TCP_SND_QUEUELEN && sndQueuelen + per * SegmentCount(len, mss, evenseg) <= TCP_SND_QUEUELEN
    }
  }

  lemma JoinsLast(was: seq<Segment>, first: nat, mss: nat)
    ensures Joins(was, false, false, first, mss) ==> was != []
  {
  }

  /** A write of 1 to mss bytes that fits the buffer is accepted on an idle connection, as one segment. */
  lemma OneSegmentFits(m: Moment, len: nat, per: nat)
    requires m.mss > 0 && !m.evenseg && m.sndQueuelen == 0 && 1 <= len <= m.mss && len <= m.sndBuf && per <= 2
    ensures m.Fits(len, per) && SegmentCount(len, m.mss, m.evenseg) == 1
  {
    FewestSegments(len, m.mss);
  }

  lemma CutUpIs(was: seq<Segment>, queue: seq<Segment>, now: seq<Segment>, len: nat, mss: nat, even: bool)
    requires mss > 0 && queue != [] && |queue| == SegmentCount(len, mss, even)
    requires forall i :: 0 <= i < |queue| ==> |queue[i].data| == LengthAt(len, mss, even, i)
    requires now == if Joins(was, false, false, |queue[0].data|, mss)
                    then was[..|was| - 1] + [Merged(was[|was| - 1], queue[0])] + queue[1..] else was + queue
    ensures CutUp(was, now, len, mss, even)
  {
    hide SegmentCount, LengthAt, Joins;
    JoinsLast(was, |queue[0].data|, mss);
    if Joins(was, false, false, |queue[0].data|, mss) {
      var n := |was| - 1;
      Behind(was[..n], Merged(was[n], queue[0]), queue, now);
    } else {
      assert was + queue == was + [queue[0]] + queue[1..] && was[..|was|] == was;
      Behind(was, queue[0], queue, now);
    }
  }

  lemma Behind(a: seq<Segment>, s: Segment, q: seq<Segment>, now: seq<Segment>)
    requires q != [] && now == a + [s] + q[1..]
    ensures |now| == |a| + |q| && now[..|a|] == a && now[|a|] == s && forall i :: |a| < i < |now| ==> now[i] == q[i - |a|]
  {
  }

  lemma ControlCount(mss: nat, even: bool)
    requires mss > 0
    ensures SegmentCount(0, mss, even) == 1 && LengthAt(0, mss, even, 0) == 0 && SegmentLength(0, mss, even, 1) == 0
  {
  }

  class Sender {
    var lastack: Seq
    var sndLbb: Seq
    var sndMax: Seq
    var sndNxt: Seq
    var sndBuf: nat
    var sndQueuelen: nat
    var mss: nat
    var evenseg: bool
    var unacked: seq<Segment>
    var unsent: seq<Segment>

    /** Every byte accepted so far, and the bytes of the segments given up again. */
    ghost var stream: seq<Byte>
    ghost var gone: seq<Byte>

    ghost function Now(): Moment
      reads this
    {
      Moment(lastack, sndLbb, sndMax, sndBuf, sndQueuelen, mss, evenseg, unacked, unsent, stream, gone)
    }

    ghost predicate Valid()
      reads this
    {
      ValidFor(sndMax)
    }

    /** Valid, but for a stale sndMax that should be max. */
    ghost predicate ValidFor(max: Seq)
      reads this
    {
      && QueueOk(unacked, unsent, lastack, sndLbb, max)
      && sndQueuelen == Clen(unacked + unsent)
      && 0 < mss <= 0xFFFF && sndBuf <= 0xFFFF
      && gone + Payload(unacked + unsent) == stream
    }

    ghost function Budget(): nat
      reads this
    {
      (sndBuf + Fwd(lastack, sndLbb)) % 0x10000
    }

    /** tcp_alloc: an idle connection. */
    constructor (iss: Seq, mss0: nat)
      requires 0 < mss0 <= 0xFFFF
      ensures Valid() && Budget() == TCP_SND_BUF && unacked == unsent == [] && stream == [] && lastack == iss
    {
      lastack, sndLbb, sndMax, sndNxt := iss, iss, iss, iss;
      sndBuf, sndQueuelen, mss, evenseg := TCP_SND_BUF, 0, mss0, false;
      unacked, unsent, stream, gone := [], [], [], [];
    }

    /** The segment loop of tcp_enqueue. The k-th resource request succeeds when avail(k). */
    method Build(data: seq<Byte>, syn: bool, fin: bool, copy: bool, opt: bool, avail: nat -> bool, ghost max: Seq)
      returns (ok: bool, queue: seq<Segment>, queuelen: nat)
      requires ValidFor(max) && |data| <= 0xFFFF && (data == [] <==> syn || fin) && (data == [] ==> copy || opt)
      requires sndQueuelen < TCP_SND_QUEUELEN
      ensures ok ==> queue != [] && Contig(queue, sndLbb) && Payload(queue) == data
      ensures ok ==> Sum(queue) == |data| + if syn || fin then 1 else 0
      ensures ok ==> queuelen == sndQueuelen + Clen(queue) <= TCP_SND_QUEUELEN
      ensures ok ==> queue[0].syn == syn && queue[0].fin == fin && |queue[0].data| <= mss
      ensures ok && data == [] ==> queue == [Segment(sndLbb, [], syn, fin, 1)]
      ensures (forall k :: avail(k)) ==>
                (ok <==> sndQueuelen + (if copy || opt then 1 else 2) * SegmentCount(|data|, mss, evenseg) <= TCP_SND_QUEUELEN)
      ensures ok ==> |queue| == SegmentCount(|data|, mss, evenseg)
      ensures ok ==> forall i :: 0 <= i < |queue| ==> |queue[i].data| == LengthAt(|data|, mss, evenseg, i)
    {
      hide Add, QueueOk, Built, SegmentLength, SegmentCount, LengthAt, LeftAfter, Contig, Payload, Sum, Clen, SegmentOk, TcpLen;
      ControlCount(mss, evenseg);
      ok, queue, queuelen := false, [], sndQueuelen;
      var left: nat, seqno, requests, count := |data|, sndLbb, 0, 0;
      var per := if copy || opt then 1 else 2;
      BuiltNothing(sndLbb, data, syn, fin, per);
      if data != [] {
        NextCut(|data|, mss, evenseg, 0);
      }
      while queue == [] || left > 0
        invariant left <= |data| && seqno == Add(sndLbb, |data| - left) && count == |queue|
        invariant Built(queue, sndLbb, data[..|data| - left], syn, fin, per)
        invariant queuelen == sndQueuelen + per * count <= TCP_SND_QUEUELEN
        invariant queue == [] ==> left == |data|
        invariant queue != [] ==> |queue[0].data| <= mss
        invariant forall i :: 0 <= i < |queue| ==> |queue[i].data| == LengthAt(|data|, mss, evenseg, i)
        invariant count <= SegmentCount(|data|, mss, evenseg)
        invariant data != [] ==> left == LeftAfter(|data|, mss, evenseg, count)
        decreases left, if queue == [] then 1 else 0
      {
        if data != [] {
          NextCut(|data|, mss, evenseg, count);
          NextCut(|data|, mss, evenseg, count + 1);
        }
        count := count + 1;
        var seglen := SegmentLength(left, mss, evenseg, count);
        if !avail(requests) || !avail(requests + 1) || (per == 2 && !avail(requests + 2)) {
          return;
        }
        requests := requests + per + 1;
        queuelen := queuelen + per;
        if queuelen > TCP_SND_QUEUELEN {
          return;
        }
        var at := |data| - left;
        var seg := Segment(seqno, data[at..at + seglen], syn, fin, per);
        BuiltStep(queue, data, at, seglen, sndLbb, seqno, syn, fin, per);
        queue := queue + [seg];
        left := left - seglen;
        seqno := Add(seqno, seglen);
      }
      assert data[..|data|] == data;
      BuiltIs(queue, sndLbb, data, syn, fin, per);
      if data == [] {
        ControlIs(queue, sndLbb, syn, fin);
      } else {
        NextCut(|data|, mss, evenseg, count);
      }
      ok := true;
    }

    /** tcp_enqueue: append bytes, or a SYN or FIN, to the unsent queue. A control segment queued
        with no buffer space left wraps the 16-bit count of it. */
    method Enqueue(data: seq<Byte>, syn: bool, fin: bool, copy: bool, opt: bool, avail: nat -> bool, ghost max: Seq)
      returns (ok: bool)
      requires ValidFor(max) && |data| <= 0xFFFF && (data == [] <==> syn || fin) && (data == [] ==> copy || opt)
      modifies this`unsent, this`sndLbb, this`sndBuf, this`sndQueuelen, this`stream
      ensures ValidFor(max) && Budget() == old(Budget())
      ensures !ok ==> unchanged(this)
      ensures ok ==> stream == old(stream) + data && Payload(unacked + unsent) == old(Payload(unacked + unsent)) + data
      ensures ok && data == [] ==> unsent == old(unsent) + [Segment(old(sndLbb), [], syn, fin, 1)]
      ensures ok && data != [] ==> CutUp(old(unsent), unsent, |data|, mss, evenseg)
      ensures ok ==> sndLbb == Add(old(sndLbb), |data| + if syn || fin then 1 else 0)
      ensures ok ==> sndBuf == if data != [] then old(sndBuf) - |data| else if old(sndBuf) == 0 then 0xFFFF else old(sndBuf) - 1
      ensures (forall k :: avail(k)) ==> (ok <==> old(Now()).Fits(|data|, if copy || opt then 1 else 2))
    {
      hide QueueOk, Contig, Add, Fwd, SegmentOk, Sum, Clen, SegmentLength, SegmentCount, LengthAt, Payload, CutUp, Joins;
      if |data| > sndBuf {
        return false;
      }
      if sndQueuelen >= TCP_SND_QUEUELEN {
        return false;
      }
      var queue, queuelen;
      ok, queue, queuelen := Build(data, syn, fin, copy, opt, avail, max);
      if !ok {
        return;
      }
      var n := |data| + if syn || fin then 1 else 0;
      Spent(lastack, sndLbb, n, sndBuf, unacked, unsent, max);
      ghost var was := unsent;
      unsent := Joined(queue, syn, fin, max);
      if data != [] {
        CutUpIs(was, queue, unsent, |data|, mss, evenseg);
      }
      sndLbb := Add(sndLbb, n);
      sndBuf := (sndBuf - n) % 0x10000;
      sndQueuelen := queuelen;
      stream := stream + data;
    }

    /** The unsent queue with a new run of segments at its end; the first of them joins the last
        segment if there is room in it. */
    method Joined(queue: seq<Segment>, syn: bool, fin: bool, ghost max: Seq) returns (joined: seq<Segment>)
      requires ValidFor(max) && queue != [] && Contig(queue, sndLbb) && queue[0].syn == syn && queue[0].fin == fin
      requires Clen(unacked + unsent) + Clen(queue) <= TCP_SND_QUEUELEN
      ensures QueueOk(unacked, joined, lastack, Add(sndLbb, Sum(queue)), max)
      ensures Clen(unacked + joined) == Clen(unacked + unsent) + Clen(queue)
      ensures Payload(unacked + joined) == Payload(unacked + unsent) + Payload(queue)
      ensures syn || fin ==> joined == unsent + queue
      ensures joined == if Joins(unsent, syn, fin, |queue[0].data|, mss)
                        then unsent[..|unsent| - 1] + [Merged(unsent[|unsent| - 1], queue[0])] + queue[1..]
                        else unsent + queue
    {
      hide QueueOk, Contig, Add, Fwd, SegmentOk, Sum, Clen, Payload, Merged;
      Appended(unacked, unsent, queue, lastack, sndLbb, max);
      if unsent != [] && TcpLen(unsent[|unsent| - 1]) != 0 && !unsent[|unsent| - 1].syn && !unsent[|unsent| - 1].fin
         && !syn && !fin && |unsent[|unsent| - 1].data| + |queue[0].data| <= mss {
        var last := |unsent| - 1;
        assert unsent[..last] + [unsent[last], queue[0]] + queue[1..] == unsent + queue;
        Coalesced(unacked, unsent[..last], unsent[last], queue[0], queue[1..], lastack, Add(sndLbb, Sum(queue)), max);
        joined := unsent[..last] + [Merged(unsent[last], queue[0])] + queue[1..];
      } else {
        joined := unsent + queue;
      }
    }

    /** tcp_output: send from the front of the unsent queue what the window allows. */
    method Output(wnd: nat)
      requires Valid()
      modifies this`unacked, this`unsent, this`sndNxt, this`sndMax
      ensures Valid() && unacked + unsent == old(unacked + unsent) && old(unacked) <= unacked
      ensures Sent(unacked, |old(unacked)|, unsent, lastack, wnd)
      ensures unacked != old(unacked) ==>
                sndNxt == Add(unacked[|unacked| - 1].seqno, TcpLen(unacked[|unacked| - 1]))
    {
      hide QueueOk, Sent;
      ghost var _ := SendWhatFits(wnd, sndMax);
    }

    /** Its loop, on queues that are in order for max. */
    method SendWhatFits(wnd: nat, ghost max0: Seq) returns (ghost max: Seq)
      requires ValidFor(max0)
      modifies this`unacked, this`unsent, this`sndNxt, this`sndMax
      ensures ValidFor(max) && unacked + unsent == old(unacked + unsent) && old(unacked) <= unacked
      ensures Sent(unacked, |old(unacked)|, unsent, lastack, wnd)
      ensures unacked != old(unacked) ==>
                sndNxt == Add(unacked[|unacked| - 1].seqno, TcpLen(unacked[|unacked| - 1]))
      ensures max0 == old(sndMax) ==> max == sndMax
      ensures |unacked| == |old(unacked)| + 1 ==> max == Later(max0, sndNxt) && sndMax == Later(old(sndMax), sndNxt)
    {
      hide QueueOk, Add, Fwd, SegmentOk, SeqLt, TcpLen;
      max := max0;
      while unsent != [] && Add(unsent[0].seqno, |unsent[0].data| - lastack) <= wnd
        invariant ValidFor(max) && unacked + unsent == old(unacked + unsent) && old(unacked) <= unacked
        invariant forall i :: |old(unacked)| <= i < |unacked| ==> Add(unacked[i].seqno, |unacked[i].data| - lastack) <= wnd
        invariant unacked != old(unacked) ==>
                    sndNxt == Add(unacked[|unacked| - 1].seqno, TcpLen(unacked[|unacked| - 1]))
        invariant max0 == old(sndMax) ==> max == sndMax
        invariant |unacked| == |old(unacked)| ==> max == max0 && sndMax == old(sndMax)
        invariant |unacked| == |old(unacked)| + 1 ==> max == Later(max0, sndNxt) && sndMax == Later(old(sndMax), sndNxt)
        decreases |unsent|
      {
        SentOne(unacked, unsent, lastack, sndLbb, max);
        var seg := unsent[0];
        assert unacked + unsent == unacked + [seg] + unsent[1..];
        Nonempty(unacked, unsent, lastack, sndLbb, max);
        unsent := unsent[1..];
        sndNxt := Add(seg.seqno, TcpLen(seg));
        if SeqLt(sndMax, sndNxt) {
          sndMax := sndNxt;
        }
        max := Later(max, sndNxt);
        if TcpLen(seg) > 0 {
          unacked := unacked + [seg];
        }
      }
    }

    /** tcp_rexmit: everything unacknowledged goes back to the front of the unsent queue,
        then as much as the window allows is sent again, unless input is being processed. */
    method Rexmit(wnd: nat, inInput: bool)
      requires Valid()
      modifies this`unacked, this`unsent, this`sndNxt, this`sndMax
      ensures Valid() && unacked + unsent == old(unacked + unsent)
      ensures !inInput && old(unacked) != [] ==> Sent(unacked, 0, unsent, lastack, wnd)
      ensures inInput && old(unacked) != [] ==> unacked == [] && sndMax == old(sndMax) && sndNxt == old(unacked[0].seqno)
      ensures old(unacked) == [] ==> unchanged(this)
    {
      hide QueueOk, Add, Fwd, SegmentOk, Sent;
      if unacked == [] {
        return;
      }
      Moved(unacked, unsent, [], unacked + unsent, lastack, sndLbb, sndMax);
      unsent := unacked + unsent;
      unacked := [];
      assert unacked + unsent == old(unacked + unsent);
      sndNxt := unsent[0].seqno;
      if !inInput {
        Output(wnd);
      }
    }

    /** The ACK half of tcp_receive. fast: a third duplicate outside fast retransmit. */
    method ReceiveAck(ackno: Seq, fast: bool)
      requires Valid()
      modifies this
      ensures Valid() <==> !old(Ambiguous(unsent, lastack, sndMax, ackno))
      ensures stream == old(stream) && sndLbb == old(sndLbb) && sndMax == old(sndMax) && mss == old(mss) && evenseg == old(evenseg)
      ensures sndBuf == (old(sndBuf) + Fwd(old(lastack), lastack)) % 0x10000
      ensures old(Fwd(lastack, ackno)) <= old(Fwd(lastack, sndMax)) ==> lastack == ackno
      ensures Valid() && old(Fwd(lastack, ackno)) > old(Fwd(lastack, sndMax)) ==> lastack == old(lastack)
      ensures Valid() ==> Budget() == old(Budget()) && old(gone) <= gone
      ensures Valid() ==> unacked + unsent ==
                          if lastack != old(lastack) then DropCovered(old(unacked + unsent), ackno) else old(unacked + unsent)
    {
      hide QueueOk, Contig, Add, Fwd, SegmentOk, Covered, Ambiguous, SeqLt, SeqLeq, DropCovered, Clen, Payload;
      AckKeeps(unacked, unsent, lastack, sndLbb, sndMax, ackno);
      AckWindow(unacked, unsent, lastack, sndLbb, sndMax, ackno, sndBuf);
      ConcatSums(unacked, unsent);
      Idle(lastack);
      if ackno == lastack {
        SelfAck(unacked, unsent, lastack, sndLbb, sndMax);
      }
      AckUnacked(ackno, fast);
      ghost var s, g := unsent, gone;
      if SeqLeq(ackno, sndMax) {
        DropUnsent(ackno);
      }
      ConcatSums(unacked, unsent);
      if !old(Ambiguous(unsent, lastack, sndMax, ackno)) {
        assert unsent == UnsentAfter(s, sndMax, ackno);
        StillHeld(g, unacked, s, gone, unsent, stream);
      }
    }

    /** What the ACK does to lastack and the unacked queue. */
    method AckUnacked(ackno: Seq, fast: bool)
      requires Valid()
      modifies this
      ensures stream == old(stream) && sndLbb == old(sndLbb) && sndMax == old(sndMax) && mss == old(mss) && evenseg == old(evenseg)
      ensures sndBuf <= 0xFFFF
      ensures lastack == LastackAfter(old(lastack), sndMax, ackno)
      ensures ackno == old(lastack) ==> Valid() && unacked + unsent == old(unacked + unsent) && gone == old(gone)
                                        && sndBuf == old(sndBuf) && UnsentAfter(unsent, sndMax, ackno) == unsent
      ensures ackno != old(lastack) ==> unacked == UnackedAfter(old(unacked), old(lastack), sndMax, ackno) && unsent == old(unsent)
      ensures sndQueuelen == Clen(unacked) + Clen(unsent) && old(gone) <= gone
      ensures gone + Payload(unacked) + Payload(unsent) == stream
      ensures AckNew(old(lastack), sndMax, ackno) ==> sndBuf == (old(sndBuf) + Fwd(old(lastack), ackno)) % 0x10000
      ensures !AckNew(old(lastack), sndMax, ackno) ==> sndBuf == old(sndBuf) && gone == old(gone)
    {
      hide QueueOk, Contig, Add, Fwd, SegmentOk, Covered, SeqLt, SeqLeq, DropCovered, Clen, Payload;
      ConcatSums(unacked, unsent);
      if lastack == ackno {
        if fast && unacked != [] {
          Rexmit(0, true);
        }
        ConcatSums(unacked, unsent);
        SelfAck(unacked, unsent, lastack, sndLbb, sndMax);
      } else if SeqLt(lastack, ackno) && SeqLeq(ackno, sndMax) {
        sndBuf := (sndBuf + Fwd(lastack, ackno)) % 0x10000;
        lastack := ackno;
        DropUnacked(ackno);
      }
    }

    /** The loop that gives up acknowledged segments of the unacked queue. */
    method DropUnacked(ackno: Seq)
      requires Clen(unacked) <= sndQueuelen
      modifies this`unacked, this`sndQueuelen, this`gone
      ensures unacked == DropCovered(old(unacked), ackno)
      ensures sndQueuelen - Clen(unacked) == old(sndQueuelen) - Clen(old(unacked))
      ensures gone + Payload(unacked) == old(gone) + Payload(old(unacked)) && old(gone) <= gone
    {
      hide Covered;
      while unacked != [] && Covered(unacked[0], ackno)
        invariant DropCovered(unacked, ackno) == DropCovered(old(unacked), ackno)
        invariant sndQueuelen - Clen(unacked) == old(sndQueuelen) - Clen(old(unacked)) && Clen(unacked) <= sndQueuelen
        invariant gone + Payload(unacked) == old(gone) + Payload(old(unacked)) && old(gone) <= gone
        decreases |unacked|
      {
        sndQueuelen := sndQueuelen - unacked[0].clen;
        gone := gone + unacked[0].data;
        unacked := unacked[1..];
      }
    }

    /** The loop that gives up acknowledged segments of the unsent queue. */
    method DropUnsent(ackno: Seq)
      requires Clen(unsent) <= sndQueuelen
      modifies this`unsent, this`sndQueuelen, this`sndNxt, this`gone
      ensures unsent == DropCovered(old(unsent), ackno)
      ensures sndQueuelen - Clen(unsent) == old(sndQueuelen) - Clen(old(unsent))
      ensures gone + Payload(unsent) == old(gone) + Payload(old(unsent)) && old(gone) <= gone
      ensures unsent == old(unsent) ==> gone == old(gone)
    {
      hide Covered;
      while unsent != [] && Covered(unsent[0], ackno)
        invariant DropCovered(unsent, ackno) == DropCovered(old(unsent), ackno)
        invariant sndQueuelen - Clen(unsent) == old(sndQueuelen) - Clen(old(unsent)) && Clen(unsent) <= sndQueuelen
        invariant gone + Payload(unsent) == old(gone) + Payload(old(unsent)) && old(gone) <= gone
        invariant |unsent| <= |old(unsent)| && (|unsent| == |old(unsent)| ==> gone == old(gone))
        decreases |unsent|
      {
        var seqno := unsent[0].seqno;
        sndQueuelen := sndQueuelen - unsent[0].clen;
        gone := gone + unsent[0].data;
        unsent := unsent[1..];
        if unsent != [] {
          sndNxt := seqno;
        }
      }
    }

    /** The SYN-SENT step of tcp_process: the SYN is acknowledged. Its sequence number is
        never given back to sndBuf. */
    method SynAcked(ackno: Seq)
      requires Valid() && unacked != [] && unacked[0].syn && ackno == Add(unacked[0].seqno, 1)
      modifies this
      ensures Valid() && unacked == old(unacked[1..]) && unsent == old(unsent) && lastack == ackno
      ensures Budget() == old(Budget() - 1) % 0x10000 && stream == old(stream) && mss == old(mss)
    {
      hide QueueOk, Contig, Add, Fwd;
      SynGone(unacked, unsent, lastack, sndLbb, sndMax, sndBuf);
      ConcatSums(unacked, unsent);
      ConcatSums(unacked[1..], unsent);
      lastack := ackno;
      sndQueuelen := sndQueuelen - 1;
      unacked := unacked[1..];
    }

    /** tcp_connect: fresh sequence numbers, a SYN enqueued and sent. sndMax stays as the block
        was allocated with, and the queues are in order exactly when iss is not more than half
        the sequence space ahead of it. */
    method Connect(iss: Seq, avail: nat -> bool, wnd: nat) returns (ok: bool)
      requires Valid() && unacked == unsent == []
      modifies this
      ensures ok ==> (Valid() <==> Fwd(old(sndMax), iss) <= HALF)
      ensures ok ==> Budget() == old(sndBuf) && |unacked| == 1 && unsent == [] && unacked[0].syn
      ensures ok ==> unacked[0].seqno == lastack == Add(iss, -1) && sndLbb == sndNxt == iss
      ensures ok ==> sndMax == if Fwd(old(sndMax), iss) <= HALF then iss else old(sndMax)
      ensures !ok ==> unacked == unsent == [] && sndMax == old(sndMax)
      ensures (forall k :: avail(k)) ==> ok
    {
      hide QueueOk, Contig, SegmentOk, Fwd, Add, Later, Sent, Clen, Payload, Sum;
      lastack, sndLbb, sndNxt := Add(iss, -1), Add(iss, -1), iss;
      mss := TCP_MSS;
      StaleMax(sndMax, iss);
      Idle(lastack);
      assert unacked + unsent == [];
      gone := stream;
      ok := Enqueue([], true, false, false, true, avail, lastack);
      if ok {
        ghost var s := unsent[0];
        ghost var max := SendWhatFits(wnd, lastack);
        OnlyOne(s, unacked, unsent, lastack, wnd);
        AllSent(unacked, lastack, sndLbb, max, sndMax);
      }
    }
  }

  function Later(max: Seq, nxt: Seq): Seq {
    if SeqLt(max, nxt) then nxt else max
  }

  /** The segments from the n-th on fit the window, and the next unsent one does not. */
  ghost predicate Sent(unacked: seq<Segment>, n: nat, unsent: seq<Segment>, lastack: Seq, wnd: nat) {
    && (unsent == [] || Add(unsent[0].seqno, |unsent[0].data| - lastack) > wnd)
    && (forall i :: n <= i < |unacked| ==> Add(unacked[i].seqno, |unacked[i].data| - lastack) <= wnd)
  }

  /** queue is a fresh run of segments for `data`, each of `per` packet buffers. */
  ghost predicate Built(queue: seq<Segment>, start: Seq, data: seq<Byte>, syn: bool, fin: bool, per: nat) {
    && Contig(queue, start) && Payload(queue) == data && Clen(queue) == per * |queue|
    && Sum(queue) == |data| + (if (syn || fin) && queue != [] then 1 else 0)
    && (queue != [] ==> queue[0].syn == syn && queue[0].fin == fin)
  }

  lemma BuiltNothing(start: Seq, data: seq<Byte>, syn: bool, fin: bool, per: nat)
    ensures Built([], start, data[..0], syn, fin, per) && Add(start, 0) == start
  {
  }

  lemma BuiltMore(q: seq<Segment>, s: Segment, start: Seq, data: seq<Byte>, syn: bool, fin: bool, per: nat)
    requires Built(q, start, data, syn, fin, per) && s.syn == syn && s.fin == fin && s.clen == per
    requires s.seqno == Add(start, |data|) && SegmentOk(s) && (syn || fin ==> q == [])
    ensures Built(q + [s], start, data + s.data, syn, fin, per)
  {
    hide Add, Contig, SegmentOk;
    AppendOne(q, s, start);
  }

  lemma BuiltStep(q: seq<Segment>, data: seq<Byte>, at: nat, n: nat, start: Seq, seqno: Seq, syn: bool, fin: bool, per: nat)
    requires at + n <= |data| <= 0xFFFF && Built(q, start, data[..at], syn, fin, per) && seqno == Add(start, at)
    requires (syn || fin ==> q == [] && per == 1) && (data == [] <==> syn || fin) && (per == 1 || per == 2) && (data != [] ==> n > 0)
    ensures Built(q + [Segment(seqno, data[at..at + n], syn, fin, per)], start, data[..at + n], syn, fin, per)
    ensures Add(seqno, n) == Add(start, at + n)
  {
    hide Built, Add;
    BuiltMore(q, Segment(seqno, data[at..at + n], syn, fin, per), start, data[..at], syn, fin, per);
    AddAdd(start, at, n);
    assert data[..at] + data[at..at + n] == data[..at + n];
  }

  lemma BuiltIs(queue: seq<Segment>, start: Seq, data: seq<Byte>, syn: bool, fin: bool, per: nat)
    requires Built(queue, start, data, syn, fin, per) && queue != []
    ensures Contig(queue, start) && Payload(queue) == data && Clen(queue) == per * |queue|
    ensures Sum(queue) == |data| + if syn || fin then 1 else 0
    ensures queue[0].syn == syn && queue[0].fin == fin
  {
  }

  lemma ControlIs(queue: seq<Segment>, start: Seq, syn: bool, fin: bool)
    requires Built(queue, start, [], syn, fin, 1) && queue != [] && (syn || fin)
    ensures queue == [Segment(start, [], syn, fin, 1)]
  {
    SumBound(queue, start);
  }

  lemma AppendOne(q: seq<Segment>, s: Segment, start: Seq)
    requires Contig(q, start) && s.seqno == Add(start, Sum(q)) && SegmentOk(s)
    ensures Contig(q + [s], start) && Sum(q + [s]) == Sum(q) + TcpLen(s) && Clen(q + [s]) == Clen(q) + s.clen
    ensures Payload(q + [s]) == Payload(q) + s.data
  {
    Concat(q, [s], start);
    assert [s][1..] == [];
  }

  lemma Nonempty(unacked: seq<Segment>, unsent: seq<Segment>, lastack: Seq, lbb: Seq, max: Seq)
    requires QueueOk(unacked, unsent, lastack, lbb, max) && unsent != []
    ensures TcpLen(unsent[0]) > 0
  {
    FirstUnsentLen(unacked, unsent, lastack, lbb, max);
  }

  /** n more sequence numbers in flight cost n bytes of budget. */
  lemma Spent(lastack: Seq, lbb: Seq, n: nat, buf: nat, unacked: seq<Segment>, unsent: seq<Segment>, max: Seq)
    requires QueueOk(unacked, unsent, lastack, lbb, max) && n <= 0x10000 && buf <= 0xFFFF
    ensures ((buf - n) % 0x10000 + Fwd(lastack, Add(lbb, n))) % 0x10000 == (buf + Fwd(lastack, lbb)) % 0x10000
  {
    hide Add, Fwd, QueueOk;
    Span(unacked, unsent, lastack, lbb, max);
    var F := Fwd(lastack, lbb);
    FwdAdd(lastack, F + n, lbb);
    AddAdd(lastack, F, n);
  }

  lemma Idle(a: Seq)
    ensures QueueOk([], [], a, a, a) && Fwd(a, a) == 0 && Fwd(a, Add(a, 1)) == 1 && Clen([]) == 0 && Payload([]) == []
  {
    AddZero(a);
  }

  /** A SYN at lastack fits any window. */
  lemma OnlyOne(s: Segment, unacked: seq<Segment>, unsent: seq<Segment>, lastack: Seq, wnd: nat)
    requires unacked + unsent == [s] && Sent(unacked, 0, unsent, lastack, wnd)
    requires s.data == [] && Add(s.seqno, 0 - lastack as int) == 0
    ensures unacked == [s] && unsent == []
  {
    assert unacked == [] ==> unsent == unacked + unsent;
    assert unsent == [] ==> unacked == unacked + unsent;
  }

  lemma StillHeld(g: seq<Byte>, a: seq<Segment>, s: seq<Segment>, g': seq<Byte>, s': seq<Segment>, stream: seq<Byte>)
    requires g + Payload(a) + Payload(s) == stream && g' + Payload(s') == g + Payload(s)
    requires (a == [] || s' == s) && (s' == s ==> g' == g)
    ensures g' + Payload(a) + Payload(s') == stream && g' + (Payload(a) + Payload(s')) == stream
  {
    HeldBytes(g, Payload(a), Payload(s), g', Payload(s'), stream);
  }

  lemma HeldBytes(g: seq<Byte>, x: seq<Byte>, y: seq<Byte>, g': seq<Byte>, y': seq<Byte>, stream: seq<Byte>)
    requires g + x + y == stream && g' + y' == g + y && (x == [] || (y' == y && g' == g))
    ensures g' + x + y' == stream && g' + (x + y') == stream
  {
    assert g' + x + y' == g' + (x + y');
    if x == [] {
      assert x + y' == y' && x + y == y && g + x + y == g + (x + y);
    }
  }

  /** With nothing unsent, everything has been sent. */
  lemma AllSent(unacked: seq<Segment>, lastack: Seq, lbb: Seq, max: Seq, m: Seq)
    requires QueueOk(unacked, [], lastack, lbb, max)
    ensures QueueOk(unacked, [], lastack, lbb, m) <==> m == lbb
  {
    hide Add, Fwd, Contig;
    assert unacked + [] == unacked;
    FwdAdd(Start(unacked, lastack), 0, max);
    FwdAdd(Start(unacked, lastack), 0, m);
  }

  lemma StaleMax(max: Seq, iss: Seq)
    ensures Later(max, iss) == if Fwd(max, iss) <= HALF then iss else max
    ensures Fwd(max, iss) > HALF ==> max != iss
    ensures Add(Add(iss, -1), 1) == iss && SeqLt(Add(iss, -1), iss) && Add(Add(iss, -1), 0 - Add(iss, -1) as int) == 0
  {
  }

  /** An ACK is accepted exactly when it lies between lastack and sndMax, and what it
      acknowledges goes back to the budget. */
  lemma AckWindow(unacked: seq<Segment>, unsent: seq<Segment>, lastack: Seq, lbb: Seq, max: Seq, ackno: Seq, buf: nat)
    requires QueueOk(unacked, unsent, lastack, lbb, max) && buf <= 0xFFFF
    ensures Fwd(lastack, ackno) <= Fwd(lastack, max) ==> lastack == ackno || AckNew(lastack, max, ackno)
    ensures !Ambiguous(unsent, lastack, max, ackno) && Fwd(lastack, ackno) > Fwd(lastack, max) ==>
              lastack != ackno && !AckNew(lastack, max, ackno)
    ensures !Ambiguous(unsent, lastack, max, ackno) && AckNew(lastack, max, ackno) ==>
              ((buf + Fwd(lastack, ackno)) % 0x10000 + Fwd(ackno, lbb)) % 0x10000 == (buf + Fwd(lastack, lbb)) % 0x10000
  {
    hide Add, Fwd, SeqLt, SeqLeq, Contig, Ambiguous, AckNew;
    var start, A, S, x := Positions(unacked, unsent, lastack, lbb, max, ackno);
    Decisions(unacked, unsent, lastack, lbb, max, ackno, start, A, S, x);
    FwdBetween(start, A, x);
    FwdBetween(start, A, S);
    var L := Sum(unacked + unsent);
    FwdBetween(start, A, L);
    FwdBetween(start, x, L);
  }

  /** A duplicate of the last acknowledgement drops nothing. */
  lemma SelfAck(unacked: seq<Segment>, unsent: seq<Segment>, lastack: Seq, lbb: Seq, max: Seq)
    requires QueueOk(unacked, unsent, lastack, lbb, max)
    ensures !Ambiguous(unsent, lastack, max, lastack) && UnsentAfter(unsent, max, lastack) == unsent
  {
    hide Add, Fwd, SeqLt, SeqLeq, Contig, Ambiguous, AckNew, Covered;
    var start, A, S, x := Positions(unacked, unsent, lastack, lbb, max, lastack);
    FwdAdd(start, A, lastack);
    FwdAdd(start, x, lastack);
    Decisions(unacked, unsent, lastack, lbb, max, lastack, start, A, S, x);
  }

  lemma SynGone(unacked: seq<Segment>, unsent: seq<Segment>, lastack: Seq, lbb: Seq, max: Seq, buf: nat)
    requires QueueOk(unacked, unsent, lastack, lbb, max) && unacked != [] && unacked[0].syn
    ensures QueueOk(unacked[1..], unsent, Add(unacked[0].seqno, 1), lbb, max) && unacked[0].clen == 1
    ensures (buf + Fwd(Add(unacked[0].seqno, 1), lbb)) % 0x10000 == ((buf + Fwd(lastack, lbb)) % 0x10000 - 1) % 0x10000
    ensures unacked[0].data == []
  {
    hide Add, Fwd;
    var q := unacked + unsent;
    var start := unacked[0].seqno;
    var next := Add(start, 1);
    assert q[1..] == unacked[1..] + unsent;
    SumBound(q, start);
    FirstIsOk(q[1..], next);
    FwdAdd(start, 0, lastack);
    FwdAdd(start, 0, max);
    FwdAdd(start, Sum(q), max);
    AddZero(start);
    Shift(start, 1, 1, Fwd(start, max), Sum(q));
    FwdBetween(start, 1, Sum(q));
  }

  datatype Op =
    | Write(data: seq<Byte>, copy: bool, avail: nat -> bool)
    | Fin(avail: nat -> bool)
    | Send(wnd: nat)
    | Timeout(wnd: nat)
    | Ack(ackno: Seq, fast: bool)

  /** tcp_write accepts 1 to 65535 bytes; it returns at once for none. */
  predicate Legal(op: Op) {
    op.Write? ==> |op.data| <= 0xFFFF
  }

  /** The operation was refused, or it queued data (or a control segment) at the end. */
  ghost predicate Queued(s: Moment, n: Moment, data: seq<Byte>, per: nat, avail: nat -> bool) {
    && s.mss > 0
    && (n == s || (&& n.stream == s.stream + data && n.gone == s.gone
                   && Payload(n.unacked + n.unsent) == Payload(s.unacked + s.unsent) + data
                   && n.sndLbb == Add(s.sndLbb, if data == [] then 1 else |data|)
                   && n.sndBuf == (s.sndBuf - if data == [] then 1 else |data|) % 0x10000
                   && n.unacked == s.unacked && n.lastack == s.lastack && n.sndMax == s.sndMax
                   && n.mss == s.mss && n.evenseg == s.evenseg
                   && (data != [] ==> CutUp(s.unsent, n.unsent, |data|, s.mss, s.evenseg))))
    && ((forall k :: avail(k)) ==> (n != s <==> s.Fits(|data|, per)))
  }

  /** Nothing but the boundary between the queues and sndMax changed. */
  ghost predicate Shifted(s: Moment, n: Moment) {
    n.unacked + n.unsent == s.unacked + s.unsent && n == s.(unacked := n.unacked, unsent := n.unsent, sndMax := n.sndMax)
  }

  /** One operation. */
  ghost predicate Step(op: Op, s: Moment, n: Moment) {
    match op
    case Write(data, copy, avail) => if data == [] then n == s else Queued(s, n, data, if copy then 1 else 2, avail)
    case Fin(avail) =>
      Queued(s, n, [], 1, avail) && (n != s ==> n.unsent == s.unsent + [Segment(s.sndLbb, [], false, true, 1)])
    case Send(wnd) => Shifted(s, n) && s.unacked <= n.unacked && Sent(n.unacked, |s.unacked|, n.unsent, s.lastack, wnd)
    case Timeout(wnd) => if s.unacked == [] then n == s else Shifted(s, n) && Sent(n.unacked, 0, n.unsent, s.lastack, wnd)
    case Ack(ackno, fast) =>
      && n.lastack == (if Fwd(s.lastack, ackno) <= Fwd(s.lastack, s.sndMax) then ackno else s.lastack)
      && n.unacked + n.unsent == (if n.lastack != s.lastack then DropCovered(s.unacked + s.unsent, ackno) else s.unacked + s.unsent)
      && n.sndBuf == (s.sndBuf + Fwd(s.lastack, n.lastack)) % 0x10000
      && n.stream == s.stream && s.gone <= n.gone && n.sndLbb == s.sndLbb && n.sndMax == s.sndMax
      && n.mss == s.mss && n.evenseg == s.evenseg
  }

  /** A run: one step per operation, between moments that are in order and have the same budget. */
  ghost predicate IsRun(ops: seq<Op>, trace: seq<Moment>) {
    && |trace| == |ops| + 1 && (forall i :: 0 <= i < |trace| ==> trace[i].Good() && trace[i].Budget() == trace[0].Budget())
    && (forall i :: 0 <= i < |ops| ==> Step(ops[i], trace[i], trace[i + 1]))
  }

  /** Any run of writes, closes, transmissions, time-outs and acknowledgements, with any
      allocation failures: each is a step, and it keeps the queues gap-free, counted and complete
      and the byte budget constant, up to the first acknowledgement that is ambiguous. */
  method Run(c: Sender, ops: seq<Op>) returns (n: nat, ghost trace: seq<Moment>)
    requires c.Valid() && forall i :: 0 <= i < |ops| ==> Legal(ops[i])
    modifies c
    ensures n <= |ops|
    ensures n < |ops| ==> ops[n].Ack? && Ambiguous(c.unsent, c.lastack, c.sndMax, ops[n].ackno)
    ensures IsRun(ops[..n], trace) && trace[0] == old(c.Now()) && trace[n] == c.Now()
  {
    hide QueueOk, Ambiguous, Step;
    n := 0;
    trace := [c.Now()];
    while n < |ops|
      invariant c.Valid() && n <= |ops|
      invariant IsRun(ops[..n], trace) && trace[0] == old(c.Now()) && trace[n] == c.Now()
    {
      if ops[n].Ack? && Ambiguous(c.unsent, c.lastack, c.sndMax, ops[n].ackno) {
        return;
      }
      Perform(c, ops[n]);
      assert ops[..n + 1] == ops[..n] + [ops[n]];
      trace := trace + [c.Now()];
      n := n + 1;
    }
  }

  method Perform(c: Sender, op: Op)
    requires c.Valid() && Legal(op) && (op.Ack? ==> !Ambiguous(c.unsent, c.lastack, c.sndMax, op.ackno))
    modifies c
    ensures c.Valid() && c.Budget() == old(c.Budget()) && Step(op, old(c.Now()), c.Now())
  {
    hide QueueOk, Ambiguous, Sent, Add, Fwd, Clen, SegmentCount, CutUp, DropCovered, Payload;
    match op
    case Write(data, copy, avail) =>
      if data != [] {
        var _ := c.Enqueue(data, false, false, copy, false, avail, c.sndMax);
      }
    case Fin(avail) =>
      var _ := c.Enqueue([], false, true, true, false, avail, c.sndMax);
    case Send(wnd) =>
      c.Output(wnd);
    case Timeout(wnd) =>
      c.Rexmit(wnd, false);
    case Ack(ackno, fast) =>
      c.ReceiveAck(ackno, fast);
  }

  /** The data of the writes that were accepted, in order. */
  ghost function Accepted(ops: seq<Op>, trace: seq<Moment>): seq<Byte>
    requires |trace| == |ops| + 1
  {
    if ops == [] then []
    else
      var n := |ops| - 1;
      Accepted(ops[..n], trace[..n + 1]) + if ops[n].Write? && trace[n + 1] != trace[n] then ops[n].data else []
  }

  /** Over a whole run the stream is that of the start and the accepted writes, and every byte of
      it has been given up by an acknowledgement or is on a queue: nothing is lost, repeated or
      reordered. */
  lemma {:induction false} NothingLost(ops: seq<Op>, trace: seq<Moment>)
    requires IsRun(ops, trace)
    ensures trace[|ops|].stream == trace[0].stream + Accepted(ops, trace)
    ensures trace[0].gone <= trace[|ops|].gone
    ensures trace[|ops|].gone + Payload(trace[|ops|].unacked + trace[|ops|].unsent) == trace[0].stream + Accepted(ops, trace)
  {
    hide QueueOk, Sent, Add, Fwd, Clen, SegmentCount, CutUp, DropCovered, Payload;
    if ops != [] {
      var n := |ops| - 1;
      NothingLost(ops[..n], trace[..n + 1]);
      assert Step(ops[n], trace[n], trace[n + 1]);
    }
    assert trace[|ops|].Good();
  }
}
