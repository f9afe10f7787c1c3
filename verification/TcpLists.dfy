/** Connection states and the three lists of protocol control blocks
    (iop/SMSTCPIP/tcp_in.c, tcp.c; sections 3.2 and 3.9 of RFC 793). */
module TcpLists {

  datatype TcpState = CLOSED | LISTEN | SYN_SENT | SYN_RCVD | ESTABLISHED | FIN_WAIT_1 | FIN_WAIT_2 | CLOSE_WAIT
                    | CLOSING | LAST_ACK | TIME_WAIT

  /** What a block on the active list may be in. */
  predicate IsActive(s: TcpState) {
    s != CLOSED && s != LISTEN && s != TIME_WAIT
  }

  /** State changes of RFC 793: figure 6, and the FIN with ACK of section 3.9. */
  predicate Edge(s: TcpState, t: TcpState) {
    || (s == CLOSED && t == SYN_SENT)
    || (s == SYN_SENT && t == ESTABLISHED)
    || (s == SYN_RCVD && (t == ESTABLISHED || t == FIN_WAIT_1))
    || (s == ESTABLISHED && (t == FIN_WAIT_1 || t == CLOSE_WAIT))
    || (s == CLOSE_WAIT && t == LAST_ACK)
    || (s == FIN_WAIT_1 && (t == FIN_WAIT_2 || t == CLOSING || t == TIME_WAIT))
    || (s == FIN_WAIT_2 && t == TIME_WAIT)
    || (s == CLOSING && t == TIME_WAIT)
  }

  /** What a segment looks like to tcp_process: its flags, and the tests that depend on sequence
      numbers and on the application. */
  datatype Segment = Segment(rst: bool, syn: bool, fin: bool, ack: bool,
                             rstAcceptable: bool, synAcked: bool, ackNew: bool, ackAll: bool, accepted: bool)

  datatype Outcome = Stay(state: TcpState) | ToTimeWait | Remove

  /** tcp_process: the state machine. */
  function Process(s: TcpState, g: Segment): Outcome
    requires IsActive(s)
  {
    if g.rst then (if g.rstAcceptable then Remove else Stay(s))
    else match s
      case SYN_SENT => Stay(if g.ack && g.syn && g.synAcked then ESTABLISHED else s)
      case SYN_RCVD => if g.ack && g.ackNew then (if g.accepted then Stay(ESTABLISHED) else Remove) else Stay(s)
      case ESTABLISHED => Stay(if g.fin then CLOSE_WAIT else s)
      case CLOSE_WAIT => Stay(s)
      case FIN_WAIT_1 =>
        if g.fin then (if g.ack && g.ackAll then ToTimeWait else Stay(CLOSING))
        else Stay(if g.ack && g.ackAll then FIN_WAIT_2 else s)
      case FIN_WAIT_2 => if g.fin then ToTimeWait else Stay(s)
      case CLOSING => if g.ack && g.ackAll then ToTimeWait else Stay(s)
      case LAST_ACK => if g.ack && g.ackAll then Remove else Stay(s)
      case _ => Stay(s)
  }

  /** Every outcome is an edge of the state diagram, no change, or a removal; a removal without
      a reset or a refused accept happens only in LAST-ACK. */
  lemma ProcessEdges(s: TcpState, g: Segment)
    requires IsActive(s)
    ensures match Process(s, g)
            case Stay(t) => IsActive(t) && (t == s || Edge(s, t))
            case ToTimeWait => Edge(s, TIME_WAIT) && !g.rst
            case Remove => g.rst || s == LAST_ACK || (s == SYN_RCVD && !g.accepted)
  {
  }

  /** The arrows of figure 6 that carry a segment, with the FIN and ACK at once of section 3.9: a
      segment g leads from s to t. */
  predicate Arrow(s: TcpState, g: Segment, t: TcpState) {
    && !g.rst
    && match t
       case ESTABLISHED => (s == SYN_SENT && g.syn && g.ack && g.synAcked) || (s == SYN_RCVD && g.ack && g.ackNew && g.accepted)
       case CLOSE_WAIT => s == ESTABLISHED && g.fin
       case FIN_WAIT_2 => s == FIN_WAIT_1 && g.ack && g.ackAll && !g.fin
       case CLOSING => s == FIN_WAIT_1 && g.fin && !(g.ack && g.ackAll)
       case TIME_WAIT =>
         || (s == FIN_WAIT_1 && g.fin && g.ack && g.ackAll)
         || (s == FIN_WAIT_2 && g.fin)
         || (s == CLOSING && g.ack && g.ackAll)
       case _ => false
  }

  /** The segments that end a connection. */
  predicate Ends(s: TcpState, g: Segment) {
    if g.rst then g.rstAcceptable
    else g.ack && ((s == SYN_RCVD && g.ackNew && !g.accepted) || (s == LAST_ACK && g.ackAll))
  }

  /** A segment does what its arrow says, and without one nothing; none leads to FIN-WAIT-1 or
      LAST-ACK. */
  lemma ProcessExactly(s: TcpState, g: Segment, t: TcpState)
    requires IsActive(s)
    ensures Process(s, g) == Remove <==> Ends(s, g)
    ensures Process(s, g) == ToTimeWait <==> Arrow(s, g, TIME_WAIT)
    ensures Process(s, g) == Stay(t) && t != s <==> Arrow(s, g, t) && t != TIME_WAIT
    ensures Arrow(s, g, t) ==> t != s && t != FIN_WAIT_1 && t != LAST_ACK && Edge(s, t)
  {
  }

  // ----- lists -----

  ghost predicate NoDup(l: seq<nat>) {
    forall i, j :: 0 <= i < |l| && 0 <= j < |l| && l[i] == l[j] ==> i == j
  }

  /** TCP_RMV: unlink the first occurrence. */
  function Without(l: seq<nat>, p: nat): seq<nat> {
    if l == [] then [] else if l[0] == p then l[1..] else [l[0]] + Without(l[1..], p)
  }

  lemma {:induction false} WithoutIs(l: seq<nat>, p: nat)
    requires NoDup(l)
    ensures NoDup(Without(l, p)) && forall x :: x in Without(l, p) <==> x in l && x != p
  {
    if l != [] {
      var t := l[1..];
      assert l == [l[0]] + t;
      assert NoDup(t);
      forall i | 0 <= i < |t|
        ensures t[i] != l[0]
      {
        assert l[i + 1] == t[i];
      }
      WithoutIs(t, p);
      if l[0] != p {
        NoDupPrepend(l[0], Without(t, p));
      }
    }
  }

  lemma NoDupPrepend(x: nat, l: seq<nat>)
    requires NoDup(l) && x !in l
    ensures NoDup([x] + l)
  {
    var m := [x] + l;
    forall i, j | 0 <= i < |m| && 0 <= j < |m| && m[i] == m[j]
      ensures i == j
    {
      if i > 0 && j > 0 {
        assert l[i - 1] == l[j - 1];
      }
    }
  }

  /** The lists as values: the blocks that exist with their states, and the three lists. */
  datatype Lists = Lists(pcb: map<nat, TcpState>, active: seq<nat>, tw: seq<nat>, listen: seq<nat>)

  /** Each list holds only blocks in its states, no block is on two lists or twice on one, and
      a block on no list is closed. */
  ghost predicate Sane(v: Lists) {
    && NoDup(v.active) && NoDup(v.tw) && NoDup(v.listen)
    && (forall p :: p in v.active <==> p in v.pcb && IsActive(v.pcb[p]))
    && (forall p :: p in v.tw <==> p in v.pcb && v.pcb[p] == TIME_WAIT)
    && (forall p :: p in v.listen <==> p in v.pcb && v.pcb[p] == LISTEN)
  }

  /** Every block that is still there moved along an edge or not at all. */
  ghost predicate Moves(v: Lists, w: Lists) {
    forall p :: p in v.pcb && p in w.pcb ==> w.pcb[p] == v.pcb[p] || Edge(v.pcb[p], w.pcb[p])
  }

  // ----- what the operations do to the lists -----

  /** A state change inside the active list. */
  function Restated(v: Lists, p: nat, t: TcpState): Lists {
    v.(pcb := v.pcb[p := t])
  }

  /** To the TIME-WAIT list. */
  function Parked(v: Lists, p: nat): Lists {
    v.(pcb := v.pcb[p := TIME_WAIT], active := Without(v.active, p), tw := [p] + v.tw)
  }

  /** tcp_pcb_remove and memp_free. */
  function Dropped(v: Lists, p: nat): Lists {
    v.(pcb := v.pcb - {p}, active := Without(v.active, p), tw := Without(v.tw, p), listen := Without(v.listen, p))
  }

  /** Move-to-front after a lookup. */
  function Front(l: seq<nat>, p: nat): seq<nat> {
    [p] + Without(l, p)
  }

  /** A segment for block p. */
  function Processed(v: Lists, p: nat, g: Segment): Lists
    requires p in v.pcb && IsActive(v.pcb[p])
  {
    var w := v.(active := Front(v.active, p));
    match Process(v.pcb[p], g)
    case Stay(t) => Restated(w, p, t)
    case ToTimeWait => Parked(w, p)
    case Remove => Dropped(w, p)
  }

  /** Block p has met segment g, and no other block has changed. */
  ghost predicate Met(v: Lists, p: nat, g: Segment, w: Lists)
    requires p in v.pcb
  {
    && (p !in w.pcb <==> Ends(v.pcb[p], g))
    && (p in w.pcb ==> forall t :: w.pcb[p] == t && t != v.pcb[p] <==> Arrow(v.pcb[p], g, t))
    && (forall q :: q != p ==> (q in w.pcb <==> q in v.pcb) && (q in v.pcb ==> w.pcb[q] == v.pcb[q]))
  }

  lemma ProcessedMet(v: Lists, p: nat, g: Segment)
    requires p in v.pcb && IsActive(v.pcb[p])
    ensures Met(v, p, g, Processed(v, p, g))
  {
    hide Without, Process, Arrow, Ends;
    var s, w := v.pcb[p], Processed(v, p, g);
    ProcessExactly(s, g, s);
    forall t
      ensures Process(s, g) == Stay(t) && t != s <==> Arrow(s, g, t) && t != TIME_WAIT
      ensures Arrow(s, g, t) ==> t != s
    {
      ProcessExactly(s, g, t);
    }
  }

  /** tcp_close of block p. */
  function Closed(v: Lists, p: nat, sent: bool): Lists
    requires p in v.pcb
  {
    match v.pcb[p]
    case LISTEN => Dropped(v, p)
    case SYN_SENT => Dropped(v, p)
    case SYN_RCVD => if sent then Restated(v, p, FIN_WAIT_1) else v
    case ESTABLISHED => if sent then Restated(v, p, FIN_WAIT_1) else v
    case CLOSE_WAIT => if sent then Restated(v, p, LAST_ACK) else v
    case _ => v
  }

  /** What an allocation gets and gives up: whether each attempt finds memory, the TIME-WAIT block
      and the active block that have waited longest, and whether the latter may be killed. */
  datatype Memory = Memory(first: bool, second: bool, third: bool, oldTw: nat, oldActive: nat, killsOne: bool)
  {
    function Found(): bool {
      first || second || third
    }
  }

  /** The blocks an allocation kills. */
  function Victims(v: Lists, m: Memory): set<nat> {
    (if !m.first && v.tw != [] then {m.oldTw} else {}) + (if !m.first && !m.second && m.killsOne then {m.oldActive} else {})
  }

  /** The blocks after an allocation. */
  function Allocated(v: Lists, made: nat, s: TcpState, m: Memory): map<nat, TcpState> {
    if m.Found() then (v.pcb - Victims(v, m))[made := s] else v.pcb - Victims(v, m)
  }

  /** The victims are on their lists. */
  predicate Eligible(v: Lists, m: Memory) {
    (v.tw != [] ==> m.oldTw in v.tw) && (m.killsOne ==> m.oldActive in v.active)
  }

  lemma FrontIs(l: seq<nat>, p: nat)
    requires NoDup(l) && p in l
    ensures NoDup(Front(l, p)) && forall x :: x in Front(l, p) <==> x in l
  {
    WithoutIs(l, p);
    NoDupPrepend(p, Without(l, p));
  }

  lemma RestatedSane(v: Lists, p: nat, t: TcpState)
    requires Sane(v) && p in v.active && IsActive(t)
    ensures Sane(Restated(v, p, t))
  {
  }

  lemma ParkedSane(v: Lists, p: nat)
    requires Sane(v) && p in v.active
    ensures Sane(Parked(v, p))
  {
    WithoutIs(v.active, p);
    NoDupPrepend(p, v.tw);
  }

  lemma DroppedSane(v: Lists, p: nat)
    requires Sane(v)
    ensures Sane(Dropped(v, p))
  {
    WithoutIs(v.active, p);
    WithoutIs(v.tw, p);
    WithoutIs(v.listen, p);
  }

  /** A block that was closed, or is new, goes on the active list. */
  lemma RegisteredSane(v: Lists, p: nat, t: TcpState)
    requires Sane(v) && IsActive(t) && (p in v.pcb ==> v.pcb[p] == CLOSED)
    ensures Sane(v.(pcb := v.pcb[p := t], active := [p] + v.active))
  {
    NoDupPrepend(p, v.active);
  }

  lemma FrontSane(v: Lists, p: nat)
    requires Sane(v)
    ensures p in v.active ==> Sane(v.(active := Front(v.active, p)))
    ensures p in v.listen ==> Sane(v.(listen := Front(v.listen, p)))
  {
    if p in v.active {
      FrontIs(v.active, p);
    }
    if p in v.listen {
      FrontIs(v.listen, p);
    }
  }

  /** The first block of a list that matches. */
  function Find(l: seq<nat>, matches: nat -> bool): (i: nat)
    ensures i <= |l| && (forall k :: 0 <= k < i ==> !matches(l[k])) && (i < |l| ==> matches(l[i]))
  {
    if l == [] || matches(l[0]) then 0 else Find(l[1..], matches) + 1
  }

  // ----- the slow timer -----

  /** The blocks of a list whose time is not up, and those whose time is. */
  function Kept(l: seq<nat>, expired: nat -> bool): seq<nat> {
    if l == [] then []
    else Kept(l[..|l| - 1], expired) + if expired(l[|l| - 1]) then [] else [l[|l| - 1]]
  }

  function Up(l: seq<nat>, expired: nat -> bool): set<nat> {
    set q | q in l && expired(q)
  }

  lemma KeptNext(l: seq<nat>, i: nat, expired: nat -> bool)
    requires i < |l|
    ensures Kept(l[..i + 1], expired) == Kept(l[..i], expired) + if expired(l[i]) then [] else [l[i]]
    ensures Up(l[..i + 1], expired) == Up(l[..i], expired) + if expired(l[i]) then {l[i]} else {}
  {
    assert l[..i + 1][..i] == l[..i] && l[..i + 1] == l[..i] + [l[i]];
  }

  lemma {:induction false} KeptIs(l: seq<nat>, expired: nat -> bool)
    requires NoDup(l)
    ensures NoDup(Kept(l, expired)) && forall x :: x in Kept(l, expired) <==> x in l && !expired(x)
  {
    if l != [] {
      var n := |l| - 1;
      assert l == l[..n] + [l[n]];
      KeptIs(l[..n], expired);
      assert forall i :: 0 <= i < n ==> l[..n][i] != l[n];
    }
  }

  /** A connection on which nothing was heard for too long, if keepalive applies to its state. */
  predicate Silent(v: Lists, idle: nat -> bool, p: nat) {
    p in v.pcb && idle(p) && (v.pcb[p] == ESTABLISHED || v.pcb[p] == CLOSE_WAIT)
  }

  function FirstSilent(v: Lists, idle: nat -> bool): (k: nat)
    ensures k <= |v.active| && (forall i :: 0 <= i < k ==> !Silent(v, idle, v.active[i]))
    ensures k < |v.active| ==> Silent(v, idle, v.active[k])
  {
    Find(v.active, (p: nat) => Silent(v, idle, p))
  }

  /** The walk over the active blocks. It ends at the first silent one, which is aborted; if its
      time was up as well, it is unlinked a second time, by then without a successor. */
  function ActiveTicked(v: Lists, expired: nat -> bool, idle: nat -> bool): Lists {
    var a, k := v.active, FirstSilent(v, idle);
    v.(pcb := v.pcb - Up(a[..k], expired) - (if k < |a| then {a[k]} else {}),
       active := Kept(a[..k], expired) + if k < |a| && !expired(a[k]) then a[k + 1..] else [])
  }

  /** The walk over the blocks in TIME-WAIT. */
  function TwTicked(v: Lists, expired: nat -> bool): Lists {
    v.(pcb := v.pcb - Up(v.tw, expired), tw := Kept(v.tw, expired))
  }

  /** The two walks, one after the other. */
  function Ticked(v: Lists, expired: nat -> bool, idle: nat -> bool): Lists {
    TwTicked(ActiveTicked(v, expired, idle), expired)
  }

  /** No block that is still in use falls off the active list. */
  predicate KeepsAll(v: Lists, expired: nat -> bool, idle: nat -> bool) {
    var k := FirstSilent(v, idle);
    k + 1 < |v.active| ==> !expired(v.active[k])
  }

  /** A block in the middle of the active list is taken out. */
  lemma Unlinked(v: Lists, l: seq<nat>, p: nat, r: seq<nat>)
    requires Sane(v) && v.active == l + [p] + r
    ensures p in v.pcb && IsActive(v.pcb[p]) && Dropped(v, p) == v.(pcb := v.pcb - {p}, active := l + r)
    ensures Sane(v.(pcb := v.pcb - {p}, active := l + r))
  {
    assert v.active[|l|] == p;
    assert forall i :: 0 <= i < |l| ==> v.active[i] == l[i];
    assert p !in l;
    WithoutAt(l, p, r);
    WithoutNone(v, p);
    DroppedSane(v, p);
  }

  lemma {:induction false} WithoutAt(l: seq<nat>, p: nat, r: seq<nat>)
    requires p !in l
    ensures Without(l + [p] + r, p) == l + r
  {
    var m := l + [p] + r;
    if l == [] {
      assert m[0] == p && m[1..] == r;
    } else {
      WithoutAt(l[1..], p, r);
      assert m[0] == l[0] && m[1..] == l[1..] + [p] + r;
    }
  }

  /** The blocks behind the one that is unlinked twice are lost. */
  lemma Truncated(v: Lists, l: seq<nat>, r: seq<nat>)
    requires Sane(v) && v.active == l + r && r != []
    ensures r[0] in v.pcb && IsActive(v.pcb[r[0]]) && r[0] !in l && r[0] !in v.tw
  {
    assert v.active[|l|] == r[0];
    assert forall i :: 0 <= i < |l| ==> v.active[i] == l[i];
  }

  lemma TwTickedSane(v: Lists, expired: nat -> bool)
    requires Sane(v)
    ensures Sane(TwTicked(v, expired))
  {
    KeptIs(v.tw, expired);
  }

  lemma LostStays(v: Lists, expired: nat -> bool, x: nat)
    requires x in v.pcb && IsActive(v.pcb[x]) && x !in v.active && x !in v.tw
    ensures !Sane(TwTicked(v, expired)) && !Sane(v)
  {
    var w := TwTicked(v, expired);
    assert x in w.pcb && x !in w.active;
  }

  class Stack {
    var pcb: map<nat, TcpState>
    var active: seq<nat>
    var tw: seq<nat>
    var listen: seq<nat>

    function View(): Lists
      reads this
    {
      Lists(pcb, active, tw, listen)
    }

    constructor ()
      ensures Sane(View()) && pcb == map[]
    {
      pcb, active, tw, listen := map[], [], [], [];
    }

    /** tcp_pcb_remove from its list, and memp_free. */
    method RemovePcb(p: nat)
      requires Sane(View())
      modifies this
      ensures View() == Dropped(old(View()), p) && Sane(View())
    {
      DroppedSane(View(), p);
      active, tw, listen := Without(active, p), Without(tw, p), Without(listen, p);
      pcb := pcb - {p};
    }

    /** tcp_close; sent tells whether the FIN could be queued. */
    method Close(p: nat, sent: bool)
      requires Sane(View()) && p in pcb
      modifies this
      ensures Sane(View()) && View() == Closed(old(View()), p, sent)
    {
      match pcb[p]
      case LISTEN =>
        RemovePcb(p);
      case SYN_SENT =>
        RemovePcb(p);
      case SYN_RCVD =>
        if sent {
          RestatedSane(View(), p, FIN_WAIT_1);
          pcb := pcb[p := FIN_WAIT_1];
        }
      case ESTABLISHED =>
        if sent {
          RestatedSane(View(), p, FIN_WAIT_1);
          pcb := pcb[p := FIN_WAIT_1];
        }
      case CLOSE_WAIT =>
        if sent {
          RestatedSane(View(), p, LAST_ACK);
          pcb := pcb[p := LAST_ACK];
        }
      case _ =>
    }

    /** tcp_abort, which looks at TIME-WAIT and otherwise assumes the active list: it keeps the
        lists in order exactly when the block is not listening. */
    method Abort(p: nat)
      requires Sane(View()) && p in pcb
      modifies this
      ensures Sane(View()) <==> old(pcb[p]) != LISTEN
      ensures old(pcb[p]) != LISTEN ==> View() == Dropped(old(View()), p)
    {
      ghost var v := View();
      DroppedSane(v, p);
      WithoutNone(v, p);
      if pcb[p] == TIME_WAIT {
        tw := Without(tw, p);
      } else {
        active := Without(active, p);
      }
      pcb := pcb - {p};
    }

    /** tcp_connect on a fresh block. */
    method Connect(p: nat)
      requires Sane(View()) && p in pcb && pcb[p] == CLOSED
      modifies this
      ensures Sane(View()) && pcb == old(pcb)[p := SYN_SENT] && active == [p] + old(active)
      ensures tw == old(tw) && listen == old(listen)
    {
      RegisteredSane(View(), p, SYN_SENT);
      pcb := pcb[p := SYN_SENT];
      active := [p] + active;
    }

    /** tcp_listen: the block is replaced by a listening one, if there is memory for it. */
    method Listen(p: nat, made: nat, memory: bool) returns (ok: bool)
      requires Sane(View()) && p in pcb && (pcb[p] == CLOSED || pcb[p] == LISTEN) && made !in pcb
      modifies this
      ensures Sane(View()) && ok == (old(pcb[p]) == LISTEN || memory)
      ensures !ok || old(pcb[p]) == LISTEN ==> View() == old(View())
      ensures ok && old(pcb[p]) == CLOSED ==> pcb == (old(pcb) - {p})[made := LISTEN] && listen == [made] + old(listen)
                                              && active == old(active) && tw == old(tw)
    {
      if pcb[p] == LISTEN {
        return true;
      }
      if !memory {
        return false;
      }
      NoDupPrepend(made, listen);
      pcb := (pcb - {p})[made := LISTEN];
      listen := [made] + listen;
      ok := true;
    }

    /** tcp_alloc: when memory is short, the block tcp_kill_timewait picks is aborted, and then
        the one tcp_kill_prio picks, if any. */
    method Alloc(made: nat, m: Memory) returns (ok: bool)
      requires Sane(View()) && made !in pcb && Eligible(View(), m)
      modifies this
      ensures Sane(View()) && ok == m.Found() && pcb == Allocated(old(View()), made, CLOSED, m)
      ensures m.first ==> active == old(active) && tw == old(tw) && listen == old(listen)
    {
      hide Sane, Without;
      ghost var v := View();
      ok := m.first;
      if !ok {
        if tw != [] {
          Listed(View(), m.oldTw);
          Abort(m.oldTw);
        }
        ok := m.second;
        if !ok {
          if m.killsOne {
            StillListed(v, m.oldTw, m.oldActive);
            Listed(View(), m.oldActive);
            Abort(m.oldActive);
          }
          ok := m.third;
        }
      }
      assert pcb == v.pcb - Victims(v, m);
      if ok {
        AddedSane(View(), made);
        pcb := pcb[made := CLOSED];
      }
    }

    /** tcp_input for a segment of a connection: the block is moved to the front of the active
        list and the segment is processed. */
    method InputActive(p: nat, g: Segment)
      requires Sane(View()) && p in active
      modifies this
      ensures Sane(View()) && View() == Processed(old(View()), p, g) && p in old(pcb) && Met(old(View()), p, g, View())
    {
      hide Without;
      ghost var v := View();
      FrontSane(v, p);
      FrontIs(active, p);
      ProcessedMet(v, p, g);
      active := Front(active, p);
      ghost var w := View();
      var s := pcb[p];
      ProcessEdges(s, g);
      match Process(s, g)
      case Stay(t) =>
        RestatedSane(w, p, t);
        pcb := pcb[p := t];
      case ToTimeWait =>
        ParkedSane(w, p);
        active, tw := Without(active, p), [p] + tw;
        pcb := pcb[p := TIME_WAIT];
      case Remove =>
        RemovePcb(p);
    }

    /** tcp_listen_input: a SYN for a listening block makes a new block in SYN-RCVD. */
    method InputListen(p: nat, syn: bool, ack: bool, made: nat, m: Memory)
      requires Sane(View()) && p in listen && made !in pcb && Eligible(View(), m)
      modifies this
      ensures Sane(View())
      ensures pcb == if syn && !ack then Allocated(old(View()), made, SYN_RCVD, m) else old(pcb)
    {
      hide Sane, Without;
      FrontSane(View(), p);
      listen := Front(listen, p);
      if ack {
        return;
      }
      if syn {
        var ok := Alloc(made, m);
        if ok {
          RegisteredSane(View(), made, SYN_RCVD);
          pcb := pcb[made := SYN_RCVD];
          active := [made] + active;
        }
      }
    }

    /** tcp_input: the first matching block of the active list, else of the TIME-WAIT list (whose
        segments change no state), else of the listening ones. */
    method Input(g: Segment, matches: nat -> bool, listens: nat -> bool, made: nat, m: Memory)
      requires Sane(View()) && made !in pcb && Eligible(View(), m)
      modifies this
      ensures Sane(View()) && Step(Segments(g, matches, listens, made, m), old(View()), View())
    {
      var i := Find(active, matches);
      if i < |active| {
        InputActive(active[i], g);
        return;
      }
      i := Find(tw, matches);
      if i < |tw| {
        return;
      }
      i := Find(listen, listens);
      if i < |listen| {
        InputListen(listen[i], g.syn, g.ack, made, m);
      }
    }

    /** tcp_slowtmr: both walks. The lists are in order afterwards exactly when nothing fell off
        the active list. */
    method SlowTimer(expired: nat -> bool, idle: nat -> bool)
      requires Sane(View())
      modifies this
      ensures View() == Ticked(old(View()), expired, idle)
      ensures Sane(View()) <==> KeepsAll(old(View()), expired, idle)
    {
      hide Sane, Kept;
      ghost var v := View();
      ghost var x := WalkActive(expired, idle);
      ghost var w := View();
      WalkTimeWait(expired);
      if KeepsAll(v, expired, idle) {
        TwTickedSane(w, expired);
      } else {
        LostStays(w, expired, x);
      }
    }

    /** The walk over the active list: before lists the blocks up to the last one kept, rest those
        from the current one on; x is a block that fell off, if one does. */
    method WalkActive(expired: nat -> bool, idle: nat -> bool) returns (ghost x: nat)
      requires Sane(View())
      modifies this
      ensures View() == ActiveTicked(old(View()), expired, idle)
      ensures if KeepsAll(old(View()), expired, idle) then Sane(View())
              else x in pcb && IsActive(pcb[x]) && x !in active && x !in tw
    {
      hide Sane, OnTheWay, Without, ActiveTicked, KeepsAll;
      ghost var v := View();
      var before, rest := [], active;
      x := 0;
      SetOff(v, expired, idle);
      while rest != []
        invariant OnTheWay(v, View(), before, rest, expired, idle) && Sane(View())
        decreases |rest|
      {
        var p := rest[0];
        Current(v, View(), before, rest, expired, idle);
        Unlinked(View(), before, p, rest[1..]);
        if idle(p) && (pcb[p] == ESTABLISHED || pcb[p] == CLOSE_WAIT) {
          Aborted(v, View(), before, rest, expired, idle);
          Abort(p);
          if expired(p) {
            if |rest| > 1 {
              Truncated(View(), before, rest[1..]);
              x := rest[1];
            } else {
              assert active == before;
            }
            active := before;
          }
          return;
        }
        Passed(v, View(), before, rest, expired, idle);
        if expired(p) {
          active := before + rest[1..];
          pcb := pcb - {p};
        } else {
          before := before + [p];
        }
        rest := rest[1..];
      }
      Through(v, View(), before, expired, idle);
    }

    /** The walk over the TIME-WAIT list. */
    method WalkTimeWait(expired: nat -> bool)
      modifies this
      ensures View() == TwTicked(old(View()), expired)
    {
      hide Waiting, TwTicked;
      ghost var v := View();
      var before, rest := [], tw;
      WaitingEnds(v, v, [], expired);
      while rest != []
        invariant Waiting(v, View(), before, rest, expired)
        decreases |rest|
      {
        var p := rest[0];
        WaitingNext(v, View(), before, rest, expired);
        if expired(p) {
          tw := before + rest[1..];
          pcb := pcb - {p};
        } else {
          before := before + [p];
        }
        rest := rest[1..];
      }
      WaitingEnds(v, View(), before, expired);
    }
  }

  /** How far the walk has come from the lists v: before are the blocks it has kept. */
  ghost predicate OnTheWay(v: Lists, w: Lists, before: seq<nat>, rest: seq<nat>, expired: nat -> bool, idle: nat -> bool) {
    && |rest| <= |v.active|
    && var i := |v.active| - |rest|;
    && rest == v.active[i..] && before == Kept(v.active[..i], expired)
    && (forall j :: 0 <= j < i ==> !Silent(v, idle, v.active[j]))
    && w == v.(pcb := v.pcb - Up(v.active[..i], expired), active := before + rest)
  }

  lemma SetOff(v: Lists, expired: nat -> bool, idle: nat -> bool)
    ensures OnTheWay(v, v, [], v.active, expired, idle)
  {
    NothingUp(v.active, expired);
  }

  lemma Current(v: Lists, w: Lists, before: seq<nat>, rest: seq<nat>, expired: nat -> bool, idle: nat -> bool)
    requires OnTheWay(v, w, before, rest, expired, idle) && rest != []
    ensures w.active == before + [rest[0]] + rest[1..]
  {
  }

  lemma Aborted(v: Lists, w: Lists, before: seq<nat>, rest: seq<nat>, expired: nat -> bool, idle: nat -> bool)
    requires OnTheWay(v, w, before, rest, expired, idle) && rest != [] && Silent(w, idle, rest[0])
    ensures ActiveTicked(v, expired, idle)
            == w.(pcb := w.pcb - {rest[0]}, active := if expired(rest[0]) then before else before + rest[1..])
    ensures KeepsAll(v, expired, idle) <==> |rest| == 1 || !expired(rest[0])
  {
    hide Kept, Up;
    var i := |v.active| - |rest|;
    assert rest[0] == v.active[i] && Silent(v, idle, rest[0]);
    assert FirstSilent(v, idle) == i;
    assert v.active[i..][1..] == v.active[i + 1..];
    assert before + [] == before;
  }

  lemma Passed(v: Lists, w: Lists, before: seq<nat>, rest: seq<nat>, expired: nat -> bool, idle: nat -> bool)
    requires OnTheWay(v, w, before, rest, expired, idle) && rest != [] && rest[0] in w.pcb && !Silent(w, idle, rest[0])
    ensures if expired(rest[0])
            then OnTheWay(v, w.(pcb := w.pcb - {rest[0]}, active := before + rest[1..]), before, rest[1..], expired, idle)
            else OnTheWay(v, w, before + [rest[0]], rest[1..], expired, idle)
  {
    hide Kept, Up;
    var i := |v.active| - |rest|;
    assert rest[0] == v.active[i] && !Silent(v, idle, rest[0]);
    KeptNext(v.active, i, expired);
    assert v.active[i..][1..] == v.active[i + 1..];
    assert before + rest == before + [rest[0]] + rest[1..];
  }

  lemma Through(v: Lists, w: Lists, before: seq<nat>, expired: nat -> bool, idle: nat -> bool)
    requires OnTheWay(v, w, before, [], expired, idle)
    ensures w == ActiveTicked(v, expired, idle) && KeepsAll(v, expired, idle)
  {
    assert FirstSilent(v, idle) == |v.active|;
  }

  /** The same for the TIME-WAIT list. */
  ghost predicate Waiting(v: Lists, w: Lists, before: seq<nat>, rest: seq<nat>, expired: nat -> bool) {
    && |rest| <= |v.tw|
    && var i := |v.tw| - |rest|;
    && rest == v.tw[i..] && before == Kept(v.tw[..i], expired)
    && w == v.(pcb := v.pcb - Up(v.tw[..i], expired), tw := before + rest)
  }

  lemma WaitingEnds(v: Lists, w: Lists, before: seq<nat>, expired: nat -> bool)
    ensures Waiting(v, v, [], v.tw, expired)
    ensures Waiting(v, w, before, [], expired) ==> w == TwTicked(v, expired)
  {
    NothingUp(v.tw, expired);
    assert v.tw[..|v.tw|] == v.tw && before + [] == before;
  }

  lemma WaitingNext(v: Lists, w: Lists, before: seq<nat>, rest: seq<nat>, expired: nat -> bool)
    requires Waiting(v, w, before, rest, expired) && rest != []
    ensures if expired(rest[0])
            then Waiting(v, w.(pcb := w.pcb - {rest[0]}, tw := before + rest[1..]), before, rest[1..], expired)
            else Waiting(v, w, before + [rest[0]], rest[1..], expired)
  {
    hide Kept, Up;
    var i := |v.tw| - |rest|;
    KeptNext(v.tw, i, expired);
    assert rest[0] == v.tw[i] && v.tw[i..][1..] == v.tw[i + 1..];
    assert before + rest == before + [rest[0]] + rest[1..];
  }

  lemma NothingUp(l: seq<nat>, expired: nat -> bool)
    ensures Kept(l[..0], expired) == [] && Up(l[..0], expired) == {}
  {
  }

  /** A block that the timer should remove. */
  predicate Due(v: Lists, expired: nat -> bool, idle: nat -> bool, p: nat) {
    expired(p) || Silent(v, idle, p)
  }

  /** The timer removes, of the blocks on the two lists, those that are due up to the first silent
      one, and those in TIME-WAIT. */
  lemma TickRemoves(v: Lists, expired: nat -> bool, idle: nat -> bool, i: nat)
    requires Sane(v) && i < |v.active|
    ensures v.active[i] !in Ticked(v, expired, idle).pcb
            <==> i <= FirstSilent(v, idle) && Due(v, expired, idle, v.active[i])
  {
    var a, k := v.active, FirstSilent(v, idle);
    assert a[i] in a && a[i] !in v.tw;
    if i < k {
      assert a[..k][i] == a[i];
    }
  }

  /** The timer removes every active block that is due exactly when none is due behind the first
      silent one: the walk does not get there. */
  lemma AllDueGo(v: Lists, expired: nat -> bool, idle: nat -> bool)
    requires Sane(v)
    ensures (forall p :: p in v.active && Due(v, expired, idle, p) ==> p !in Ticked(v, expired, idle).pcb)
            <==> (forall i :: FirstSilent(v, idle) < i < |v.active| ==> !Due(v, expired, idle, v.active[i]))
  {
    hide Sane, Ticked, Due;
    var w := Ticked(v, expired, idle);
    forall i | 0 <= i < |v.active|
      ensures v.active[i] in v.active
      ensures v.active[i] !in w.pcb <==> i <= FirstSilent(v, idle) && Due(v, expired, idle, v.active[i])
    {
      TickRemoves(v, expired, idle, i);
    }
  }

  /** Two connections, of which the first is silent: the second one is not looked at although its
      time is up, and if the time of the first is up too, the second one is lost. */
  lemma SilentHidesNext(v: Lists, idle: nat -> bool, second: nat -> bool, both: nat -> bool)
    requires v == Lists(map[1 := ESTABLISHED, 2 := ESTABLISHED], [1, 2], [], [])
    requires forall q :: (idle(q) <==> q == 1) && (second(q) <==> q == 2) && both(q)
    ensures Sane(v) && Ticked(v, second, idle) == Lists(map[2 := ESTABLISHED], [2], [], []) && Due(v, second, idle, 2)
    ensures Ticked(v, both, idle) == Lists(map[2 := ESTABLISHED], [], [], []) && !Sane(Ticked(v, both, idle))
  {
    hide Sane, ActiveTicked, TwTicked;
    TwoSane(v);
    assert v.active[0] == 1 && v.active[1..] == [2] && Silent(v, idle, 1);
    assert v.pcb - {1} == map[2 := ESTABLISHED];
    FirstGoes(v, second, idle);
    FirstGoes(v, both, idle);
    LostStays(ActiveTicked(v, both, idle), both, 2);
  }

  lemma TwoSane(v: Lists)
    requires v == Lists(map[1 := ESTABLISHED, 2 := ESTABLISHED], [1, 2], [], [])
    ensures Sane(v)
  {
    assert v.active[0] == 1 && v.active[1] == 2;
  }

  lemma FirstGoes(v: Lists, expired: nat -> bool, idle: nat -> bool)
    requires v.active != [] && Silent(v, idle, v.active[0]) && v.tw == []
    ensures ActiveTicked(v, expired, idle) == Ticked(v, expired, idle)
            == v.(pcb := v.pcb - {v.active[0]}, active := if expired(v.active[0]) then [] else v.active[1..])
  {
    assert FirstSilent(v, idle) == 0;
    NothingUp(v.active, expired);
  }

  /** What can happen to the lists. */
  datatype Event =
    | Segments(g: Segment, matches: nat -> bool, listens: nat -> bool, made: nat, m: Memory)
    | Tick(expired: nat -> bool, idle: nat -> bool)
    | AppClose(p: nat, sent: bool)
    | AppAbort(p: nat)
    | AppConnect(p: nat)
    | AppListen(p: nat, made: nat, memory: bool)
    | AppNew(made: nat, m: Memory)

  /** What the callers keep to: they name blocks that exist, connect and listen only on closed
      blocks and abort no listening one; new blocks are new. A tick must not make a block in use
      fall off its list. */
  predicate Allowed(v: Lists, e: Event) {
    match e
    case Segments(_, _, _, f, m) => f !in v.pcb && Eligible(v, m)
    case Tick(expired, idle) => KeepsAll(v, expired, idle)
    case AppClose(p, _) => p in v.pcb
    case AppAbort(p) => p in v.pcb && v.pcb[p] != LISTEN
    case AppConnect(p) => p in v.pcb && v.pcb[p] == CLOSED
    case AppListen(p, f, _) => p in v.pcb && (v.pcb[p] == CLOSED || v.pcb[p] == LISTEN) && f !in v.pcb
    case AppNew(f, m) => f !in v.pcb && Eligible(v, m)
  }

  /** What an event does: which block changes, to what, and which ones go. */
  ghost predicate Step(e: Event, v: Lists, w: Lists) {
    match e
    case Segments(g, matches, listens, made, m) =>
      var i, j, k := Find(v.active, matches), Find(v.tw, matches), Find(v.listen, listens);
      if i < |v.active| then
        var p := v.active[i];
        p in v.pcb && IsActive(v.pcb[p]) && w == Processed(v, p, g)
      else if j < |v.tw| then w == v
      else w.pcb == if k < |v.listen| && g.syn && !g.ack then Allocated(v, made, SYN_RCVD, m) else v.pcb
    case Tick(expired, idle) => w == Ticked(v, expired, idle)
    case AppClose(p, sent) => p in v.pcb && w == Closed(v, p, sent)
    case AppAbort(p) => w == Dropped(v, p)
    case AppConnect(p) => w == v.(pcb := v.pcb[p := SYN_SENT], active := [p] + v.active)
    case AppListen(p, made, memory) =>
      p in v.pcb && w == if v.pcb[p] == LISTEN || !memory then v
                         else v.(pcb := (v.pcb - {p})[made := LISTEN], listen := [made] + v.listen)
    case AppNew(made, m) => w.pcb == Allocated(v, made, CLOSED, m)
  }

  /** How many active blocks the timer visits. */
  function Visited(v: Lists, idle: nat -> bool): (n: nat)
    ensures n <= |v.active|
  {
    var k := FirstSilent(v, idle);
    if k < |v.active| then k + 1 else k
  }

  /** The reasons for which block p disappears. */
  ghost predicate Removes(e: Event, v: Lists, p: nat)
    requires p in v.pcb
  {
    match e
    case Segments(g, matches, listens, _, m) =>
      var i := Find(v.active, matches);
      if i < |v.active| then p == v.active[i] && Ends(v.pcb[p], g)
      else && Find(v.tw, matches) == |v.tw| && Find(v.listen, listens) < |v.listen| && g.syn && !g.ack
           && p in Victims(v, m)
    case Tick(expired, idle) =>
      || (v.pcb[p] == TIME_WAIT && expired(p))
      || (Due(v, expired, idle, p) && p in v.active[..Visited(v, idle)])
    case AppClose(q, _) => p == q && (v.pcb[p] == LISTEN || v.pcb[p] == SYN_SENT)
    case AppAbort(q) => p == q
    case AppConnect(_) => false
    case AppListen(q, _, memory) => p == q && v.pcb[p] == CLOSED && memory
    case AppNew(_, m) => p in Victims(v, m)
  }

  /** A block disappears exactly for one of the reasons. */
  lemma StepRemoves(e: Event, v: Lists, w: Lists, p: nat)
    requires Sane(v) && Allowed(v, e) && Step(e, v, w) && p in v.pcb
    ensures p !in w.pcb <==> Removes(e, v, p)
  {
    hide Without, Find, NoDup, Process, Ends, Arrow;
    if e.Segments? {
      var i := Find(v.active, e.matches);
      if i < |v.active| {
        ProcessExactly(v.pcb[v.active[i]], e.g, CLOSED);
      }
    }
  }

  /** Event e makes block p go to state t: a segment with its arrow, tcp_close with a FIN queued, or
      tcp_connect. */
  ghost predicate Leads(e: Event, v: Lists, p: nat, t: TcpState)
    requires p in v.pcb
  {
    var s := v.pcb[p];
    match e
    case Segments(g, matches, _, _, _) =>
      var i := Find(v.active, matches);
      i < |v.active| && p == v.active[i] && Arrow(s, g, t)
    case AppClose(q, sent) =>
      p == q && sent && ((t == FIN_WAIT_1 && (s == SYN_RCVD || s == ESTABLISHED)) || (t == LAST_ACK && s == CLOSE_WAIT))
    case AppConnect(q) => p == q && t == SYN_SENT
    case _ => false
  }

  /** Every block that is still there went to another state exactly when the event leads there. */
  lemma StepLeads(e: Event, v: Lists, w: Lists, p: nat, t: TcpState)
    requires Sane(v) && Allowed(v, e) && Step(e, v, w) && p in v.pcb && p in w.pcb
    ensures w.pcb[p] == t && t != v.pcb[p] <==> Leads(e, v, p, t)
  {
    hide Without, Find, NoDup, Process;
    if e.Segments? {
      var i := Find(v.active, e.matches);
      if i < |v.active| {
        ProcessedMet(v, v.active[i], e.g);
        ProcessExactly(v.pcb[v.active[i]], e.g, t);
      }
    }
  }

  /** So every block that is still there moved along an edge or not at all, and one that is newly in
      FIN-WAIT-1 or LAST-ACK was closed by the application. */
  lemma StepMoves(e: Event, v: Lists, w: Lists)
    requires Sane(v) && Allowed(v, e) && Step(e, v, w)
    ensures Moves(v, w)
    ensures forall p :: p in v.pcb && p in w.pcb && w.pcb[p] != v.pcb[p] && w.pcb[p] in {FIN_WAIT_1, LAST_ACK} ==>
              e == AppClose(p, true)
  {
    hide Sane, Allowed, Step;
    forall p | p in v.pcb && p in w.pcb && w.pcb[p] != v.pcb[p]
      ensures Edge(v.pcb[p], w.pcb[p]) && (w.pcb[p] in {FIN_WAIT_1, LAST_ACK} ==> e == AppClose(p, true))
    {
      StepLeads(e, v, w, p, w.pcb[p]);
      LeadsAlong(e, v, p, w.pcb[p]);
    }
  }

  lemma LeadsAlong(e: Event, v: Lists, p: nat, t: TcpState)
    requires Sane(v) && Allowed(v, e) && p in v.pcb && Leads(e, v, p, t)
    ensures Edge(v.pcb[p], t) && (t in {FIN_WAIT_1, LAST_ACK} ==> e == AppClose(p, true))
  {
    hide Find, NoDup;
  }

  /** A new block is the one the event made: it is closed, listening or in SYN-RCVD. */
  lemma StepMakes(e: Event, v: Lists, w: Lists, p: nat)
    requires Sane(v) && Allowed(v, e) && Step(e, v, w) && p !in v.pcb && p in w.pcb
    ensures match e
            case Segments(g, _, _, made, m) => p == made && w.pcb[p] == SYN_RCVD && g.syn && !g.ack && m.Found()
            case AppListen(_, made, memory) => p == made && w.pcb[p] == LISTEN && memory
            case AppNew(made, m) => p == made && w.pcb[p] == CLOSED && m.Found()
            case _ => false
  {
    hide Without, Find, NoDup;
  }

  /** One event. */
  method Handle(c: Stack, e: Event)
    requires Sane(c.View()) && Allowed(c.View(), e)
    modifies c
    ensures Sane(c.View()) && Step(e, old(c.View()), c.View())
  {
    hide Sane, Without, Find;
    match e
    case Segments(g, s, l, f, m) => c.Input(g, s, l, f, m);
    case Tick(expired, idle) => c.SlowTimer(expired, idle);
    case AppClose(p, sent) => c.Close(p, sent);
    case AppAbort(p) => c.Abort(p);
    case AppConnect(p) => c.Connect(p);
    case AppListen(p, f, memory) => var _ := c.Listen(p, f, memory);
    case AppNew(f, m) => var _ := c.Alloc(f, m);
  }

  lemma Listed(v: Lists, p: nat)
    requires Sane(v) && (p in v.tw || p in v.active)
    ensures p in v.pcb && v.pcb[p] != LISTEN && Sane(Dropped(v, p))
  {
    DroppedSane(v, p);
  }

  lemma StillListed(v: Lists, t: nat, a: nat)
    requires Sane(v) && a in v.active
    ensures t in v.tw ==> a in Dropped(v, t).active
  {
    WithoutIs(v.active, t);
  }

  lemma AddedSane(v: Lists, p: nat)
    requires Sane(v) && p !in v.pcb
    ensures Sane(v.(pcb := v.pcb[p := CLOSED]))
  {
  }

  lemma WithoutNone(v: Lists, p: nat)
    requires Sane(v)
    ensures p !in v.active ==> Without(v.active, p) == v.active
    ensures p !in v.tw ==> Without(v.tw, p) == v.tw
    ensures p !in v.listen ==> Without(v.listen, p) == v.listen
  {
    Absent(v.active, p);
    Absent(v.tw, p);
    Absent(v.listen, p);
  }

  lemma {:induction false} Absent(l: seq<nat>, p: nat)
    ensures p !in l ==> Without(l, p) == l
  {
    if l != [] {
      Absent(l[1..], p);
    }
  }

  /** A run: one step per event, with the lists in order between them. */
  ghost predicate IsRun(events: seq<Event>, trace: seq<Lists>) {
    && |trace| == |events| + 1 && (forall i :: 0 <= i < |trace| ==> Sane(trace[i]))
    && (forall i :: 0 <= i < |events| ==> Allowed(trace[i], events[i]) && Step(events[i], trace[i], trace[i + 1]))
  }

  /** Any run of segments, timer ticks and calls: each event is a step from the lists before it,
      and the lists are in order after it, as long as the callers keep to the rules. */
  method Run(c: Stack, events: seq<Event>) returns (n: nat, ghost trace: seq<Lists>)
    requires Sane(c.View())
    modifies c
    ensures n <= |events| && (n < |events| ==> !Allowed(c.View(), events[n]))
    ensures IsRun(events[..n], trace) && trace[0] == old(c.View()) && trace[n] == c.View()
  {
    hide Sane, Allowed, Step;
    n := 0;
    trace := [c.View()];
    while n < |events|
      invariant Sane(c.View()) && n <= |events|
      invariant IsRun(events[..n], trace) && trace[0] == old(c.View()) && trace[n] == c.View()
    {
      if !Allowed(c.View(), events[n]) {
        return;
      }
      Handle(c, events[n]);
      assert events[..n + 1] == events[..n] + [events[n]];
      trace := trace + [c.View()];
      n := n + 1;
    }
  }

  /** The states a block can reach: along edges, any number of them. */
  ghost predicate Reaches(s: TcpState, t: TcpState) {
    match s
    case CLOSED => t != LISTEN && t != SYN_RCVD
    case LISTEN => t == LISTEN
    case SYN_SENT => t != CLOSED && t != LISTEN && t != SYN_RCVD
    case SYN_RCVD => t != CLOSED && t != LISTEN && t != SYN_SENT
    case ESTABLISHED => t != CLOSED && t != LISTEN && t != SYN_SENT && t != SYN_RCVD
    case CLOSE_WAIT => t == CLOSE_WAIT || t == LAST_ACK
    case LAST_ACK => t == LAST_ACK
    case FIN_WAIT_1 => t == FIN_WAIT_1 || t == FIN_WAIT_2 || t == CLOSING || t == TIME_WAIT
    case FIN_WAIT_2 => t == FIN_WAIT_2 || t == TIME_WAIT
    case CLOSING => t == CLOSING || t == TIME_WAIT
    case TIME_WAIT => t == TIME_WAIT
  }

  /** Over a whole run a block only moves forward, and one that is gone was removed by an event
      that had a reason to. */
  lemma {:induction false} RunMoves(events: seq<Event>, trace: seq<Lists>, p: nat)
    requires IsRun(events, trace) && p in trace[0].pcb
    ensures || (exists i :: 0 <= i < |events| && p in trace[i].pcb && Removes(events[i], trace[i], p))
            || (p in trace[|events|].pcb && Reaches(trace[0].pcb[p], trace[|events|].pcb[p]))
  {
    hide Sane, Step, Removes, Allowed;
    if |events| > 0 {
      var n := |events| - 1;
      RunMoves(events[..n], trace[..n + 1], p);
      if i :| 0 <= i < n && p in trace[..n + 1][i].pcb && Removes(events[..n][i], trace[..n + 1][i], p) {
        assert Removes(events[i], trace[i], p);
      } else {
        StepRemoves(events[n], trace[n], trace[n + 1], p);
        StepMoves(events[n], trace[n], trace[n + 1]);
      }
    }
  }

  /** The states behind an own FIN. */
  predicate Closing(s: TcpState) {
    s in {FIN_WAIT_1, FIN_WAIT_2, CLOSING, LAST_ACK, TIME_WAIT}
  }

  lemma StepCloses(e: Event, v: Lists, w: Lists, p: nat)
    requires Sane(v) && Allowed(v, e) && Step(e, v, w) && p in w.pcb && Closing(w.pcb[p])
    ensures e == AppClose(p, true) || (p in v.pcb && Closing(v.pcb[p]))
  {
    hide Sane, Allowed, Step;
    if p !in v.pcb {
      StepMakes(e, v, w, p);
    } else {
      StepMoves(e, v, w);
    }
  }

  /** Over a whole run, a connection gets behind its own FIN only if the application closed it. */
  lemma {:induction false} RunCloses(events: seq<Event>, trace: seq<Lists>, p: nat)
    requires IsRun(events, trace) && p in trace[|events|].pcb && Closing(trace[|events|].pcb[p])
    ensures AppClose(p, true) in events || (p in trace[0].pcb && Closing(trace[0].pcb[p]))
  {
    hide Sane, Step, Allowed, Closing;
    if |events| > 0 {
      var n := |events| - 1;
      StepCloses(events[n], trace[n], trace[n + 1], p);
      if events[n] != AppClose(p, true) {
        RunCloses(events[..n], trace[..n + 1], p);
        assert events == events[..n] + [events[n]];
      }
    }
  }
}
