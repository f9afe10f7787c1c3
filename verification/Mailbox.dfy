/** The mailbox of the TCP/IP thread and the ring of input messages, under every interleaving
    of posting threads, the fetching thread and interrupt-time input
    (iop/SMSTCPIP/ps2ip.c). A step is one section with interrupts suspended. */
module Mailbox {

  const SYS_MBOX_SIZE := 64
  const MSG_QUEUE_SIZE := 16

  /** A message: from a thread, or the callback of one input packet. A callback carries the slot
      of its packet; n and packet record which packet it was made for. */
  datatype Msg = Post(id: nat) | Callback(slot: nat, n: nat, packet: nat)

  /** What the fetching thread is doing: it may hold a message it has fetched, or the packet it
      has read from the slot of a callback. */
  datatype Fetcher = Idle | Waiting | Holding(msg: Msg) | Read(msg: Msg, packet: nat)

  /** The mailbox and the ring, with the history of what went in and came out. */
  datatype State = State(
    first: nat, last: nat, slots: seq<Msg>,
    waitPost: nat, waitFetch: nat, blocked: map<nat, Msg>, fetcher: Fetcher,
    aMSGs: seq<nat>, firstMSG: nat, lastMSG: nat,
    posted: seq<Msg>, fetched: seq<Msg>, delivered: seq<nat>, accepted: seq<nat>,
    allocs: nat, released: nat, leaks: nat)

  function NextIndex(i: nat): nat {
    (i + 1) % SYS_MBOX_SIZE
  }

  function NextMSG(i: nat): nat {
    (i + 1) % MSG_QUEUE_SIZE
  }

  predicate Full(s: State) {
    NextIndex(s.last) == s.first
  }

  predicate Empty(s: State) {
    s.last == s.first
  }

  predicate QueueFull(s: State) {
    NextMSG(s.lastMSG) == s.firstMSG
  }

  datatype Action =
    | CallPost(t: nat, id: nat)            // sys_mbox_post, up to storing the message or waiting
    | WakePost(t: nat)                     // a waiting poster looks again
    | CallFetch | WakeFetch | TimeOut      // sys_arch_mbox_fetch
    | Handle                               // the fetching thread deals with a posted message
    | ReadSlot | Release                   // InputCB: copy the slot, then move u8FirstMSG
    | Input(packet: nat, memory: bool)     // ps2ip_input in the interrupt handler

  /** Store a message behind the last one. */
  function Put(s: State, m: Msg): State
    requires s.last < |s.slots|
  {
    s.(slots := s.slots[s.last := m], last := NextIndex(s.last), posted := s.posted + [m])
  }

  /** Take the first message. */
  function Take(s: State): State
    requires s.first < |s.slots|
  {
    var m := s.slots[s.first];
    s.(first := NextIndex(s.first), fetched := s.fetched + [m], fetcher := Holding(m))
  }

  /** The input message ring hands out the slot at u8LastMSG. */
  function Accept(s: State, packet: nat): State
    requires s.lastMSG < |s.aMSGs|
  {
    s.(aMSGs := s.aMSGs[s.lastMSG := packet], lastMSG := NextMSG(s.lastMSG), allocs := s.allocs + 1)
  }

  predicate Enabled(s: State, a: Action) {
    match a
    case CallPost(t, _) => t !in s.blocked
    case WakePost(t) => t in s.blocked && s.waitPost > 0
    case CallFetch => s.fetcher.Idle?
    case WakeFetch => s.fetcher.Waiting? && s.waitFetch > 0
    case TimeOut => s.fetcher.Waiting? && s.waitFetch > 0
    case Handle => s.fetcher.Holding? && s.fetcher.msg.Post?
    case ReadSlot => s.fetcher.Holding? && s.fetcher.msg.Callback? && s.fetcher.msg.slot < |s.aMSGs|
    case Release => s.fetcher.Read?
    case Input(_, _) => true
  }

  predicate Indexed(s: State) {
    s.first < |s.slots| && s.last < |s.slots| && s.lastMSG < |s.aMSGs|
  }

  /** One step. */
  function Step(s: State, a: Action): State
    requires Enabled(s, a) && Indexed(s)
  {
    match a
    case CallPost(t, id) =>
      if Full(s) then s.(waitPost := s.waitPost + 1, blocked := s.blocked[t := Post(id)]) else Put(s, Post(id))
    case WakePost(t) =>
      if Full(s) then s else Put(s.(waitPost := s.waitPost - 1, blocked := s.blocked - {t}), s.blocked[t])
    case CallFetch =>
      if Empty(s) then s.(waitFetch := s.waitFetch + 1, fetcher := Waiting) else Take(s)
    case WakeFetch =>
      if Empty(s) then s else Take(s.(waitFetch := s.waitFetch - 1))
    case TimeOut => s.(waitFetch := s.waitFetch - 1, fetcher := Idle)
    case Handle => s.(fetcher := Idle)
    case ReadSlot => s.(fetcher := Read(s.fetcher.msg, s.aMSGs[s.fetcher.msg.slot]))
    case Release =>
      s.(firstMSG := NextMSG(s.firstMSG), released := s.released + 1, fetcher := Idle,
         delivered := s.delivered + [s.fetcher.packet])
    case Input(packet, memory) =>
      if Full(s) || QueueFull(s) then s
      else
        var u := Accept(s, packet);
        if memory then Put(u, Callback(s.lastMSG, s.allocs, packet)).(accepted := s.accepted + [packet])
        else u.(leaks := s.leaks + 1)
  }

  function Init(slots: seq<Msg>, aMSGs: seq<nat>): State {
    State(0, 0, slots, 0, 0, map[], Idle, aMSGs, 0, 0, [], [], [], [], 0, 0, 0)
  }

  // ----- what every step keeps -----

  /** Messages waiting in the mailbox, in order. */
  function Pending(s: State): seq<Msg>
    requires Indexed(s) && |s.slots| == SYS_MBOX_SIZE
  {
    Ring(s.slots, s.first, s.last)
  }

  /** The elements from a up to b, around the end. */
  function Ring(t: seq<Msg>, a: nat, b: nat): seq<Msg>
    requires a < |t| && b < |t|
  {
    if a <= b then t[a..b] else t[a..] + t[..b]
  }

  /** First in, first out: what came out and what waits is what went in. */
  ghost predicate Fifo(s: State) {
    && |s.slots| == SYS_MBOX_SIZE && |s.aMSGs| == MSG_QUEUE_SIZE && Indexed(s)
    && s.posted == s.fetched + Pending(s)
  }

  /** Callbacks of a list of messages. */
  function Callbacks(q: seq<Msg>): seq<Msg> {
    if q == [] then [] else (if q[0].Callback? then [q[0]] else []) + Callbacks(q[1..])
  }

  /** Callbacks whose packet has not been released: the one in hand, then those that wait. */
  function Unreleased(s: State): seq<Msg>
    requires Indexed(s) && |s.slots| == SYS_MBOX_SIZE
  {
    (if (s.fetcher.Holding? || s.fetcher.Read?) && s.fetcher.msg.Callback? then [s.fetcher.msg] else []) + Callbacks(Pending(s))
  }

  function Packets(q: seq<Msg>): seq<nat> {
    seq(|q|, i requires 0 <= i < |q| => if q[i].Callback? then q[i].packet else 0)
  }

  /** The ring indices count allocations and releases; a slot is free, in use or leaked. */
  ghost predicate Counted(s: State, n: nat) {
    && s.firstMSG == s.released % MSG_QUEUE_SIZE && s.lastMSG == s.allocs % MSG_QUEUE_SIZE
    && n + s.leaks == s.allocs - s.released < MSG_QUEUE_SIZE
  }

  /** The callbacks were made in this order, between allocations lo and hi. */
  ghost predicate Made(q: seq<Msg>, lo: nat, hi: nat) {
    && (forall i :: 0 <= i < |q| ==> q[i].Callback? && lo <= q[i].n < hi && q[i].slot == q[i].n % MSG_QUEUE_SIZE)
    && (forall i, j :: 0 <= i < j < |q| ==> q[i].n < q[j].n)
  }

  /** Each slot still holds the packet of its callback. */
  ghost predicate Held(aMSGs: seq<nat>, q: seq<Msg>) {
    |aMSGs| == MSG_QUEUE_SIZE
    && forall i :: 0 <= i < |q| ==> q[i].Callback? && q[i].slot < MSG_QUEUE_SIZE && aMSGs[q[i].slot] == q[i].packet
  }

  /** Unreleased callbacks, made in order, hold different slots, and every slot that is neither
      free nor leaked still holds its packet. */
  ghost predicate SlotsOk(s: State, q: seq<Msg>) {
    && Counted(s, |q|) && Made(q, s.released, s.allocs) && Held(s.aMSGs, q)
    && s.accepted == s.delivered + Packets(q)
  }

  ghost predicate FetcherOk(s: State) {
    && (s.fetcher.Read? ==> s.fetcher.msg.Callback? && s.fetcher.packet == s.fetcher.msg.packet)
    && s.waitFetch == (if s.fetcher.Waiting? then 1 else 0)
    && s.waitPost == |s.blocked|
    && (forall t :: t in s.blocked ==> s.blocked[t].Post?)
  }

  ghost predicate Inv(s: State) {
    Fifo(s) && SlotsOk(s, Unreleased(s)) && FetcherOk(s)
  }

  lemma NobodyWaits(s: State, m: Msg)
    requires s.blocked == map[] && s.posted == []
    ensures Copies(s, m) == 0
  {
    assert Waiters(s.blocked, m) == {};
  }

  lemma InitInv(slots: seq<Msg>, aMSGs: seq<nat>)
    requires |slots| == SYS_MBOX_SIZE && |aMSGs| == MSG_QUEUE_SIZE
    ensures Inv(Init(slots, aMSGs))
  {
  }

  /** A stored message waits behind the others. */
  lemma PutPending(s: State, m: Msg)
    requires |s.slots| == SYS_MBOX_SIZE && Indexed(s) && !Full(s)
    ensures Indexed(Put(s, m)) && Pending(Put(s, m)) == Pending(s) + [m]
  {
    if s.last == SYS_MBOX_SIZE - 1 && s.first <= s.last {
      assert s.slots[s.last := m][s.first..] == s.slots[s.first..s.last] + [m];
    }
  }

  /** The message taken is the first that waits. */
  lemma TakePending(s: State)
    requires |s.slots| == SYS_MBOX_SIZE && Indexed(s) && !Empty(s)
    ensures Indexed(Take(s)) && Pending(s) == [s.slots[s.first]] + Pending(Take(s))
  {
    hide Ring;
    RingTake(s.slots, s.first, s.last);
  }

  lemma RingTake(t: seq<Msg>, a: nat, b: nat)
    requires |t| == SYS_MBOX_SIZE && a < |t| && b < |t| && a != b
    ensures Ring(t, a, b) == [t[a]] + Ring(t, NextIndex(a), b)
  {
    if a == SYS_MBOX_SIZE - 1 {
      assert NextIndex(a) == 0 && t[a..] == [t[a]] && t[..b] == t[0..b];
    } else {
      assert NextIndex(a) == a + 1;
      hide NextIndex;
      if a < b {
        assert t[a..b] == [t[a]] + t[a + 1..b];
      } else {
        Grouped(t, a, b);
      }
    }
  }

  lemma Grouped(t: seq<Msg>, a: nat, b: nat)
    requires a < |t| && b < |t|
    ensures t[a..] + t[..b] == [t[a]] + (t[a + 1..] + t[..b])
  {
    assert t[a..] == [t[a]] + t[a + 1..];
  }

  lemma {:induction false} CallbacksAppend(q: seq<Msg>, r: seq<Msg>)
    ensures Callbacks(q + r) == Callbacks(q) + Callbacks(r)
  {
    if q == [] {
      assert q + r == r;
    } else {
      assert (q + r)[0] == q[0] && (q + r)[1..] == q[1..] + r;
      CallbacksAppend(q[1..], r);
    }
  }

  /** Posting a message of a thread. */
  lemma PutPost(s: State, id: nat)
    requires Fifo(s) && !Full(s)
    ensures Fifo(Put(s, Post(id))) && Unreleased(Put(s, Post(id))) == Unreleased(s)
  {
    hide Pending, Full;
    PutPending(s, Post(id));
    CallbacksAppend(Pending(s), [Post(id)]);
    assert [Post(id)][1..] == [];
    assert s.fetched + (Pending(s) + [Post(id)]) == s.fetched + Pending(s) + [Post(id)];
  }

  /** Fetching a message. */
  lemma TakeOne(s: State)
    requires Fifo(s) && !Empty(s) && (s.fetcher.Idle? || s.fetcher.Waiting?)
    ensures Fifo(Take(s)) && Unreleased(Take(s)) == Unreleased(s)
  {
    hide Pending, Empty;
    TakePending(s);
    var m := s.slots[s.first];
    var rest := Pending(Take(s));
    assert ([m] + rest)[1..] == rest;
    assert s.fetched + ([m] + rest) == s.fetched + [m] + rest;
  }

  /** The slot handed out next is not the slot of an unreleased callback. */
  lemma SlotIsFree(q: seq<Msg>, lo: nat, hi: nat, i: nat)
    requires Made(q, lo, hi) && i < |q| && hi - lo < MSG_QUEUE_SIZE
    ensures q[i].Callback? && q[i].slot != hi % MSG_QUEUE_SIZE
  {
    var n := q[i].n;
    Apart(n, hi);
  }

  lemma Apart(x: nat, y: nat)
    requires x < y < x + MSG_QUEUE_SIZE
    ensures x % MSG_QUEUE_SIZE != y % MSG_QUEUE_SIZE
  {
  }

  lemma NextOf(x: nat)
    ensures NextMSG(x % MSG_QUEUE_SIZE) == (x + 1) % MSG_QUEUE_SIZE
  {
  }

  /** The ring reports full exactly when 15 slots are taken by unreleased callbacks and leaks. */
  lemma RoomLeft(s: State, n: nat)
    requires Counted(s, n)
    ensures QueueFull(s) <==> n + s.leaks == MSG_QUEUE_SIZE - 1
  {
    NextOf(s.allocs);
    if s.allocs + 1 < s.released + MSG_QUEUE_SIZE {
      Apart(s.released, s.allocs + 1);
    } else {
      assert (s.allocs + 1) % MSG_QUEUE_SIZE == s.released % MSG_QUEUE_SIZE;
    }
  }

  /** A slot is handed out, and used or leaked. */
  lemma AcceptSlot(s: State, q: seq<Msg>, packet: nat)
    requires SlotsOk(s, q) && !QueueFull(s)
    ensures SlotsOk(Accept(s, packet).(leaks := s.leaks + 1), q)
    ensures SlotsOk(Accept(s, packet).(accepted := s.accepted + [packet]), q + [Callback(s.lastMSG, s.allocs, packet)])
  {
    hide QueueFull, Packets, NextMSG;
    RoomLeft(s, |q|);
    NextOf(s.allocs);
    forall i | 0 <= i < |q|
      ensures q[i].slot != s.lastMSG
    {
      SlotIsFree(q, s.released, s.allocs, i);
    }
    PacketsMore(q, Callback(s.lastMSG, s.allocs, packet));
    assert s.delivered + (Packets(q) + [packet]) == s.delivered + Packets(q) + [packet];
  }

  lemma PacketsMore(q: seq<Msg>, m: Msg)
    requires m.Callback?
    ensures Packets(q + [m]) == Packets(q) + [m.packet] && Packets([m] + q) == [m.packet] + Packets(q)
  {
  }

  lemma InputStep(s: State, packet: nat, memory: bool)
    requires Inv(s)
    ensures Inv(Step(s, Input(packet, memory)))
  {
    hide Pending, Full, QueueFull, SlotsOk, Packets;
    if Full(s) || QueueFull(s) {
      return;
    }
    IndexedOk(s, Unreleased(s));
    AcceptSlot(s, Unreleased(s), packet);
    var u := Accept(s, packet);
    SamePending(s, u);
    if memory {
      var m := Callback(s.lastMSG, s.allocs, packet);
      SameFull(s, u);
      PutPending(u, m);
      CallbacksAppend(Pending(s), [m]);
      assert [m][1..] == [] && Callbacks([m]) == [m];
      var v := Put(u, m).(accepted := s.accepted + [packet]);
      SamePending(Put(u, m), v);
      assert Unreleased(v) == Unreleased(s) + [m];
      SameSlots(u.(accepted := s.accepted + [packet]), v, Unreleased(v));
      assert s.fetched + (Pending(s) + [m]) == s.fetched + Pending(s) + [m];
    } else {
      SamePending(u, u.(leaks := s.leaks + 1));
    }
  }

  lemma IndexedOk(s: State, q: seq<Msg>)
    requires SlotsOk(s, q)
    ensures s.lastMSG < |s.aMSGs| == MSG_QUEUE_SIZE && NextMSG(s.lastMSG) < MSG_QUEUE_SIZE
  {
  }

  lemma SamePending(s: State, u: State)
    requires Indexed(s) && Indexed(u) && |s.slots| == SYS_MBOX_SIZE
    requires u.first == s.first && u.last == s.last && u.slots == s.slots
    ensures Pending(u) == Pending(s)
  {
  }

  lemma SameFull(s: State, u: State)
    requires u.first == s.first && u.last == s.last
    ensures Full(u) == Full(s)
  {
  }

  lemma SameSlots(s: State, u: State, q: seq<Msg>)
    requires SlotsOk(s, q) && u.aMSGs == s.aMSGs && u.firstMSG == s.firstMSG && u.lastMSG == s.lastMSG
    requires u.allocs == s.allocs && u.released == s.released && u.leaks == s.leaks
    requires u.accepted == s.accepted && u.delivered == s.delivered
    ensures SlotsOk(u, q)
  {
  }

  /** InputCB gives the slot back: the packet it read is the one the callback was made for. */
  lemma ReleaseStep(s: State)
    requires Inv(s) && Enabled(s, Release)
    ensures Inv(Step(s, Release))
  {
    hide Pending, Packets, SlotsOk, NextMSG, Callbacks;
    var u := Step(s, Release);
    var rest := Callbacks(Pending(s));
    IndexedOk(s, Unreleased(s));
    SamePending(s, u);
    assert Unreleased(s) == [s.fetcher.msg] + rest && Unreleased(u) == [] + rest == rest;
    Released(s, s.fetcher.msg, rest);
  }

  lemma Released(s: State, m: Msg, rest: seq<Msg>)
    requires SlotsOk(s, [m] + rest) && m.Callback?
    ensures SlotsOk(s.(firstMSG := NextMSG(s.firstMSG), released := s.released + 1, fetcher := Idle,
                       delivered := s.delivered + [m.packet]), rest)
  {
    hide Packets, NextMSG;
    var q := [m] + rest;
    NextOf(s.released);
    PacketsMore(rest, m);
    assert s.delivered + ([m.packet] + Packets(rest)) == s.delivered + [m.packet] + Packets(rest);
    forall i | 0 <= i < |rest|
      ensures rest[i] == q[i + 1] && q[0].n < q[i + 1].n
    {
    }
  }

  lemma PostStep(s: State, t: nat, id: nat)
    requires Inv(s)
    ensures t !in s.blocked ==> Inv(Step(s, CallPost(t, id)))
    ensures Enabled(s, WakePost(t)) ==> Inv(Step(s, WakePost(t)))
  {
    hide Pending, Full, SlotsOk, Callbacks;
    if t !in s.blocked {
      var u := Step(s, CallPost(t, id));
      if Full(s) {
        SamePending(s, u);
        MapGrows(s.blocked, t, Post(id));
      } else {
        PutPost(s, id);
      }
      SameSlots(s, u, Unreleased(s));
    } else if !Full(s) && Enabled(s, WakePost(t)) {
      var v := s.(waitPost := s.waitPost - 1, blocked := s.blocked - {t});
      SamePending(s, v);
      SameFull(s, v);
      MapShrinks(s.blocked, t);
      PutPost(v, s.blocked[t].id);
      SameSlots(s, Step(s, WakePost(t)), Unreleased(s));
    }
  }

  lemma FetchStep(s: State, a: Action)
    requires Inv(s) && Enabled(s, a) && (a.CallFetch? || a.WakeFetch?)
    ensures Inv(Step(s, a))
  {
    hide Pending, Empty, SlotsOk, Callbacks;
    var u := Step(s, a);
    var v := if a.WakeFetch? then s.(waitFetch := s.waitFetch - 1) else s;
    SamePending(s, v);
    SameEmpty(s, v);
    if Empty(s) {
      SamePending(s, u);
    } else {
      TakeOne(v);
    }
    SameSlots(s, u, Unreleased(s));
  }

  lemma HandStep(s: State, a: Action)
    requires Inv(s) && Enabled(s, a) && (a.TimeOut? || a.Handle? || a.ReadSlot?)
    ensures Inv(Step(s, a))
  {
    hide Pending, SlotsOk, Callbacks;
    var u := Step(s, a);
    SamePending(s, u);
    if a.ReadSlot? {
      SlotHolds(s, Unreleased(s));
    }
    SameSlots(s, u, Unreleased(s));
  }

  /** Every step keeps the invariant. */
  lemma StepInv(s: State, a: Action)
    requires Inv(s) && Enabled(s, a)
    ensures Inv(Step(s, a))
  {
    hide Inv, Step;
    match a
    case CallPost(t, id) => PostStep(s, t, id);
    case WakePost(t) => PostStep(s, t, 0);
    case CallFetch => FetchStep(s, a);
    case WakeFetch => FetchStep(s, a);
    case TimeOut => HandStep(s, a);
    case Handle => HandStep(s, a);
    case ReadSlot => HandStep(s, a);
    case Release => ReleaseStep(s);
    case Input(packet, memory) => InputStep(s, packet, memory);
  }

  lemma SameEmpty(s: State, u: State)
    requires u.first == s.first && u.last == s.last
    ensures Empty(u) == Empty(s)
  {
  }

  lemma SlotHolds(s: State, q: seq<Msg>)
    requires SlotsOk(s, q) && q != []
    ensures q[0].Callback? && q[0].slot < |s.aMSGs| && s.aMSGs[q[0].slot] == q[0].packet
  {
  }

  lemma MapGrows(m: map<nat, Msg>, t: nat, x: Msg)
    requires t !in m
    ensures |m[t := x]| == |m| + 1
  {
    assert m[t := x].Keys == m.Keys + {t};
    assert |m[t := x]| == |m[t := x].Keys| && |m| == |m.Keys|;
  }

  lemma MapShrinks(m: map<nat, Msg>, t: nat)
    requires t in m
    ensures |m - {t}| == |m| - 1
  {
    assert (m - {t}).Keys == m.Keys - {t};
    assert |m - {t}| == |(m - {t}).Keys| && |m| == |m.Keys|;
  }

  // ----- what each step does -----

  /** The indices tell how many messages wait: one slot of the mailbox stays unused. */
  lemma RoomIs(s: State)
    requires Indexed(s) && |s.slots| == SYS_MBOX_SIZE
    ensures Full(s) <==> |Pending(s)| == SYS_MBOX_SIZE - 1
    ensures Empty(s) <==> Pending(s) == []
  {
  }

  /** Nothing about the mailbox changes but what waits, who waits to post, and the fetcher. */
  ghost predicate RingKept(s: State, u: State) {
    && u.aMSGs == s.aMSGs && u.firstMSG == s.firstMSG && u.lastMSG == s.lastMSG && u.leaks == s.leaks
    && u.accepted == s.accepted && u.delivered == s.delivered
  }

  /** sys_mbox_post by thread t: with room the message waits behind the others; without, it is the
      thread that waits. */
  ghost predicate Posts(s: State, t: nat, m: Msg, u: State)
    requires Fifo(s) && Fifo(u)
  {
    && RingKept(s, u) && u.fetched == s.fetched && u.fetcher == s.fetcher
    && if |Pending(s)| < 63 then Pending(u) == Pending(s) + [m] && u.blocked == s.blocked - {t}
       else Pending(u) == Pending(s) && u.blocked == s.blocked[t := m]
  }

  /** A fetch: the first message that waits, if there is one. */
  ghost predicate Fetches(s: State, u: State)
    requires Fifo(s) && Fifo(u)
  {
    && RingKept(s, u) && u.blocked == s.blocked
    && if Pending(s) == [] then Pending(u) == [] && u.fetched == s.fetched && u.fetcher == Waiting
       else && Pending(s) == [Pending(s)[0]] + Pending(u) && u.fetched == s.fetched + [Pending(s)[0]]
            && u.fetcher == Holding(Pending(s)[0])
  }

  /** The thread that fetches does something else than fetch. */
  ghost predicate Turns(s: State, fetcher: Fetcher, u: State)
    requires Fifo(s) && Fifo(u)
  {
    && Pending(u) == Pending(s) && u.blocked == s.blocked && u.fetched == s.fetched && u.fetcher == fetcher
    && u.aMSGs == s.aMSGs && u.lastMSG == s.lastMSG && u.leaks == s.leaks && u.accepted == s.accepted
  }

  /** There is room for a packet: in the mailbox, and a slot. */
  predicate Roomy(s: State)
    requires Fifo(s)
  {
    |Pending(s)| < 63 && |Unreleased(s)| + s.leaks < 15
  }

  /** ps2ip_input: with room and memory the packet is stored in the next slot and its callback waits
      behind the other messages; without memory the slot is lost; without room nothing happens. */
  ghost predicate Receives(s: State, packet: nat, memory: bool, u: State)
    requires Fifo(s) && Fifo(u)
  {
    && u.blocked == s.blocked && u.fetched == s.fetched && u.fetcher == s.fetcher && u.delivered == s.delivered
    && u.firstMSG == s.firstMSG
    && if !Roomy(s) then u == s
       else && u.aMSGs == s.aMSGs[s.lastMSG := packet] && u.lastMSG == (s.lastMSG + 1) % 16
            && if memory then && Pending(u) == Pending(s) + [Callback(s.lastMSG, s.allocs, packet)]
                              && u.accepted == s.accepted + [packet] && u.leaks == s.leaks
               else Pending(u) == Pending(s) && u.accepted == s.accepted && u.leaks == s.leaks + 1
  }

  /** What a step does, in terms of the messages that wait. */
  ghost predicate Does(s: State, a: Action, u: State)
    requires Fifo(s) && Fifo(u) && Enabled(s, a)
  {
    match a
    case CallPost(t, id) => Posts(s, t, Post(id), u)
    case WakePost(t) => Posts(s, t, s.blocked[t], u)
    case CallFetch => Fetches(s, u)
    case WakeFetch => Fetches(s, u)
    case TimeOut => Turns(s, Idle, u) && u.delivered == s.delivered && u.firstMSG == s.firstMSG
    case Handle => Turns(s, Idle, u) && u.delivered == s.delivered && u.firstMSG == s.firstMSG
    case ReadSlot => Turns(s, Read(s.fetcher.msg, s.fetcher.msg.packet), u) && u.delivered == s.delivered && u.firstMSG == s.firstMSG
    case Release =>
      && Turns(s, Idle, u) && s.fetcher.msg.Callback? && u.delivered == s.delivered + [s.fetcher.msg.packet]
      && u.firstMSG == (s.firstMSG + 1) % 16
    case Input(packet, memory) => Receives(s, packet, memory, u)
  }

  lemma PostDoes(s: State, a: Action)
    requires Inv(s) && Enabled(s, a) && (a.CallPost? || a.WakePost?) && Inv(Step(s, a))
    ensures Does(s, a, Step(s, a))
  {
    hide Pending, Full, SlotsOk, Callbacks;
    var u := Step(s, a);
    RoomIs(s);
    if Full(s) {
      SamePending(s, u);
      FewerThan(s);
      if a.WakePost? {
        assert s.blocked[a.t := s.blocked[a.t]] == s.blocked;
      }
    } else if a.CallPost? {
      PutPending(s, Post(a.id));
      assert s.blocked - {a.t} == s.blocked;
    } else {
      var v := s.(waitPost := s.waitPost - 1, blocked := s.blocked - {a.t});
      SamePending(s, v);
      SameFull(s, v);
      PutPending(v, s.blocked[a.t]);
    }
    FewerThan(s);
  }

  lemma FewerThan(s: State)
    requires Indexed(s) && |s.slots| == SYS_MBOX_SIZE
    ensures |Pending(s)| <= 63
  {
  }

  lemma FetchDoes(s: State, a: Action)
    requires Inv(s) && Enabled(s, a) && (a.CallFetch? || a.WakeFetch?) && Inv(Step(s, a))
    ensures Does(s, a, Step(s, a))
  {
    hide Pending, Empty, SlotsOk, Callbacks;
    var u := Step(s, a);
    RoomIs(s);
    if Empty(s) {
      SamePending(s, u);
    } else {
      var v := if a.WakeFetch? then s.(waitFetch := s.waitFetch - 1) else s;
      SamePending(s, v);
      SameEmpty(s, v);
      TakePending(v);
      SamePending(Take(v), u);
    }
  }

  lemma HandDoes(s: State, a: Action)
    requires Inv(s) && Enabled(s, a) && (a.TimeOut? || a.Handle? || a.ReadSlot? || a.Release?) && Inv(Step(s, a))
    ensures Does(s, a, Step(s, a))
  {
    hide Pending, SlotsOk, Callbacks;
    SamePending(s, Step(s, a));
    if a.ReadSlot? {
      SlotHolds(s, Unreleased(s));
    }
  }

  lemma InputDoes(s: State, packet: nat, memory: bool)
    requires Inv(s) && Inv(Step(s, Input(packet, memory)))
    ensures Does(s, Input(packet, memory), Step(s, Input(packet, memory)))
  {
    hide Pending, Full, QueueFull, Packets, Made, Held, Callbacks;
    RoomIs(s);
    FewerThan(s);
    RoomLeft(s, |Unreleased(s)|);
    var u := Accept(s, packet);
    if !Full(s) && !QueueFull(s) {
      SamePending(s, u);
      if memory {
        SameFull(s, u);
        PutPending(u, Callback(s.lastMSG, s.allocs, packet));
        SamePending(Put(u, Callback(s.lastMSG, s.allocs, packet)), Step(s, Input(packet, memory)));
      } else {
        SamePending(u, Step(s, Input(packet, memory)));
      }
    }
  }

  /** When a step can happen: a thread that waits is always counted, so that it is woken, and a
      callback always has a slot. */
  lemma AnyTime(s: State, a: Action)
    requires Inv(s)
    ensures Enabled(s, a) <==> match a
                               case CallPost(t, _) => t !in s.blocked
                               case WakePost(t) => t in s.blocked
                               case CallFetch => s.fetcher == Idle
                               case WakeFetch => s.fetcher == Waiting
                               case TimeOut => s.fetcher == Waiting
                               case Handle => s.fetcher.Holding? && s.fetcher.msg.Post?
                               case ReadSlot => s.fetcher.Holding? && s.fetcher.msg.Callback?
                               case Release => s.fetcher.Read?
                               case Input(_, _) => true
  {
    hide Pending, SlotsOk, Callbacks;
    if a.WakePost? && a.t in s.blocked {
      MapShrinks(s.blocked, a.t);
    }
    if a.ReadSlot? && s.fetcher.Holding? && s.fetcher.msg.Callback? {
      SlotHolds(s, Unreleased(s));
    }
  }

  /** Every step does exactly this. */
  lemma StepDoes(s: State, a: Action)
    requires Inv(s) && Enabled(s, a)
    ensures Inv(Step(s, a)) && Does(s, a, Step(s, a))
  {
    hide SlotsOk, FetcherOk, Step, Does, Pending;
    StepInv(s, a);
    match a
    case CallPost(t, id) => PostDoes(s, a);
    case WakePost(t) => PostDoes(s, a);
    case CallFetch => FetchDoes(s, a);
    case WakeFetch => FetchDoes(s, a);
    case TimeOut => HandDoes(s, a);
    case Handle => HandDoes(s, a);
    case ReadSlot => HandDoes(s, a);
    case Release => HandDoes(s, a);
    case Input(packet, memory) => InputDoes(s, packet, memory);
  }

  // ----- whole runs -----

  /** A run: actions that are not enabled do not happen. */
  function Run(s: State, actions: seq<Action>): State
    requires Indexed(s)
    decreases |actions|
  {
    if actions == [] then s
    else
      var u := if Enabled(s, actions[0]) then Step(s, actions[0]) else s;
      if Indexed(u) then Run(u, actions[1..]) else u
  }

  lemma {:induction false} RunInv(s: State, actions: seq<Action>)
    requires Inv(s)
    ensures Inv(Run(s, actions)) && Run(s, actions).leaks >= s.leaks
    decreases |actions|
  {
    hide Pending, SlotsOk, FetcherOk, Step, Enabled;
    if actions != [] {
      var a := actions[0];
      if Enabled(s, a) {
        StepInv(s, a);
        LeaksStay(s, a);
        RunInv(Step(s, a), actions[1..]);
      } else {
        RunInv(s, actions[1..]);
      }
    }
  }

  /** The messages that threads hand to sys_mbox_post in a run, in order. */
  function Handed(s: State, actions: seq<Action>): seq<Msg>
    requires Indexed(s)
    decreases |actions|
  {
    if actions == [] then []
    else
      var a := actions[0];
      var u := if Enabled(s, a) then Step(s, a) else s;
      (if a.CallPost? && a.t !in s.blocked then [Post(a.id)] else []) + if Indexed(u) then Handed(u, actions[1..]) else []
  }

  /** The packets of a run that find room and memory, in order. */
  ghost function Arrived(s: State, actions: seq<Action>): seq<nat>
    requires Indexed(s)
    decreases |actions|
  {
    if actions == [] then []
    else
      var a := actions[0];
      var u := if Enabled(s, a) then Step(s, a) else s;
      (if a.Input? && a.memory && Fifo(s) && Roomy(s) then [a.packet] else []) + if Indexed(u) then Arrived(u, actions[1..]) else []
  }

  /** The threads that wait to post m. */
  function Waiters(blocked: map<nat, Msg>, m: Msg): set<nat> {
    set t | t in blocked && blocked[t] == m
  }

  /** How often m has been stored or is held by a waiting thread. */
  ghost function Copies(s: State, m: Msg): nat {
    multiset(s.posted)[m] + |Waiters(s.blocked, m)|
  }

  lemma OneHanded(s: State, a: Action, m: Msg)
    requires Inv(s) && Enabled(s, a) && m.Post?
    ensures Copies(Step(s, a), m) == Copies(s, m) + if a.CallPost? && m == Post(a.id) then 1 else 0
  {
    hide SlotsOk, Pending, Step, FetcherOk, Copies, Posts, Fetches, Turns, Receives;
    StepDoes(s, a);
    if a.CallPost? {
      PostHands(s, a.t, Post(a.id), Step(s, a), m);
    } else if a.WakePost? {
      PostHands(s, a.t, s.blocked[a.t], Step(s, a), m);
    } else {
      OtherHands(s, a, Step(s, a), m);
    }
  }

  lemma PostHands(s: State, t: nat, n: Msg, u: State, m: Msg)
    requires Fifo(s) && Fifo(u) && (t in s.blocked ==> s.blocked[t] == n) && Posts(s, t, n, u)
    ensures Copies(u, m) == Copies(s, m) + if t !in s.blocked && m == n then 1 else 0
  {
    hide Pending, Waiters;
    StoredNow(s, u, n);
    Waits(s.blocked, t, n, m);
  }

  lemma OtherHands(s: State, a: Action, u: State, m: Msg)
    requires Fifo(s) && Fifo(u) && Enabled(s, a) && Does(s, a, u) && !a.CallPost? && !a.WakePost? && m.Post?
    ensures Copies(u, m) == Copies(s, m)
  {
    hide Pending, Waiters, Roomy;
    StoredNow(s, u, if a.Input? then Callback(s.lastMSG, s.allocs, a.packet) else m);
  }

  /** What has been stored follows from what was taken and what waits. */
  lemma StoredNow(s: State, u: State, n: Msg)
    requires Fifo(s) && Fifo(u)
    ensures u.fetched == s.fetched && Pending(u) == Pending(s) + [n] ==> u.posted == s.posted + [n]
    ensures u.fetched == s.fetched && Pending(u) == Pending(s) ==> u.posted == s.posted
    ensures Pending(s) != [] && u.fetched == s.fetched + [Pending(s)[0]] && Pending(s) == [Pending(s)[0]] + Pending(u) ==>
              u.posted == s.posted
  {
    hide Pending;
    var p, q := Pending(s), Pending(u);
    assert s.fetched + (p + [n]) == s.fetched + p + [n];
    if p != [] {
      assert s.fetched + [p[0]] + q == s.fetched + ([p[0]] + q);
    }
  }

  /** A thread starts or stops waiting with n. */
  lemma Waits(blocked: map<nat, Msg>, t: nat, n: Msg, m: Msg)
    requires t in blocked ==> blocked[t] == n
    ensures |Waiters(blocked[t := n], m)| == |Waiters(blocked - {t}, m)| + if m == n then 1 else 0
    ensures blocked == if t in blocked then blocked[t := n] else blocked - {t}
  {
    var w := Waiters(blocked - {t}, m);
    assert Waiters(blocked[t := n], m) == if m == n then w + {t} else w;
  }

  /** No message is dropped: what threads hand over is stored, or its thread waits. */
  lemma {:induction false} NothingDropped(s: State, actions: seq<Action>, m: Msg)
    requires Inv(s) && m.Post?
    ensures Copies(Run(s, actions), m) == Copies(s, m) + multiset(Handed(s, actions))[m]
    decreases |actions|
  {
    hide Pending, SlotsOk, FetcherOk, Step, Enabled, Copies;
    if actions != [] {
      var a := actions[0];
      AnyTime(s, a);
      if Enabled(s, a) {
        StepInv(s, a);
        OneHanded(s, a, m);
        NothingDropped(Step(s, a), actions[1..], m);
      } else {
        NothingDropped(s, actions[1..], m);
      }
    }
  }

  /** The packets accepted are those that find room and memory. */
  lemma {:induction false} AllArrive(s: State, actions: seq<Action>)
    requires Inv(s)
    ensures Run(s, actions).accepted == s.accepted + Arrived(s, actions)
    decreases |actions|
  {
    hide Pending, SlotsOk, FetcherOk, Step, Roomy, Enabled;
    if actions != [] {
      var a := actions[0];
      if Enabled(s, a) {
        OneArrives(s, a);
        AllArrive(Step(s, a), actions[1..]);
      } else {
        Refused(s, a);
        AllArrive(s, actions[1..]);
      }
    }
  }

  lemma Refused(s: State, a: Action)
    requires !Enabled(s, a)
    ensures !a.Input?
  {
  }

  lemma OneArrives(s: State, a: Action)
    requires Inv(s) && Enabled(s, a)
    ensures Inv(Step(s, a))
    ensures Step(s, a).accepted == s.accepted + if a.Input? && a.memory && Roomy(s) then [a.packet] else []
  {
    hide Pending, SlotsOk, FetcherOk, Step, Roomy;
    StepDoes(s, a);
  }

  lemma LeaksStay(s: State, a: Action)
    requires Indexed(s) && Enabled(s, a)
    ensures Step(s, a).leaks >= s.leaks
  {
  }

  /** For every interleaving from the start: messages come out in the order they went in, with
      none lost or overwritten; what threads hand over has gone in, or its thread waits; and every
      packet that found room and memory is delivered at most once, in order, from a slot that
      nothing overwrote. */
  lemma Safety(slots: seq<Msg>, aMSGs: seq<nat>, actions: seq<Action>)
    requires |slots| == SYS_MBOX_SIZE && |aMSGs| == MSG_QUEUE_SIZE
    ensures var s := Run(Init(slots, aMSGs), actions);
      && Indexed(s) && |s.slots| == SYS_MBOX_SIZE && s.posted == s.fetched + Pending(s)
      && s.delivered <= s.accepted == Arrived(Init(slots, aMSGs), actions)
      && (forall m: Msg :: m.Post? ==>
            multiset(s.posted)[m] + |Waiters(s.blocked, m)| == multiset(Handed(Init(slots, aMSGs), actions))[m])
      && (forall i, j :: 0 <= i < j < |Unreleased(s)| ==> Unreleased(s)[i].Callback? && Unreleased(s)[j].Callback?
                                                           && Unreleased(s)[i].slot != Unreleased(s)[j].slot)
  {
    hide Pending, Step, Enabled, Run, Unreleased, Handed, Arrived, Waiters;
    InitInv(slots, aMSGs);
    RunInv(Init(slots, aMSGs), actions);
    var s := Run(Init(slots, aMSGs), actions);
    AllArrive(Init(slots, aMSGs), actions);
    forall m: Msg | m.Post?
      ensures Copies(s, m) == multiset(Handed(Init(slots, aMSGs), actions))[m]
    {
      NothingDropped(Init(slots, aMSGs), actions, m);
      NobodyWaits(Init(slots, aMSGs), m);
    }
    var q := Unreleased(s);
    forall i, j | 0 <= i < j < |q|
      ensures q[i].Callback? && q[j].Callback? && q[i].slot != q[j].slot
    {
      Apart(q[i].n, q[j].n);
    }
  }

  /** A packet is accepted exactly when the mailbox has room and fewer than 15 slots are taken,
      and a failed message allocation takes its slot for good: after 15 failures every packet
      is dropped, in every continuation. */
  lemma LeakedForGood(s: State, actions: seq<Action>, packet: nat, memory: bool)
    requires Inv(s)
    ensures var u := Run(s, actions);
      && Inv(u) && (Step(u, Input(packet, memory)) != u <==> !Full(u) && |Unreleased(u)| + u.leaks < MSG_QUEUE_SIZE - 1)
      && (s.leaks == MSG_QUEUE_SIZE - 1 ==> Step(u, Input(packet, memory)) == u)
  {
    hide Pending, Run, Unreleased, Full, QueueFull;
    RunInv(s, actions);
    var u := Run(s, actions);
    RoomLeft(u, |Unreleased(u)|);
  }

  /** n packets that find no memory for their message. */
  function Failures(n: nat): (q: seq<Action>)
    ensures |q| == n
  {
    seq(n, _ => Input(0, false))
  }

  lemma {:induction false} FailuresLeak(s: State, n: nat)
    requires Indexed(s) && |s.aMSGs| == MSG_QUEUE_SIZE && |s.slots| == SYS_MBOX_SIZE && Empty(s)
    requires s.firstMSG == 0 && s.lastMSG == s.leaks && s.leaks + n < MSG_QUEUE_SIZE
    ensures Run(s, Failures(n)).leaks == s.leaks + n
    decreases n
  {
    var q := Failures(n);
    if n > 0 {
      assert q[0] == Input(0, false) && q[1..] == Failures(n - 1);
      var u := Step(s, q[0]);
      FailuresLeak(u, n - 1);
    }
  }

  /** Fifteen failures from the start are enough for every packet to be dropped from then on. */
  lemma FifteenFailures(slots: seq<Msg>, aMSGs: seq<nat>)
    requires |slots| == SYS_MBOX_SIZE && |aMSGs| == MSG_QUEUE_SIZE
    ensures var s := Run(Init(slots, aMSGs), Failures(15)); Inv(s) && s.leaks == MSG_QUEUE_SIZE - 1
  {
    hide Run, Failures, Step, Pending;
    InitInv(slots, aMSGs);
    FailuresLeak(Init(slots, aMSGs), 15);
    RunInv(Init(slots, aMSGs), Failures(15));
  }
}
