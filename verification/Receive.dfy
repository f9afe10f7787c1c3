/** Slicing the received byte stream: lwip_recvfrom and netbuf_copy_partial
    (iop/SMSTCPIP/sockets.c, api_lib.c). */
module Receive {
  import opened Bytes

  /** A received buffer: the payloads of its packet-buffer chain. */
  type Chain = seq<seq<Byte>>

  function Flat(c: Chain): seq<Byte> {
    if c == [] then [] else c[0] + Flat(c[1..])
  }

  /** Total length fits the 16-bit tot_len. */
  ghost predicate Sized(c: Chain) {
    |Flat(c)| <= 0xFFFF
  }

  lemma {:induction false} FlatStep(c: Chain, i: nat)
    requires i < |c|
    ensures Flat(c[i..]) == c[i] + Flat(c[i + 1..])
  {
    assert c[i..][0] == c[i] && c[i..][1..] == c[i + 1..];
  }

  /** netbuf_copy_partial: at most len bytes of the chain from offset on. */
  method CopyPartial(c: Chain, mem: array<Byte>, len: nat, offset0: nat) returns (left: nat)
    requires offset0 <= |Flat(c)|
    requires mem.Length >= len || mem.Length >= |Flat(c)| - offset0
    modifies mem
    ensures left == if len < |Flat(c)| - offset0 then len else |Flat(c)| - offset0
    ensures mem[..left] == Flat(c)[offset0..offset0 + left]
    ensures forall k :: left <= k < mem.Length ==> mem[k] == old(mem[k])
  {
    hide Flat;
    left := 0;
    var offset: nat := offset0;
    var i := 0;
    ghost var all := Flat(c);
    FlatEnds(c);
    while left < len && i < |c|
      invariant 0 <= i <= |c| && left <= len && left <= |all| - offset0
      invariant offset <= |Flat(c[i..])|
      invariant all[offset0 + left..] == Flat(c[i..])[offset..]
      invariant mem[..left] == all[offset0..offset0 + left]
      invariant forall k :: left <= k < mem.Length ==> mem[k] == old(mem[k])
      decreases |c| - i
    {
      FlatStep(c, i);
      ghost var rest := Flat(c[i + 1..]);
      if offset != 0 && offset >= |c[i]| {
        offset := offset - |c[i]|;
        assert (c[i] + rest)[offset + |c[i]|..] == rest[offset..];
      } else {
        var bufCopyLen := |c[i]| - offset;
        var diff := len - left;
        diff := if bufCopyLen > diff then diff else bufCopyLen;
        Piece(all, offset0, left, c[i], rest, offset, diff);
        CopyBytes(mem, left, c[i], offset, diff);
        left := left + diff;
        if left >= len {
          return;
        }
        offset := 0;
      }
      i := i + 1;
    }
  }

  lemma FlatEnds(c: Chain)
    ensures c[0..] == c && Flat(c[|c|..]) == []
  {
  }

  /** Copying diff bytes of piece x, from offset on. */
  lemma Piece(all: seq<Byte>, a: nat, left: nat, x: seq<Byte>, rest: seq<Byte>, offset: nat, diff: nat)
    requires a + left <= |all| && offset <= |x| && diff <= |x| - offset && all[a + left..] == (x + rest)[offset..]
    ensures a + left + diff <= |all| && all[a..a + left + diff] == all[a..a + left] + x[offset..offset + diff]
    ensures diff == |x| - offset ==> all[a + left + diff..] == rest && rest[0..] == rest
  {
    var from := all[a + left..];
    assert from == x[offset..] + rest;
    assert from[..diff] == x[offset..offset + diff];
    assert all[a..a + left + diff] == all[a..a + left] + from[..diff];
    assert all[a + left + diff..] == from[diff..];
  }

  method CopyBytes(mem: array<Byte>, at: nat, src: seq<Byte>, from: nat, n: nat)
    requires at + n <= mem.Length && from + n <= |src|
    modifies mem
    ensures mem[..at + n] == old(mem[..at]) + src[from..from + n]
    ensures forall k :: at + n <= k < mem.Length ==> mem[k] == old(mem[k])
  {
    forall k | 0 <= k < n {
      mem[at + k] := src[from + k];
    }
  }

  datatype Option<T> = None | Some(value: T)

  const EWOULDBLOCK := 11

  class Socket {
    const tcp: bool
    const nonblocking: bool
    var lastdata: Option<Chain>
    var lastoffset: nat
    var errno: int

    constructor (isTcp: bool, nonblock: bool)
      ensures tcp == isTcp && nonblocking == nonblock && Valid() && lastdata.None?
    {
      tcp, nonblocking, lastdata, lastoffset, errno := isTcp, nonblock, None, 0, 0;
    }

    ghost predicate Valid()
      reads this
    {
      match lastdata
      case None => lastoffset == 0
      case Some(c) => Sized(c) && lastoffset < |Flat(c)|
    }

    /** The received bytes that have not been handed out, buffer by buffer: what is left of the
        kept one, and those the connection still holds. */
    ghost function Stock(net: seq<Chain>): seq<seq<Byte>>
      requires Valid()
      reads this
    {
      (match lastdata case None => [] case Some(c) => [Flat(c)[lastoffset..]]) + Flats(net)
    }

    /** lwip_recvfrom. net0 are the buffers netconn_recv returns, in order, before NULL; n is the
        number of bytes stored in mem. A call takes from the front of the first buffer only; a TCP
        socket keeps the rest of it. The return value is n exactly when len is not negative, or
        wraps to at most what is there. */
    method Recvfrom(mem: array<Byte>, len: int, net0: seq<Chain>, dontWait: bool, rcvevent: bool)
      returns (ret: int, net: seq<Chain>, ghost n: nat)
      requires Valid() && (forall i :: 0 <= i < |net0| ==> Sized(net0[i]))
      requires mem.Length >= 0xFFFF || 0 <= len <= mem.Length
      modifies this, mem
      ensures Valid() && (net == net0 || (net0 != [] && net == net0[1..])) && n <= mem.Length
      ensures ret < 0 <==> old(lastdata).None? && (dontWait || nonblocking) && !rcvevent
      ensures ret < 0 ==> n == 0 && Stock(net) == old(Stock(net0)) && errno == EWOULDBLOCK
      ensures ret >= 0 && old(Stock(net0)) == [] ==> ret == n == 0 && Stock(net) == []
      ensures ret >= 0 && old(Stock(net0)) != [] ==>
                var front := old(Stock(net0))[0];
                && n == (if len < |front| && len % 0x10000 < |front| then len % 0x10000 else |front|)
                && mem[..n] == front[..n]
                && ret == (if len > |front| then |front| else len % 0x10000)
                && (ret == n <==> len >= 0 || len % 0x10000 <= |front|)
                && Stock(net) == if tcp then Taken(old(Stock(net0)), n) else old(Stock(net0))[1..]
    {
      hide Flat;
      net := net0;
      var buf;
      n := 0;
      if lastdata.Some? {
        buf := lastdata.value;
      } else {
        if (dontWait || nonblocking) && !rcvevent {
          errno := EWOULDBLOCK;
          return -1, net, 0;
        }
        if net == [] {
          errno := 0;
          return 0, net, 0;
        }
        buf := net[0];
        net := net[1..];
      }
      ghost var stock := Stock(net0);
      assert stock == [Flat(buf)[lastoffset..]] + Flats(net);
      assert stock[1..] == Flats(net);
      ret, n := FromBuffer(buf, mem, len);
      assert mem[..n] == stock[0][..n];
    }

    /** Copy from the buffer, and keep it while a TCP socket has bytes left in it. */
    method FromBuffer(buf: Chain, mem: array<Byte>, len: int) returns (ret: nat, ghost n: nat)
      requires Sized(buf) && lastoffset <= |Flat(buf)| && (mem.Length >= 0xFFFF || 0 <= len <= mem.Length)
      modifies this, mem
      ensures var avail := |Flat(buf)| - old(lastoffset);
        && n == (if len < avail && len % 0x10000 < avail then len % 0x10000 else avail)
        && ret == (if len > avail then avail else len % 0x10000)
        && (if tcp && n < avail then lastdata == Some(buf) && lastoffset == old(lastoffset) + n
            else lastdata.None? && lastoffset == 0)
      ensures n <= mem.Length && mem[..n] == Flat(buf)[old(lastoffset)..old(lastoffset) + n] && errno == 0
    {
      hide Flat;
      var buflen := TotLen(buf) - lastoffset;
      var copylen := if len > buflen then buflen else len % 0x10000;
      n := CopyPartial(buf, mem, copylen, lastoffset);
      if tcp && buflen - copylen > 0 {
        lastdata := Some(buf);
        lastoffset := lastoffset + copylen;
      } else {
        lastdata := None;
        lastoffset := 0;
      }
      errno := 0;
      ret := copylen;
    }
  }

  /** tot_len of the first packet buffer. */
  function TotLen(c: Chain): (n: nat)
    ensures n == |Flat(c)|
  {
    if c == [] then 0 else |c[0]| + TotLen(c[1..])
  }

  function Flats(net: seq<Chain>): seq<seq<Byte>> {
    seq(|net|, i requires 0 <= i < |net| => Flat(net[i]))
  }

  /** The stock after n bytes have been taken from its first buffer. */
  function Taken(stock: seq<seq<Byte>>, n: nat): seq<seq<Byte>> {
    if stock == [] then [] else if n < |stock[0]| then [stock[0][n..]] + stock[1..] else stock[1..]
  }

  /** How much a call for len bytes gets. */
  function Share(stock: seq<seq<Byte>>, len: nat): nat {
    if stock == [] then 0 else if len < |stock[0]| then len else |stock[0]|
  }

  /** What calls for these lengths get, one piece each. */
  function Pieces(stock: seq<seq<Byte>>, lens: seq<nat>): (r: seq<seq<Byte>>)
    ensures |r| == |lens|
    decreases |lens|
  {
    if lens == [] then []
    else
      var k := Share(stock, lens[0]);
      [if stock == [] then [] else stock[0][..k]] + Pieces(Taken(stock, k), lens[1..])
  }

  function Left(stock: seq<seq<Byte>>, lens: seq<nat>): seq<seq<Byte>>
    decreases |lens|
  {
    if lens == [] then stock else Left(Taken(stock, Share(stock, lens[0])), lens[1..])
  }

  lemma TakenIsRest(stock: seq<seq<Byte>>, n: nat)
    requires stock != [] && n <= |stock[0]|
    ensures Flat(stock) == stock[0][..n] + Flat(Taken(stock, n))
  {
    if n < |stock[0]| {
      var first, rest := stock[0], stock[1..];
      var t := [first[n..]] + rest;
      assert t[0] == first[n..] && t[1..] == rest;
      Rejoin(first, n, Flat(rest));
    } else {
      assert stock[0][..n] == stock[0];
    }
  }

  lemma Rejoin(x: seq<Byte>, n: nat, rest: seq<Byte>)
    requires n <= |x|
    ensures x + rest == x[..n] + (x[n..] + rest)
  {
    assert x == x[..n] + x[n..];
  }

  /** No byte is lost, repeated or out of order: the pieces and what is left are the stock. */
  lemma {:induction false} PiecesAreStock(stock: seq<seq<Byte>>, lens: seq<nat>)
    ensures Flat(Pieces(stock, lens)) + Flat(Left(stock, lens)) == Flat(stock)
    decreases |lens|
  {
    hide Taken;
    if lens != [] {
      var k := Share(stock, lens[0]);
      PiecesAreStock(Taken(stock, k), lens[1..]);
      var first := if stock == [] then [] else stock[0][..k];
      assert Flat(Pieces(stock, lens)) == first + Flat(Pieces(Taken(stock, k), lens[1..]));
      assert Flat(stock) == first + Flat(Taken(stock, k)) by {
        if stock != [] {
          TakenIsRest(stock, k);
        } else {
          NothingTaken(k);
        }
      }
    }
  }

  lemma NothingTaken(k: nat)
    ensures Taken([], k) == []
  {
  }

  lemma {:induction false} OneMore(stock: seq<seq<Byte>>, lens: seq<nat>, len: nat)
    ensures var s := Left(stock, lens); var k := Share(s, len);
      && Pieces(stock, lens + [len]) == Pieces(stock, lens) + [if s == [] then [] else s[0][..k]]
      && Left(stock, lens + [len]) == Taken(s, k)
    decreases |lens|
  {
    hide Taken;
    if lens != [] {
      assert (lens + [len])[0] == lens[0] && (lens + [len])[1..] == lens[1..] + [len];
      OneMore(Taken(stock, Share(stock, lens[0])), lens[1..], len);
    } else {
      assert (lens + [len])[1..] == [];
    }
  }

  /** Successive calls on a TCP socket cut the stock into pieces of the lengths asked for, each
      ending at the latest where its buffer ends. */
  method RecvAll(sock: Socket, lens: seq<nat>, net0: seq<Chain>) returns (out: seq<seq<Byte>>, net: seq<Chain>)
    requires sock.Valid() && sock.tcp && (forall i :: 0 <= i < |net0| ==> Sized(net0[i]))
    modifies sock
    ensures sock.Valid() && out == Pieces(old(sock.Stock(net0)), lens) && sock.Stock(net) == Left(old(sock.Stock(net0)), lens)
    ensures old(Flat(sock.Stock(net0))) == Flat(out) + Flat(sock.Stock(net))
  {
    hide Flat, Pieces, Left, Taken;
    out, net := [], net0;
    ghost var stock := sock.Stock(net0);
    NoneYet(stock);
    for i := 0 to |lens|
      invariant sock.Valid() && (forall i :: 0 <= i < |net| ==> Sized(net[i]))
      invariant out == Pieces(stock, lens[..i]) && sock.Stock(net) == Left(stock, lens[..i])
    {
      var mem := new Byte[if lens[i] > 0xFFFF then lens[i] else 0xFFFF](_ => 0);
      assert lens[..i + 1] == lens[..i] + [lens[i]];
      OneMore(stock, lens[..i], lens[i]);
      var piece;
      piece, net := RecvOne(sock, lens[i], net, mem);
      out := out + [piece];
    }
    assert lens[..|lens|] == lens;
    PiecesAreStock(stock, lens);
  }

  lemma NoneYet(stock: seq<seq<Byte>>)
    ensures Pieces(stock, []) == [] && Left(stock, []) == stock
  {
  }

  /** One call, with memory for what it asks for. */
  method RecvOne(sock: Socket, len: nat, net0: seq<Chain>, mem: array<Byte>) returns (piece: seq<Byte>, net: seq<Chain>)
    requires sock.Valid() && sock.tcp && (forall i :: 0 <= i < |net0| ==> Sized(net0[i])) && mem.Length >= 0xFFFF
    modifies sock, mem
    ensures sock.Valid() && (net == net0 || (net0 != [] && net == net0[1..]))
    ensures var s := old(sock.Stock(net0)); var k := Share(s, len);
      piece == (if s == [] then [] else s[0][..k]) && sock.Stock(net) == Taken(s, k)
  {
    hide Flat;
    ghost var s := sock.Stock(net0);
    FrontIsSized(sock, net0);
    var ret, next, n := sock.Recvfrom(mem, len, net0, false, net0 != []);
    net := next;
    piece := mem[..if ret > 0 then ret else 0];
  }

  lemma FrontIsSized(sock: Socket, net: seq<Chain>)
    requires sock.Valid() && forall i :: 0 <= i < |net| ==> Sized(net[i])
    ensures sock.Stock(net) != [] ==> |sock.Stock(net)[0]| <= 0xFFFF
    ensures sock.Stock(net) == [] ==> sock.lastdata.None? && net == []
  {
    hide Flat;
  }

  /** A negative length: three bytes are stored, and 65535 is returned. */
  method NegativeLength() returns (ret: int, ghost n: nat)
    ensures ret == 65535 && n == 3
  {
    var sock := new Socket(true, false);
    var mem := new Byte[0xFFFF](_ => 0);
    var chain: Chain := [[1, 2, 3]];
    assert chain[1..] == [] && Flat(chain) == [1, 2, 3] + Flat([]) == [1, 2, 3];
    assert sock.Stock([chain])[0] == [1, 2, 3];
    var net;
    ret, net, n := sock.Recvfrom(mem, -1, [chain], false, true);
  }
}
