/** Sysbus packets on a byte stream: the encoders of apps/sysbus/lib_src/libsysbus.c and the
    reassembly loops of the client (same file) and of apps/sysbus/src/local_server.c. */
module Framing {
  import opened Basics
  import opened Bytes

  const RX_BUF_SIZE := 65540

  /** What the packet callback is given: an id, a length that a malformed header can make negative,
      and the bytes it covers. */
  datatype Packet = Packet(id: nat, len: int, payload: seq<Byte>)

  /** `pkt_size` and `pkt_id` of the packet that starts at `i`. */
  function SizeAt(s: seq<Byte>, i: nat): nat
    requires i + 4 <= |s|
  {
    U16(s[i], s[i + 1])
  }

  function IdAt(s: seq<Byte>, i: nat): nat
    requires i + 4 <= |s|
  {
    U16(s[i + 2], s[i + 3])
  }

  /** A whole packet starts at `i`. The client looks at it from 4 bytes on, the server from 5. */
  predicate Complete(least: nat, s: seq<Byte>, i: nat)
    requires 4 <= least
  {
    i + least <= |s| && i + SizeAt(s, i) + 2 <= |s|
  }

  /** The bytes from `i` up to `k`. */
  function Span(s: seq<Byte>, i: nat, k: nat): (r: seq<Byte>)
    requires k <= |s|
    decreases k - i
  {
    if k <= i then [] else [s[i]] + Span(s, i + 1, k)
  }

  lemma {:induction false} SpanSlice(s: seq<Byte>, i: nat, k: nat)
    requires i <= k <= |s|
    ensures Span(s, i, k) == s[i..k]
    decreases k - i
  {
    if i < k {
      SpanSlice(s, i + 1, k);
    }
  }

  function PacketIn(s: seq<Byte>, i: nat): Packet
    requires i + 4 <= |s| && i + SizeAt(s, i) + 2 <= |s|
  {
    Packet(IdAt(s, i), SizeAt(s, i) - 2, Span(s, i + 4, i + SizeAt(s, i) + 2))
  }

  lemma {:induction false} SpanShifted(s: seq<Byte>, t: seq<Byte>, d: nat, i: nat, k: nat)
    requires d <= |s| && t == s[d..] && k <= |t|
    ensures Span(s, d + i, d + k) == Span(t, i, k)
    decreases k - i
  {
    if i < k {
      SpanShifted(s, t, d, i + 1, k);
      assert s[d + i] == t[i];
    }
  }

  lemma {:induction false} SpanExtended(a: seq<Byte>, ab: seq<Byte>, i: nat, k: nat)
    requires a <= ab && k <= |a|
    ensures Span(ab, i, k) == Span(a, i, k)
    decreases k - i
  {
    if i < k {
      SpanExtended(a, ab, i + 1, k);
    }
  }

  /** The packets from `i` on, and where the first incomplete one starts. */
  function PacketsFrom(least: nat, s: seq<Byte>, i: nat): seq<Packet>
    requires 4 <= least
    decreases |s| - i
  {
    if Complete(least, s, i) then [PacketIn(s, i)] + PacketsFrom(least, s, i + SizeAt(s, i) + 2) else []
  }

  function StopFrom(least: nat, s: seq<Byte>, i: nat): nat
    requires 4 <= least
    decreases |s| - i
  {
    if Complete(least, s, i) then StopFrom(least, s, i + SizeAt(s, i) + 2) else i
  }

  /** The packets of a stream, and the bytes left over. */
  function Packets(least: nat, s: seq<Byte>): seq<Packet>
    requires 4 <= least
  {
    PacketsFrom(least, s, 0)
  }

  function Rest(least: nat, s: seq<Byte>): seq<Byte>
    requires 4 <= least
  {
    StopInside(least, s, 0);
    s[StopFrom(least, s, 0)..]
  }

  lemma {:induction false} StopInside(least: nat, s: seq<Byte>, i: nat)
    requires 4 <= least && i <= |s|
    ensures i <= StopFrom(least, s, i) <= |s| && !Complete(least, s, StopFrom(least, s, i))
    decreases |s| - i
  {
    if Complete(least, s, i) {
      StopInside(least, s, i + SizeAt(s, i) + 2);
    }
  }

  lemma {:induction false} ShiftedPacket(least: nat, s: seq<Byte>, t: seq<Byte>, d: nat, i: nat)
    requires 4 <= least && d <= |s| && t == s[d..] && Complete(least, t, i)
    ensures Complete(least, s, d + i) && SizeAt(s, d + i) == SizeAt(t, i) && PacketIn(s, d + i) == PacketIn(t, i)
  {
    SpanShifted(s, t, d, i + 4, i + SizeAt(t, i) + 2);
  }

  lemma {:induction false} ExtendedPacket(least: nat, a: seq<Byte>, ab: seq<Byte>, i: nat)
    requires 4 <= least && a <= ab && Complete(least, a, i)
    ensures Complete(least, ab, i) && SizeAt(ab, i) == SizeAt(a, i) && PacketIn(ab, i) == PacketIn(a, i)
  {
    SpanExtended(a, ab, i + 4, i + SizeAt(a, i) + 2);
  }

  /** Bytes before `d` do not matter. */
  lemma {:induction false} ShiftStop(least: nat, s: seq<Byte>, t: seq<Byte>, d: nat, i: nat)
    requires 4 <= least && d <= |s| && i <= |s| - d && t == s[d..]
    ensures StopFrom(least, s, d + i) == d + StopFrom(least, t, i)
    decreases |s| - d - i
  {
    if Complete(least, t, i) {
      ShiftedPacket(least, s, t, d, i);
      ShiftStop(least, s, t, d, i + SizeAt(t, i) + 2);
    } else {
      assert !Complete(least, s, d + i);
    }
  }

  lemma {:induction false} ShiftPackets(least: nat, s: seq<Byte>, t: seq<Byte>, d: nat, i: nat)
    requires 4 <= least && d <= |s| && i <= |s| - d && t == s[d..]
    ensures PacketsFrom(least, s, d + i) == PacketsFrom(least, t, i)
    decreases |s| - d - i
  {
    if Complete(least, t, i) {
      ShiftedPacket(least, s, t, d, i);
      ShiftPackets(least, s, t, d, i + SizeAt(t, i) + 2);
    } else {
      assert !Complete(least, s, d + i);
    }
  }

  /** Bytes that come later do not change what is complete already. */
  lemma {:induction false} ExtendStop(least: nat, a: seq<Byte>, ab: seq<Byte>, i: nat)
    requires 4 <= least && i <= |a| && a <= ab
    ensures StopFrom(least, ab, i) == StopFrom(least, ab, StopFrom(least, a, i))
    decreases |a| - i
  {
    if Complete(least, a, i) {
      ExtendedPacket(least, a, ab, i);
      ExtendStop(least, a, ab, i + SizeAt(a, i) + 2);
    }
  }

  lemma {:induction false} ExtendPackets(least: nat, a: seq<Byte>, ab: seq<Byte>, i: nat)
    requires 4 <= least && i <= |a| && a <= ab
    ensures PacketsFrom(least, ab, i) == PacketsFrom(least, a, i) + PacketsFrom(least, ab, StopFrom(least, a, i))
    decreases |a| - i
  {
    if Complete(least, a, i) {
      var k := i + SizeAt(a, i) + 2;
      ExtendedPacket(least, a, ab, i);
      ExtendPackets(least, a, ab, k);
      Associative([PacketIn(a, i)], PacketsFrom(least, a, k), PacketsFrom(least, ab, StopFrom(least, a, k)));
    } else {
      assert PacketsFrom(least, a, i) == [];
    }
  }

  /** Where the stream is cut does not matter: what comes out is a function of the bytes alone. */
  lemma {:induction false} CutAnywhere(least: nat, a: seq<Byte>, b: seq<Byte>)
    requires 4 <= least
    ensures Packets(least, a + b) == Packets(least, a) + Packets(least, Rest(least, a) + b)
    ensures Rest(least, a + b) == Rest(least, Rest(least, a) + b)
  {
    var d, ab := StopFrom(least, a, 0), a + b;
    StopInside(least, a, 0);
    StopInside(least, ab, 0);
    ExtendStop(least, a, ab, 0);
    ExtendPackets(least, a, ab, 0);
    var t := Rest(least, a) + b;
    SliceOfSum(a, b, d);
    ShiftStop(least, ab, t, d, 0);
    ShiftPackets(least, ab, t, d, 0);
    StopInside(least, t, 0);
    SliceTwice(ab, d, StopFrom(least, t, 0));
  }

  lemma {:induction false} SliceOfSum(a: seq<Byte>, b: seq<Byte>, d: nat)
    requires d <= |a|
    ensures (a + b)[d..] == a[d..] + b
  {
  }

  lemma {:induction false} SliceTwice(s: seq<Byte>, d: nat, e: nat)
    requires d + e <= |s|
    ensures s[d..][e..] == s[d + e..]
  {
  }

  /** The buffer can always take more: an incomplete packet leaves at least four bytes free. */
  lemma {:induction false} RestIsShort(least: nat, s: seq<Byte>)
    requires 4 <= least <= 5
    ensures |Rest(least, s)| <= 65536 < RX_BUF_SIZE
  {
    StopInside(least, s, 0);
  }

  // ----- many reads -----

  function Concat(chunks: seq<seq<Byte>>): seq<Byte> {
    if chunks == [] then [] else Concat(chunks[..|chunks| - 1]) + chunks[|chunks| - 1]
  }

  /** What the loop holds and has delivered after a number of reads. */
  datatype Receiver = Receiver(held: seq<Byte>, delivered: seq<Packet>)

  function Receive(least: nat, r: Receiver, chunk: seq<Byte>): Receiver
    requires 4 <= least
  {
    Receiver(Rest(least, r.held + chunk), r.delivered + Packets(least, r.held + chunk))
  }

  function ReceiveAll(least: nat, chunks: seq<seq<Byte>>): Receiver
    requires 4 <= least
  {
    if chunks == [] then Receiver([], [])
    else Receive(least, ReceiveAll(least, chunks[..|chunks| - 1]), chunks[|chunks| - 1])
  }

  lemma {:induction false} AnyChunking(least: nat, chunks: seq<seq<Byte>>)
    requires 4 <= least
    ensures ReceiveAll(least, chunks) == Receiver(Rest(least, Concat(chunks)), Packets(least, Concat(chunks)))
    decreases |chunks|
  {
    if chunks != [] {
      var init, last := chunks[..|chunks| - 1], chunks[|chunks| - 1];
      AnyChunking(least, init);
      CutAnywhere(least, Concat(init), last);
    }
  }

  // ----- encoding -----

  /** The bytes `sysbus_msg_send` writes. */
  function Encode(id: nat, data: seq<Byte>): seq<Byte> {
    [LowByte(|data| + 2), HighByte(|data| + 2), LowByte(id), HighByte(id)] + data
  }

  /** The packets `sysbus_msg_send` accepts. */
  predicate Sendable(p: Packet) {
    p.id < 65536 && p.len == |p.payload| <= 65533
  }

  function EncodeAll(ps: seq<Packet>): seq<Byte> {
    if ps == [] then [] else Encode(ps[0].id, ps[0].payload) + EncodeAll(ps[1..])
  }

  /** A packet and what follows it. */
  lemma {:induction false} EncodedFirst(least: nat, p: Packet, tail: seq<Byte>)
    requires 4 <= least <= 5 && Sendable(p) && least <= |p.payload| + 4 + |tail|
    ensures Packets(least, Encode(p.id, p.payload) + tail) == [p] + Packets(least, tail)
    ensures Rest(least, Encode(p.id, p.payload) + tail) == Rest(least, tail)
  {
    var e := Encode(p.id, p.payload);
    var s, n := e + tail, |e|;
    EncodedHeader(p, tail);
    assert s[n..] == tail;
    ShiftStop(least, s, tail, n, 0);
    ShiftPackets(least, s, tail, n, 0);
    StopInside(least, tail, 0);
    SliceTwice(s, n, StopFrom(least, tail, 0));
  }

  lemma {:induction false} EncodedHeader(p: Packet, tail: seq<Byte>)
    requires Sendable(p)
    ensures var s := Encode(p.id, p.payload) + tail;
      SizeAt(s, 0) + 2 == |Encode(p.id, p.payload)| && PacketIn(s, 0) == p
  {
    U16RoundTrip(|p.payload| + 2);
    U16RoundTrip(p.id);
    var s := Encode(p.id, p.payload) + tail;
    SpanSlice(s, 4, |p.payload| + 4);
    assert s[4..|p.payload| + 4] == p.payload;
  }

  /** The start of a packet that has not arrived in full. */
  ghost predicate ProperPrefix(s: seq<Byte>, p: Packet) {
    Sendable(p) && s < Encode(p.id, p.payload)
  }

  lemma {:induction false} PrefixIncomplete(least: nat, s: seq<Byte>, p: Packet)
    requires 4 <= least && ProperPrefix(s, p)
    ensures Packets(least, s) == [] && Rest(least, s) == s
  {
    U16RoundTrip(|p.payload| + 2);
    var e := Encode(p.id, p.payload);
    assert 4 <= |s| ==> s[0] == e[0] && s[1] == e[1];
  }

  /** Exactly the packets sent come out, in order, and only the unfinished one stays behind. The
      client loop delivers empty packets as well; the server loop needs a fifth byte. */
  lemma {:induction false} Reassembled(least: nat, ps: seq<Packet>, s: seq<Byte>, next: Packet)
    requires 4 <= least <= 5 && (forall i :: 0 <= i < |ps| ==> Sendable(ps[i])) && ProperPrefix(s, next)
    requires least == 4 || ps == [] || s != [] || ps[|ps| - 1].payload != []
    ensures Packets(least, EncodeAll(ps) + s) == ps && Rest(least, EncodeAll(ps) + s) == s
    decreases |ps|
  {
    if ps == [] {
      PrefixIncomplete(least, s, next);
      assert EncodeAll(ps) + s == s;
    } else {
      var e, t := Encode(ps[0].id, ps[0].payload), EncodeAll(ps[1..]);
      Associative(e, t, s);
      if |ps| > 1 {
        EncodeAtLeast(ps[1..]);
        assert ps[1..][|ps| - 2] == ps[|ps| - 1];
      }
      EncodedFirst(least, ps[0], t + s);
      Reassembled(least, ps[1..], s, next);
      assert [ps[0]] + ps[1..] == ps;
    }
  }

  lemma {:induction false} EncodeAtLeast(ps: seq<Packet>)
    requires ps != []
    ensures |EncodeAll(ps)| >= 4
  {
  }

  /** The server holds back an empty packet at the end of what it has read, and only that. */
  lemma {:induction false} ServerHoldsBackEmpty(ps: seq<Packet>)
    requires forall i :: 0 <= i < |ps| ==> Sendable(ps[i])
    ensures Packets(5, EncodeAll(ps)) == ps <==> ps == [] || ps[|ps| - 1].payload != []
  {
    var n := |ps|;
    var dummy := Packet(0, 1, [0]);
    if n > 0 && ps[n - 1].payload == [] {
      var init, last := ps[..n - 1], Encode(ps[n - 1].id, []);
      EncodeAppend(init, ps[n - 1]);
      assert init + [ps[n - 1]] == ps;
      HeldBack(init, last);
    } else {
      assert EncodeAll(ps) == EncodeAll(ps) + [];
      Reassembled(5, ps, [], dummy);
    }
  }

  lemma {:induction false} HeldBack(ps: seq<Packet>, s: seq<Byte>)
    requires (forall i :: 0 <= i < |ps| ==> Sendable(ps[i])) && |s| == 4
    ensures Packets(5, EncodeAll(ps) + s) == ps
    decreases |ps|
  {
    if ps == [] {
      assert EncodeAll(ps) + s == s;
    } else {
      var e, t := Encode(ps[0].id, ps[0].payload), EncodeAll(ps[1..]);
      Associative(e, t, s);
      EncodedFirst(5, ps[0], t + s);
      HeldBack(ps[1..], s);
      assert [ps[0]] + ps[1..] == ps;
    }
  }

  lemma {:induction false} EncodeAppend(ps: seq<Packet>, p: Packet)
    ensures EncodeAll(ps + [p]) == EncodeAll(ps) + Encode(p.id, p.payload)
    decreases |ps|
  {
    if ps == [] {
      assert (ps + [p])[1..] == [];
    } else {
      EncodeAppend(ps[1..], p);
      assert (ps + [p])[1..] == ps[1..] + [p];
      Associative(Encode(ps[0].id, ps[0].payload), EncodeAll(ps[1..]), Encode(p.id, p.payload));
    }
  }

  /** Every packet sent arrives, however the stream is cut into reads. */
  lemma {:induction false} EverySentPacketArrives(least: nat, ps: seq<Packet>, chunks: seq<seq<Byte>>)
    requires 4 <= least <= 5 && Concat(chunks) == EncodeAll(ps)
    requires forall i :: 0 <= i < |ps| ==> Sendable(ps[i])
    requires least == 4 || ps == [] || ps[|ps| - 1].payload != []
    ensures ReceiveAll(least, chunks) == Receiver([], ps)
  {
    AnyChunking(least, chunks);
    assert EncodeAll(ps) == EncodeAll(ps) + [];
    Reassembled(least, ps, [], Packet(0, 1, [0]));
  }

  // ----- the loops -----

  /** The loop has delivered the packets before `i`. */
  ghost predicate Parsed(least: nat, rx: seq<Byte>, i: nat, delivered: seq<Packet>)
    requires 4 <= least
  {
    && i <= |rx| && StopFrom(least, rx, 0) == StopFrom(least, rx, i)
    && PacketsFrom(least, rx, 0) == delivered + PacketsFrom(least, rx, i)
  }

  lemma {:induction false} ParsedNone(least: nat, rx: seq<Byte>)
    requires 4 <= least
    ensures Parsed(least, rx, 0, [])
  {
  }

  lemma {:induction false} ParsedOne(least: nat, rx: seq<Byte>, i: nat, delivered: seq<Packet>)
    requires 4 <= least && Parsed(least, rx, i, delivered) && Complete(least, rx, i)
    ensures Parsed(least, rx, i + SizeAt(rx, i) + 2, delivered + [PacketIn(rx, i)])
  {
    Associative(delivered, [PacketIn(rx, i)], PacketsFrom(least, rx, i + SizeAt(rx, i) + 2));
  }

  lemma {:induction false} ParsedAll(least: nat, rx: seq<Byte>, i: nat, delivered: seq<Packet>)
    requires 4 <= least <= 5 && Parsed(least, rx, i, delivered) && !Complete(least, rx, i)
    ensures delivered == Packets(least, rx) && Rest(least, rx) == rx[i..] && |rx| - i <= 65536
  {
    RestIsShort(least, rx);
  }

  /** The packet loop of `sysbus_rx_thread` over the bytes in the buffer. */
  method ClientScan(rx: seq<Byte>) returns (i: nat, delivered: seq<Packet>)
    ensures i <= |rx| && |rx| - i <= 65536
    ensures delivered == Packets(4, rx) && Rest(4, rx) == rx[i..]
  {
    i, delivered := 0, [];
    ParsedNone(4, rx);
    while i + 3 < |rx|
      invariant Parsed(4, rx, i, delivered)
    {
      var size: int := U16(rx[i], rx[i + 1]);
      var id := U16(rx[i + 2], rx[i + 3]);
      if i + size + 2 > |rx| {
        break;
      }
      var packet := Packet(id, size - 2, if size <= 2 then [] else rx[i + 4..i + size + 2]);
      if size > 2 {
        SpanSlice(rx, i + 4, i + size + 2);
      }
      assert packet == PacketIn(rx, i);
      ParsedOne(4, rx, i, delivered);
      delivered := delivered + [packet];
      i := i + size + 2;
    }
    ParsedAll(4, rx, i, delivered);
  }

  /** The packet loop of `com_fd_rd_callback` over the bytes in the buffer. */
  method ServerScan(rx: seq<Byte>) returns (base: nat, delivered: seq<Packet>)
    ensures base <= |rx| && |rx| - base <= 65536
    ensures delivered == Packets(5, rx) && Rest(5, rx) == rx[base..]
  {
    base, delivered := 0, [];
    ParsedNone(5, rx);
    while |rx| > 4 + base
      invariant Parsed(5, rx, base, delivered)
    {
      var size: int := U16(rx[base], rx[base + 1]);
      var id := U16(rx[base + 2], rx[base + 3]);
      if base + size + 2 > |rx| {
        break;
      }
      var packet := Packet(id, size - 2, if size <= 2 then [] else rx[base + 4..base + size + 2]);
      if size > 2 {
        SpanSlice(rx, base + 4, base + size + 2);
      }
      assert packet == PacketIn(rx, base);
      ParsedOne(5, rx, base, delivered);
      delivered := delivered + [packet];
      base := base + size + 2;
    }
    ParsedAll(5, rx, base, delivered);
  }

  /** The receive buffer of a connection and how much of it is filled. */
  class RxBuffer {
    const buf: array<Byte>
    var filled: nat

    ghost predicate Valid()
      reads this
    {
      buf.Length == RX_BUF_SIZE && filled <= 65536
    }

    ghost function Held(): seq<Byte>
      requires Valid()
      reads this, buf
    {
      buf[..filled]
    }

    constructor ()
      ensures Valid() && Held() == [] && fresh(buf)
    {
      buf := new Byte[RX_BUF_SIZE];
      filled := 0;
    }

    /** `read` into the free part of the buffer. */
    method Fill(chunk: seq<Byte>)
      requires Valid() && |chunk| <= RX_BUF_SIZE - filled
      modifies buf
      ensures buf[..filled + |chunk|] == old(Held()) + chunk
    {
      for i := 0 to |chunk|
        invariant buf[..filled + i] == old(Held()) + chunk[..i]
      {
        buf[filled + i] := chunk[i];
        assert buf[..filled + i + 1] == buf[..filled + i] + [chunk[i]];
      }
    }

    /** Moving what is left to the front. */
    method Compact(from: nat, total: nat)
      requires Valid() && from <= total <= RX_BUF_SIZE && total - from <= 65536
      modifies this, buf
      ensures Valid() && Held() == old(buf[from..total])
    {
      ghost var s := buf[..];
      for i := 0 to total - from
        invariant forall j :: 0 <= j < i ==> buf[j] == s[from + j]
        invariant forall j :: i <= j < buf.Length ==> buf[j] == s[j]
      {
        buf[i] := buf[from + i];
      }
      filled := total - from;
    }

    /** One pass of `sysbus_rx_thread`: `chunk` is what `read` returned, at least one byte. */
    method ClientReceive(chunk: seq<Byte>) returns (delivered: seq<Packet>)
      requires Valid() && 0 < |chunk| <= RX_BUF_SIZE - filled
      modifies this, buf
      ensures Valid() && Held() == Rest(4, old(Held()) + chunk)
      ensures delivered == Packets(4, old(Held()) + chunk)
    {
      Fill(chunk);
      var total, i := filled + |chunk|, 0;
      i, delivered := ClientScan(buf[..total]);
      assert buf[i..total] == buf[..total][i..];
      Compact(i, total);
    }

    /** The reading half of `com_fd_rd_callback`. */
    method ServerReceive(chunk: seq<Byte>) returns (delivered: seq<Packet>)
      requires Valid() && 0 < |chunk| <= RX_BUF_SIZE - filled
      modifies this, buf
      ensures Valid() && Held() == Rest(5, old(Held()) + chunk)
      ensures delivered == Packets(5, old(Held()) + chunk)
    {
      Fill(chunk);
      var idx, base := filled + |chunk|, 0;
      base, delivered := ServerScan(buf[..idx]);
      assert buf[base..idx] == buf[..idx][base..];
      Compact(base, idx);
    }
  }

  // ----- control packets -----

  function IdBytes(ids: seq<nat>): (s: seq<Byte>)
    ensures |s| == 2 * |ids|
  {
    if ids == [] then [] else [LowByte(ids[0]), HighByte(ids[0])] + IdBytes(ids[1..])
  }

  /** The bytes `sysbus_msg_subscribe` (command 1) and `sysbus_msg_unsubscribe` (command 2) write;
      the size field keeps the low 16 bits of the size. */
  function ControlBytes(command: Byte, ids: seq<nat>): seq<Byte> {
    var n := 2 * |ids| + 4;
    [LowByte(n), HighByte(n), 0, 0, command, 0] + IdBytes(ids)
  }

  /** `sysbus_msg_subscribe`: the ids are written one by one into a buffer that takes 32767 of them. */
  method EncodeControl(command: Byte, ids: seq<nat>) returns (buf: seq<Byte>)
    requires 0 < |ids| <= 32767
    ensures buf == ControlBytes(command, ids) && |buf| <= RX_BUF_SIZE
  {
    var n := 2 * |ids| + 4;
    buf := [LowByte(n), HighByte(n), 0, 0, command, 0];
    ghost var front := buf;
    for i := 0 to |ids|
      invariant ControlBytes(command, ids) == buf + IdBytes(ids[i..])
    {
      assert ids[i..][0] == ids[i] && ids[i..][1..] == ids[i + 1..];
      Associative(buf, [LowByte(ids[i]), HighByte(ids[i])], IdBytes(ids[i + 1..]));
      buf := buf + [LowByte(ids[i]), HighByte(ids[i])];
    }
  }

  /** The ids from offset `k` of the payload of a control packet on. */
  function IdsFrom(payload: seq<Byte>, k: nat): seq<nat>
    decreases |payload| - k
  {
    if k + 2 <= |payload| then [U16(payload[k], payload[k + 1])] + IdsFrom(payload, k + 2) else []
  }

  /** The loop of the server over the ids of a control packet; `i` counts from the size field as in
      `com_fd_rd_callback`, where the payload starts at 2. */
  method DecodeControl(payload: seq<Byte>) returns (ids: seq<nat>)
    requires |payload| + 2 < 65536
    ensures ids == IdsFrom(payload, 2)
  {
    var pktSize, i := |payload| + 2, 4;
    ids := [];
    while i < pktSize - pktSize % 2
      invariant 4 <= i && i % 2 == 0 && IdsFrom(payload, 2) == ids + IdsFrom(payload, i - 2)
      decreases pktSize - i
    {
      var id := U16(payload[i - 2], payload[i - 1]);
      Associative(ids, [id], IdsFrom(payload, i));
      ids := ids + [id];
      i := i + 2;
    }
  }

  lemma {:induction false} IdsRoundTrip(front: seq<Byte>, ids: seq<nat>)
    requires forall i :: 0 <= i < |ids| ==> ids[i] < 65536
    ensures IdsFrom(front + IdBytes(ids), |front|) == ids
    decreases |ids|
  {
    if ids != [] {
      var two := [LowByte(ids[0]), HighByte(ids[0])];
      U16RoundTrip(ids[0]);
      Associative(front, two, IdBytes(ids[1..]));
      IdsRoundTrip(front + two, ids[1..]);
      assert [ids[0]] + ids[1..] == ids;
    }
  }

  /** The first bytes of a control packet, up to and with its first id. */
  lemma {:induction false} ControlFront(command: Byte, ids: seq<nat>)
    requires ids != []
    ensures var s, n := ControlBytes(command, ids), 2 * |ids| + 4;
      |s| == n + 2 && s[..8] == [LowByte(n), HighByte(n), 0, 0, command, 0, LowByte(ids[0]), HighByte(ids[0])]
  {
    var two := [LowByte(ids[0]), HighByte(ids[0])];
    assert IdBytes(ids) == two + IdBytes(ids[1..]) && IdBytes(ids)[..2] == two;
  }

  /** A packet so short that it covers no payload. */
  lemma {:induction false} ShortPacket(s: seq<Byte>, i: nat)
    requires i + 5 <= |s| && SizeAt(s, i) <= 2
    ensures PacketsFrom(5, s, i)
        == [Packet(IdAt(s, i), SizeAt(s, i) - 2, [])] + PacketsFrom(5, s, i + SizeAt(s, i) + 2)
  {
  }

  /** The server gets a control packet as it was meant exactly when the number of ids fits the size field. */
  lemma {:induction false} ControlRoundTrip(command: Byte, ids: seq<nat>)
    requires 0 < |ids| <= 32767 && forall i :: 0 <= i < |ids| ==> ids[i] < 65536
    ensures |ids| <= 32765 <==>
      Packets(5, ControlBytes(command, ids)) == [Packet(0, 2 * |ids| + 2, [command, 0] + IdBytes(ids))]
    ensures IdsFrom([command, 0] + IdBytes(ids), 2) == ids
  {
    var p, s := Packet(0, 2 * |ids| + 2, [command, 0] + IdBytes(ids)), ControlBytes(command, ids);
    U16RoundTrip(2 * |ids| + 4);
    IdsRoundTrip([command, 0], ids);
    if |ids| <= 32765 {
      assert s == Encode(0, p.payload) + [];
      EncodedFirst(5, p, []);
      assert Packets(5, []) == [];
    } else {
      ControlFront(command, ids);
      assert s[0] == s[..8][0] && s[1] == s[..8][1];
      ShortPacket(s, 0);
    }
  }

  /** From the command on: its two bytes are taken for a size field. */
  lemma {:induction false} CommandAsSize(s: seq<Byte>, command: Byte)
    requires command <= 2 && 9 <= |s| && s[4] == command && s[5] == 0
    ensures PacketsFrom(5, s, 4) == [Packet(IdAt(s, 4), command - 2, [])] + PacketsFrom(5, s, 6 + command)
  {
    ShortPacket(s, 4);
  }

  /** With a size field of 0 or 2 the server is soon in the middle of the header. */
  lemma {:induction false} ShortHeader(s: seq<Byte>, size: Byte)
    requires size in {0, 2} && 9 <= |s| && s[0] == size && s[1] == s[2] == s[3] == 0
    ensures Packets(5, s)
        == (if size == 0 then [Packet(0, -2, []), Packet(IdAt(s, 2), -2, [])] else [Packet(0, 0, [])])
        + PacketsFrom(5, s, 4)
  {
    ShortPacket(s, 0);
    if size == 0 {
      ShortPacket(s, 2);
      Associative([Packet(0, -2, [])], [Packet(IdAt(s, 2), -2, [])], PacketsFrom(5, s, 4));
    }
  }

  /** What the server makes of too many ids. With 32766 of them the size field is 0, and the second packet that
      the server sees goes out to the subscribers of the command's number; with 32767 the size field is 2. Either
      way the next packet is for the subscribers of the first id, and the rest is read from the middle of the ids. */
  lemma {:induction false} TooManyIds(command: Byte, ids: seq<nat>)
    requires command == 1 || command == 2
    requires 32766 <= |ids| <= 32767 && ids[0] < 65536
    ensures var s := ControlBytes(command, ids);
      Packets(5, s) == (if |ids| == 32766 then [Packet(0, -2, []), Packet(command, -2, [])] else [Packet(0, 0, [])])
          + ([Packet(ids[0], command - 2, [])] + PacketsFrom(5, s, 6 + command))
  {
    var s, size: Byte := ControlBytes(command, ids), if |ids| == 32766 then 0 else 2;
    ControlFront(command, ids);
    var t := s[..8];
    assert s[0] == t[0] && s[1] == t[1] && s[2] == t[2] && s[3] == t[3] && s[4] == t[4] && s[5] == t[5];
    assert s[6] == t[6] && s[7] == t[7];
    U16RoundTrip(ids[0]);
    ShortHeader(s, size);
    CommandAsSize(s, command);
  }

  /** A subscription to topic 7, 32766 times over, is no subscription: the subscribers of topic 1 get an empty
      packet, and those of topic 7 a packet too. */
  lemma {:induction false} SubscribeTooMany()
    ensures var s := ControlBytes(1, seq(32766, _ => 7));
      |Packets(5, s)| >= 3 && Packets(5, s)[..3] == [Packet(0, -2, []), Packet(1, -2, []), Packet(7, -1, [])]
  {
    TooManyIds(1, seq(32766, _ => 7));
  }
}
