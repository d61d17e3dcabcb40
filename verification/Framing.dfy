/** Packets of several connections over one byte stream. */
module Framing {

  type Byte = x: int | 0 <= x < 256

  const MAX_PACKET := 255
  const HEADER := 3

  datatype Packet = Packet(id: int, payload: seq<Byte>)

  // ---------------------------------------------------------------- the wire format

  /** Length, low byte of the id, high byte of the id, each cut to eight bits; then the payload. */
  function Encode(p: Packet): (b: seq<Byte>) {
    [|p.payload| % 256, p.id % 256, (p.id / 256) % 256] + p.payload
  }

  function EncodeAll(ps: seq<Packet>): (b: seq<Byte>) {
    if ps == [] then [] else Encode(ps[0]) + EncodeAll(ps[1..])
  }

  function IdOf(low: int, high: int): int {
    low + high * 256
  }

  /** There is a whole packet, and at least one byte behind its header. */
  predicate Complete(b: seq<Byte>) {
    |b| > HEADER && |b| >= b[0] + HEADER
  }

  function Head(b: seq<Byte>): (p: Packet)
    requires Complete(b)
  {
    Packet(IdOf(b[1], b[2]), b[HEADER..b[0] + HEADER])
  }

  function Rest(b: seq<Byte>): (r: seq<Byte>)
    requires Complete(b)
    ensures |r| < |b|
  {
    b[b[0] + HEADER..]
  }

  /** The packets in a byte string, and what is left behind the last of them. */
  function Packets(b: seq<Byte>): (ps: seq<Packet>)
    decreases |b|
  {
    if Complete(b) then [Head(b)] + Packets(Rest(b)) else []
  }

  function Leftover(b: seq<Byte>): (r: seq<Byte>)
    ensures !Complete(r)
    decreases |b|
  {
    if Complete(b) then Leftover(Rest(b)) else b
  }

  /** What the header can describe: a 16-bit id and at most 255 bytes. */
  predicate Sendable(p: Packet) {
    0 <= p.id < 0x10000 && |p.payload| <= 255
  }

  /** The bytes on the wire: length, low byte of the id, high byte of the id, payload. */
  lemma WireFormat(p: Packet)
    requires Sendable(p)
    ensures var b := Encode(p);
      |b| == 3 + |p.payload| && b[0] == |p.payload| && p.id == b[1] as int + 256 * b[2] as int && b[3..] == p.payload
  {
  }

  /** How a complete buffer is read: its id low byte first, then as many bytes as its length says. */
  lemma HeadBytes(b: seq<Byte>)
    ensures Complete(b) <==> |b| > 3 && |b| - 3 >= b[0]
    ensures Complete(b) ==> Head(b).id % 256 == b[1] && Head(b).id / 256 == b[2] && Head(b).payload == b[3..][..b[0]]
    ensures Complete(b) ==> b[..3] + Head(b).payload + Rest(b) == b
  {
  }

  // ---------------------------------------------------------------- fragmentation

  /** More bytes behind a packet do not change it. */
  lemma HeadStable(a: seq<Byte>, b: seq<Byte>)
    requires Complete(a)
    ensures Complete(a + b) && Head(a + b) == Head(a) && Rest(a + b) == Rest(a) + b
  {
    assert (a + b)[HEADER..a[0] + HEADER] == a[HEADER..a[0] + HEADER];
    assert (a + b)[a[0] + HEADER..] == a[a[0] + HEADER..] + b;
  }

  /** Reading what has arrived and going on with the leftover is reading everything at once. */
  lemma {:induction false} Resume(a: seq<Byte>, b: seq<Byte>)
    ensures Packets(a + b) == Packets(a) + Packets(Leftover(a) + b)
    ensures Leftover(a + b) == Leftover(Leftover(a) + b)
    decreases |a|
  {
    hide Head, Rest;
    if Complete(a) {
      HeadStable(a, b);
      Resume(Rest(a), b);
      assert [Head(a)] + (Packets(Rest(a)) + Packets(Leftover(Rest(a)) + b)) ==
             [Head(a)] + Packets(Rest(a)) + Packets(Leftover(Rest(a)) + b);
    }
  }

  /** The first packet read from a buffer, or that there is none and the buffer stays. */
  ghost predicate ReadFirst(b: seq<Byte>, ps: seq<Packet>, rest: seq<Byte>) {
    if |b| > 3 && |b| - 3 >= b[0] then ps != [] && ps[0] == Packet(b[1] as int + 256 * b[2] as int, b[3..][..b[0]])
    else ps == [] && rest == b
  }

  lemma UnfoldFirst(b: seq<Byte>)
    ensures ReadFirst(b, Packets(b), Leftover(b))
  {
    assert Complete(b) ==> b[3..][..b[0]] == b[3..b[0] + 3];
  }

  class Receiver {
    var buffer: seq<Byte>
    var delivered: seq<Packet>
    ghost var arrived: seq<Byte>

    ghost predicate Valid()
      reads this
    {
      delivered == Packets(arrived) && buffer == Leftover(arrived)
    }

    constructor ()
      ensures Valid() && arrived == [] && delivered == []
    {
      buffer, delivered, arrived := [], [], [];
    }

    /** sendToClient and onServerMessage: called with the buffer each time more bytes have come in. */
    method OnMessage(fragment: seq<Byte>)
      requires Valid()
      modifies this
      ensures Valid() && arrived == old(arrived) + fragment
      ensures old(delivered) <= delivered && ReadFirst(old(buffer) + fragment, delivered[|old(delivered)|..], buffer)
    {
      hide Head, Rest, Complete, ReadFirst;
      ghost var before := delivered;
      buffer := buffer + fragment;
      arrived := arrived + fragment;
      ghost var all := buffer;
      Resume(old(arrived), fragment);
      while |buffer| > HEADER
        invariant delivered + Packets(buffer) == before + Packets(all)
        invariant Leftover(buffer) == Leftover(all)
        invariant arrived == old(arrived) + fragment
        decreases |buffer|
      {
        var len := buffer[0];
        Unfold(buffer);
        if |buffer| < len + HEADER {
          break;
        }
        var id := IdOf(buffer[1], buffer[2]);
        delivered := delivered + [Packet(id, buffer[HEADER..len + HEADER])];
        buffer := buffer[len + HEADER..];
      }
      Unfold(buffer);
      assert delivered + [] == delivered;
      assert delivered[|before|..] == Packets(all);
      UnfoldFirst(all);
    }
  }

  lemma Unfold(b: seq<Byte>)
    ensures |b| > HEADER && |b| >= b[0] + HEADER ==>
      && Packets(b) == [Packet(IdOf(b[1], b[2]), b[HEADER..b[0] + HEADER])] + Packets(b[b[0] + HEADER..])
      && Leftover(b) == Leftover(b[b[0] + HEADER..])
    ensures |b| <= HEADER || |b| < b[0] + HEADER ==> Packets(b) == [] && Leftover(b) == b
  {
  }

  function Joined(fragments: seq<seq<Byte>>): (b: seq<Byte>) {
    if fragments == [] then [] else Joined(fragments[..|fragments| - 1]) + fragments[|fragments| - 1]
  }

  /** However a stream is cut up, the receiver delivers the packets of the whole. */
  method ReceiveAll(fragments: seq<seq<Byte>>) returns (delivered: seq<Packet>, rest: seq<Byte>)
    ensures delivered == Packets(Joined(fragments)) && rest == Leftover(Joined(fragments))
  {
    hide Packets, Leftover;
    var r := new Receiver();
    for i := 0 to |fragments|
      invariant fresh(r) && r.Valid() && r.arrived == Joined(fragments[..i])
    {
      assert fragments[..i + 1][..i] == fragments[..i];
      r.OnMessage(fragments[i]);
    }
    assert fragments[..|fragments|] == fragments;
    delivered, rest := r.delivered, r.buffer;
  }

  // ---------------------------------------------------------------- round trip

  ghost predicate AllSendable(ps: seq<Packet>) {
    forall i :: 0 <= i < |ps| ==> Sendable(ps[i])
  }

  /** With a length that fits, a packet survives the header exactly if its id has 16 bits. */
  lemma HeaderRoundTrip(p: Packet, tail: seq<Byte>)
    requires |p.payload| <= 255 && p.payload + tail != []
    ensures Complete(Encode(p) + tail) && Rest(Encode(p) + tail) == tail
    ensures Head(Encode(p) + tail).payload == p.payload
    ensures Head(Encode(p) + tail) == p <==> 0 <= p.id < 0x10000
  {
    var b := Encode(p) + tail;
    assert b[0] == |p.payload| && b[1] == p.id % 256 && b[2] == (p.id / 256) % 256;
    assert b[HEADER..b[0] + HEADER] == p.payload;
    assert b[b[0] + HEADER..] == tail;
  }

  /** Everything comes out again, except that an empty packet at the very end waits for another byte. */
  lemma {:induction false} RoundTrip(ps: seq<Packet>)
    requires AllSendable(ps)
    ensures ps == [] || ps[|ps| - 1].payload != [] ==> Packets(EncodeAll(ps)) == ps && Leftover(EncodeAll(ps)) == []
    ensures ps != [] && ps[|ps| - 1].payload == [] ==> Packets(EncodeAll(ps)) == ps[..|ps| - 1]
  {
    hide Packets, Leftover, Encode;
    if ps == [] {
      Unfold([]);
    } else if |ps| == 1 && ps[0].payload == [] {
      EmptyWaits(ps[0]);
      assert Encode(ps[0]) + [] == Encode(ps[0]);
    } else {
      EncodedLength(ps[1..]);
      FirstOut(ps[0], EncodeAll(ps[1..]));
      RoundTrip(ps[1..]);
      assert |ps| > 1 ==> [ps[0]] + ps[1..][..|ps| - 2] == ps[..|ps| - 1];
    }
  }

  lemma FirstOut(p: Packet, tail: seq<Byte>)
    requires Sendable(p) && p.payload + tail != []
    ensures Packets(Encode(p) + tail) == [p] + Packets(tail) && Leftover(Encode(p) + tail) == Leftover(tail)
  {
    hide Head, Rest, Encode, Complete;
    HeaderRoundTrip(p, tail);
  }

  lemma EmptyWaits(p: Packet)
    requires p.payload == []
    ensures Packets(Encode(p)) == []
  {
  }

  lemma EncodedLength(ps: seq<Packet>)
    ensures ps != [] ==> EncodeAll(ps) != []
  {
  }

  // ---------------------------------------------------------------- sending

  /** The bytes of one connection among the packets. */
  function Stream(ps: seq<Packet>, id: int): (b: seq<Byte>) {
    if ps == [] then [] else Stream(ps[..|ps| - 1], id) + (if ps[|ps| - 1].id == id then ps[|ps| - 1].payload else [])
  }

  lemma StreamSnoc(ps: seq<Packet>, p: Packet, id: int)
    ensures Stream(ps + [p], id) == Stream(ps, id) + (if p.id == id then p.payload else [])
  {
    assert (ps + [p])[..|ps|] == ps;
  }

  lemma {:induction false} EncodeSnoc(ps: seq<Packet>, p: Packet)
    ensures EncodeAll(ps + [p]) == EncodeAll(ps) + Encode(p)
  {
    hide Encode;
    if ps == [] {
      assert ps + [p] == [p] && [p][1..] == [];
    } else {
      EncodeSnoc(ps[1..], p);
      assert (ps + [p])[1..] == ps[1..] + [p];
    }
  }

  ghost predicate NoneEmpty(ps: seq<Packet>) {
    forall i :: 0 <= i < |ps| ==> ps[i].payload != []
  }

  /** The packets that carry some data: 255 bytes each, the last one what remains. */
  function Chunks(id: int, data: seq<Byte>): (ps: seq<Packet>) {
    if |data| > MAX_PACKET then [Packet(id, data[..MAX_PACKET])] + Chunks(id, data[MAX_PACKET..])
    else if |data| > 0 then [Packet(id, data)]
    else []
  }

  lemma ChunksStep(id: int, buf: seq<Byte>)
    ensures |buf| > MAX_PACKET ==> Chunks(id, buf) == [Packet(id, buf[..MAX_PACKET])] + Chunks(id, buf[MAX_PACKET..])
    ensures 0 < |buf| <= MAX_PACKET ==> Chunks(id, buf) == [Packet(id, buf)]
    ensures |buf| == 0 ==> Chunks(id, buf) == []
  {
  }

  /** Chunks are never empty, never too long, and only the last may be short. */
  lemma {:induction false} ChunksCut(id: int, data: seq<Byte>, i: nat)
    requires i < |Chunks(id, data)|
    ensures var ps := Chunks(id, data);
      && ps[i].id == id && 1 <= |ps[i].payload| <= 255
      && (i < |ps| - 1 ==> |ps[i].payload| == 255)
  {
    if |data| <= MAX_PACKET {
      assert i == 0;
    } else if i > 0 {
      ChunksCut(id, data[MAX_PACKET..], i - 1);
    } else {
      ChunksSome(id, data[MAX_PACKET..]);
    }
  }

  lemma ChunksSome(id: int, data: seq<Byte>)
    ensures data != [] <==> Chunks(id, data) != []
  {
  }

  /** Run together, the chunks are the data, and no other connection gets any of it. */
  lemma {:induction false} ChunksStream(id: int, data: seq<Byte>, other: int)
    ensures Stream(Chunks(id, data), other) == if other == id then data else []
  {
    hide Stream, Chunks;
    ChunksStep(id, data);
    if |data| > MAX_PACKET {
      var first := Packet(id, data[..MAX_PACKET]);
      ChunksStream(id, data[MAX_PACKET..], other);
      StreamConcat([first], Chunks(id, data[MAX_PACKET..]), other);
      StreamOne(first, other);
      assert data == data[..MAX_PACKET] + data[MAX_PACKET..];
    } else if |data| > 0 {
      StreamOne(Packet(id, data), other);
    } else {
      StreamNone(other);
    }
  }

  lemma StreamNone(id: int)
    ensures Stream([], id) == []
  {
  }

  lemma StreamOne(p: Packet, id: int)
    ensures Stream([p], id) == if p.id == id then p.payload else []
  {
    StreamSnoc([], p, id);
    assert [] + [p] == [p];
  }

  lemma {:induction false} StreamConcat(a: seq<Packet>, b: seq<Packet>, id: int)
    ensures Stream(a + b, id) == Stream(a, id) + Stream(b, id)
  {
    if b == [] {
      assert a + b == a;
    } else {
      StreamConcat(a, b[..|b| - 1], id);
      assert (a + b)[..|a + b| - 1] == a + b[..|b| - 1];
    }
  }

  /** A header, then the data: the length, the id with its low byte first. */
  ghost predicate Wrote(b: seq<Byte>, id: int, buf: seq<Byte>) {
    |b| == 3 + |buf| && b[0] == |buf| && id == b[1] as int + 256 * b[2] as int && b[3..] == buf
  }

  class Sender {
    var connected: bool
    var wire: seq<Byte>
    ghost var sent: seq<Packet>

    ghost predicate Valid()
      reads this
    {
      AllSendable(sent) && wire == EncodeAll(sent)
    }

    constructor (connected: bool)
      ensures Valid() && sent == [] && this.connected == connected
    {
      this.connected := connected;
      wire, sent := [], [];
    }

    /** sendBackendPacket and sendServerPacket: without a connection the packet is dropped. */
    method SendPacket(id: int, buf: seq<Byte>)
      requires Valid() && 0 <= id < 0x10000 && |buf| <= 255
      modifies this`wire, this`sent
      ensures Valid() && sent == old(sent) + (if connected then [Packet(id, buf)] else [])
      ensures !connected ==> wire == old(wire)
      ensures connected ==> |wire| == |old(wire)| + 3 + |buf| && Wrote(wire[|old(wire)|..], id, buf) && old(wire) <= wire
    {
      EncodeSnoc(sent, Packet(id, buf));
      var header: seq<Byte> := [|buf| % 256, id % 256, (id / 256) % 256];
      if connected {
        wire := wire + (header + buf);
        sent := sent + [Packet(id, buf)];
      }
    }

    /** sendBackendBuffer and onSocksMessage: any amount of data, in packets of at most 255 bytes. */
    method SendBuffer(id: int, data: seq<Byte>)
      requires Valid() && 0 <= id < 0x10000
      modifies this`wire, this`sent
      ensures Valid() && sent == old(sent) + (if connected then Chunks(id, data) else [])
    {
      hide EncodeAll, AllSendable, Chunks;
      var buf := data;
      while |buf| > MAX_PACKET
        invariant Valid()
        invariant if connected then sent + Chunks(id, buf) == old(sent) + Chunks(id, data) else sent == old(sent)
        decreases |buf|
      {
        ChunksStep(id, buf);
        ghost var before := sent;
        SendPacket(id, buf[..MAX_PACKET]);
        buf := buf[MAX_PACKET..];
        assert connected ==> sent + Chunks(id, buf) == before + ([sent[|before|]] + Chunks(id, buf));
      }
      ChunksStep(id, buf);
      if |buf| > 0 {
        SendPacket(id, buf);
      }
    }
  }

  // ---------------------------------------------------------------- end to end

  datatype Send = Send(id: int, data: seq<Byte>)

  /** What a sequence of sends is to bring to one connection, and the packets that carry it. */
  ghost function Meant(sends: seq<Send>, id: int): (b: seq<Byte>) {
    if sends == [] then [] else
      Meant(sends[..|sends| - 1], id) + (if sends[|sends| - 1].id == id then sends[|sends| - 1].data else [])
  }

  ghost function AllChunks(sends: seq<Send>): (ps: seq<Packet>) {
    if sends == [] then [] else
      AllChunks(sends[..|sends| - 1]) + Chunks(sends[|sends| - 1].id, sends[|sends| - 1].data)
  }

  lemma {:induction false} AllChunksStream(sends: seq<Send>, id: int)
    ensures Stream(AllChunks(sends), id) == Meant(sends, id)
  {
    if sends == [] {
      assert AllChunks(sends) == [];
    } else {
      var last := sends[|sends| - 1];
      AllChunksStream(sends[..|sends| - 1], id);
      StreamConcat(AllChunks(sends[..|sends| - 1]), Chunks(last.id, last.data), id);
      ChunksStream(last.id, last.data, id);
    }
  }

  lemma {:induction false} AllChunksFull(sends: seq<Send>)
    ensures NoneEmpty(AllChunks(sends))
  {
    if sends == [] {
      assert AllChunks(sends) == [];
    } else {
      var last := sends[|sends| - 1];
      AllChunksFull(sends[..|sends| - 1]);
      forall i | 0 <= i < |Chunks(last.id, last.data)|
        ensures Chunks(last.id, last.data)[i].payload != []
      {
        ChunksCut(last.id, last.data, i);
      }
    }
  }

  /** What the peer decodes from the stream is exactly the chunks of all sends. */
  method SendAll(sends: seq<Send>) returns (wire: seq<Byte>)
    requires forall i :: 0 <= i < |sends| ==> 0 <= sends[i].id < 0x10000
    ensures Packets(wire) == AllChunks(sends) && Leftover(wire) == []
  {
    hide Chunks, AllSendable, EncodeAll, Packets, Leftover;
    var sender := new Sender(true);
    for i := 0 to |sends|
      invariant fresh(sender) && sender.Valid() && sender.connected && sender.sent == AllChunks(sends[..i])
    {
      assert sends[..i + 1][..i] == sends[..i];
      sender.SendBuffer(sends[i].id, sends[i].data);
    }
    assert sends[..|sends|] == sends;
    wire := sender.wire;
    AllChunksFull(sends);
    RoundTrip(sender.sent);
  }

  /**
   * Any sends, any fragmentation of the stream: the packets delivered are the packets sent, each connection gets
   * exactly its bytes in order, and nothing is left over.
   */
  method Transfer(sends: seq<Send>, fragments: seq<seq<Byte>>)
    returns (wire: seq<Byte>, delivered: seq<Packet>, rest: seq<Byte>)
    requires forall i :: 0 <= i < |sends| ==> 0 <= sends[i].id < 0x10000
    ensures Packets(wire) == AllChunks(sends) && Leftover(wire) == []
    ensures delivered == Packets(Joined(fragments)) && rest == Leftover(Joined(fragments))
    ensures Joined(fragments) == wire ==> delivered == AllChunks(sends) && rest == []
    ensures Joined(fragments) == wire ==> forall id :: Stream(delivered, id) == Meant(sends, id)
  {
    hide Stream, Meant, Packets, Leftover, Joined, AllChunks;
    wire := SendAll(sends);
    delivered, rest := ReceiveAll(fragments);
    forall id
      ensures Stream(AllChunks(sends), id) == Meant(sends, id)
    {
      AllChunksStream(sends, id);
    }
  }

  // ---------------------------------------------------------------- handing on

  /** A connection that the peer has announced: up or not yet, with what has to wait for it. */
  datatype Entry = Entry(connected: bool, pending: seq<Byte>)

  ghost predicate Received(before: map<int, seq<Byte>>, after: map<int, seq<Byte>>, ps: seq<Packet>) {
    after.Keys == before.Keys && forall id :: id in before ==> after[id] == before[id] + Stream(ps, id)
  }

  ghost predicate SameUp(before: map<int, Entry>, after: map<int, Entry>) {
    after.Keys == before.Keys && forall id :: id in before ==> after[id].connected == before[id].connected
  }

  /** A packet for a connection that is up is sent on at once, for any other it waits. */
  ghost predicate HandedOn(p: Packet, socks: map<int, Entry>, out: map<int, seq<Byte>>, socks': map<int, Entry>, out': map<int, seq<Byte>>)
    requires p.id in socks && p.id in out
  {
    if socks[p.id].connected then socks' == socks && out' == out[p.id := out[p.id] + p.payload]
    else out' == out && socks' == socks[p.id := Entry(false, socks[p.id].pending + p.payload)]
  }

  class Demux {
    var socks: map<int, Entry>
    var out: map<int, seq<Byte>>
    ghost var meant: map<int, seq<Byte>>

    /** Bytes handed on, then bytes waiting, are the bytes that came for the connection; nothing waits once it is up. */
    ghost predicate Valid()
      reads this
    {
      && socks.Keys == out.Keys == meant.Keys
      && forall id :: id in socks ==>
           (socks[id].connected ==> socks[id].pending == []) && out[id] + socks[id].pending == meant[id]
    }

    constructor ()
      ensures Valid() && socks == map[]
    {
      socks, out, meant := map[], map[], map[];
    }

    /** The command that a connection is up at the other end. */
    method Announce(id: int)
      requires Valid() && id !in socks
      modifies this
      ensures Valid() && socks == old(socks)[id := Entry(false, [])] && meant == old(meant)[id := []] && out[id] == []
    {
      socks := socks[id := Entry(false, [])];
      out := out[id := []];
      meant := meant[id := []];
    }

    /** The command that it is down: a connection not yet up is forgotten, one that is up is left to close by itself. */
    method Withdraw(id: int)
      requires Valid() && id in socks
      modifies this
      ensures Valid()
      ensures old(socks)[id].connected ==> socks == old(socks) && out == old(out) && meant == old(meant)
      ensures !old(socks)[id].connected ==> socks == old(socks) - {id} && out == old(out) - {id} && meant == old(meant) - {id}
    {
      if !socks[id].connected {
        socks := socks - {id};
        out := out - {id};
        meant := meant - {id};
      }
    }

    /** onSocksConnection: what has been waiting is sent, so that everything has been. */
    method Connect(id: int)
      requires Valid() && id in socks
      modifies this`socks, this`out
      ensures Valid() && socks == old(socks)[id := Entry(true, [])] && out[id] == meant[id]
    {
      var pending := socks[id].pending;
      if |pending| > 0 {
        out := out[id := out[id] + pending];
      }
      socks := socks[id := Entry(true, [])];
    }

    /** The body of the loop of onServerMessage for a packet that is no command. */
    method Deliver(p: Packet)
      requires Valid() && p.id != 0 && p.id in socks
      modifies this
      ensures Valid() && socks.Keys == old(socks).Keys && meant == old(meant)[p.id := old(meant)[p.id] + p.payload]
      ensures SameUp(old(socks), socks)
      ensures HandedOn(p, old(socks), old(out), socks, out)
    {
      if socks[p.id].connected {
        assert socks[p.id].pending == [];
        out := out[p.id := out[p.id] + p.payload];
      } else {
        socks := socks[p.id := Entry(false, socks[p.id].pending + p.payload)];
      }
      meant := meant[p.id := meant[p.id] + p.payload];
    }

    /** Any packets for announced connections: each gets its bytes in order, at once or when it comes up. */
    method DeliverAll(ps: seq<Packet>)
      requires Valid() && forall i :: 0 <= i < |ps| ==> ps[i].id != 0 && ps[i].id in socks
      modifies this
      ensures Valid() && socks.Keys == old(socks).Keys
      ensures forall id :: id in socks ==> meant[id] == old(meant)[id] + Stream(ps, id)
      ensures forall id :: id in socks ==> socks[id].connected == old(socks)[id].connected
    {
      hide Stream, HandedOn, Received, SameUp;
      ReceivedNone(meant, socks, ps);
      for i := 0 to |ps|
        invariant Valid() && socks.Keys == old(socks).Keys
        invariant Received(old(meant), meant, ps[..i]) && SameUp(old(socks), socks)
      {
        ReceivedMore(old(meant), meant, ps, i);
        ghost var before := socks;
        Deliver(ps[i]);
        StillUp(old(socks), before, socks);
      }
      ReceivedAll(old(meant), meant, old(socks), socks, ps);
    }
  }

  lemma ReceivedNone(meant: map<int, seq<Byte>>, socks: map<int, Entry>, ps: seq<Packet>)
    ensures Received(meant, meant, ps[..0]) && SameUp(socks, socks)
  {
  }

  lemma ReceivedMore(before: map<int, seq<Byte>>, meant: map<int, seq<Byte>>, ps: seq<Packet>, i: nat)
    requires i < |ps| && Received(before, meant, ps[..i]) && ps[i].id in meant
    ensures Received(before, meant[ps[i].id := meant[ps[i].id] + ps[i].payload], ps[..i + 1])
  {
    hide Stream;
    assert ps[..i] + [ps[i]] == ps[..i + 1];
    forall id | id in before
      ensures Stream(ps[..i + 1], id) == Stream(ps[..i], id) + (if ps[i].id == id then ps[i].payload else [])
    {
      StreamSnoc(ps[..i], ps[i], id);
    }
  }

  lemma StillUp(first: map<int, Entry>, before: map<int, Entry>, after: map<int, Entry>)
    requires SameUp(first, before) && SameUp(before, after)
    ensures SameUp(first, after)
  {
  }

  lemma ReceivedAll(before: map<int, seq<Byte>>, meant: map<int, seq<Byte>>, up: map<int, Entry>, socks: map<int, Entry>, ps: seq<Packet>)
    requires Received(before, meant, ps[..|ps|]) && SameUp(up, socks)
    ensures forall id :: id in before ==> id in meant && meant[id] == before[id] + Stream(ps, id)
    ensures forall id :: id in up ==> id in socks && socks[id].connected == up[id].connected
  {
    assert ps[..|ps|] == ps;
  }
}
