/** The wire format of a packet, and finding packet boundaries in a byte stream. */
module Framing {
  import opened Bytes
  import opened Draining

  const HEADER_SIZE: int := 8

  datatype Packet = Packet(protocol: int, payload: seq<byte>) {
    /** Both header fields are 32-bit `int`s. */
    predicate Valid() {
      IsInt32(protocol) && |payload| <= INT_MAX
    }

    /** Payload length, protocol id, payload. */
    function Wire(): (w: seq<byte>)
      requires Valid()
      ensures |w| == HEADER_SIZE + |payload|
    {
      ToLittleEndian(|payload|) + ToLittleEndian(protocol) + payload
    }
  }

  predicate AllValid(packets: seq<Packet>) {
    forall p :: p in packets ==> p.Valid()
  }

  function Wires(packets: seq<Packet>): (ws: seq<seq<byte>>)
    requires AllValid(packets)
    ensures |ws| == |packets|
  {
    seq(|packets|, i requires 0 <= i < |packets| => packets[i].Wire())
  }

  /** The size a header announces, in the unsigned 32-bit arithmetic of the code. */
  function Announced(stream: seq<byte>): (n: nat)
    requires HEADER_SIZE <= |stream|
  {
    (HEADER_SIZE + FromLittleEndian(stream[..4])) % TWO_TO_THE_32
  }

  /** The size of the packet at the front of `stream`, or 0 to wait for more bytes. */
  function HeaderParsing(stream: seq<byte>): (n: nat)
    ensures n <= |stream|
  {
    if |stream| < HEADER_SIZE then 0
    else if |stream| >= Announced(stream) then Announced(stream) else 0
  }

  // ---------- one packet ----------

  lemma HeaderOf(p: Packet, rest: seq<byte>)
    requires p.Valid()
    ensures (p.Wire() + rest)[..4] == ToLittleEndian(|p.payload|)
    ensures (p.Wire() + rest)[4..8] == ToLittleEndian(p.protocol)
    ensures FromLittleEndian((p.Wire() + rest)[..4]) == |p.payload|
    ensures FromLittleEndian((p.Wire() + rest)[4..8]) == p.protocol
  {
    var w := p.Wire() + rest;
    assert w[..4] == ToLittleEndian(|p.payload|);
    assert w[4..8] == ToLittleEndian(p.protocol);
    IntRoundTrip(|p.payload|);
    IntRoundTrip(p.protocol);
  }

  /** On the wire a payload of fewer than 2^16 bytes is announced by its length, low byte first; the
      protocol id comes next, and the payload behind it. */
  lemma WireBytes(p: Packet)
    requires p.Valid()
    ensures |p.payload| < 0x1_0000 ==> p.Wire()[..4] == [|p.payload| % 0x100, |p.payload| / 0x100, 0, 0]
    ensures 0 <= p.protocol < 0x1_0000 ==> p.Wire()[4..8] == [p.protocol % 0x100, p.protocol / 0x100, 0, 0]
    ensures p.Wire()[8..] == p.payload
  {
    HeaderOf(p, []);
    assert p.Wire() + [] == p.Wire();
    if |p.payload| < 0x1_0000 {
      TwoByteNumber(|p.payload|);
    }
    if 0 <= p.protocol < 0x1_0000 {
      TwoByteNumber(p.protocol);
    }
  }

  /** A header that begins with these bytes asks for this many. A negative length short of the header
      size, as an unsigned number, is more than any buffer holds. */
  lemma AnswerToHeader(stream: seq<byte>)
    requires HEADER_SIZE <= |stream| < INT_MAX
    ensures var a: int, b: int, c: int, d: int := stream[0], stream[1], stream[2], stream[3];
            var n := a + 0x100 * (b + 0x100 * (c + 0x100 * d));
            HeaderParsing(stream) ==
            if n < TWO_TO_THE_32 - HEADER_SIZE
            then if HEADER_SIZE + n <= |stream| then HEADER_SIZE + n else 0
            else HEADER_SIZE + n - TWO_TO_THE_32
  {
    MeaningOfBytes(stream[0], stream[1], stream[2], stream[3]);
    assert stream[..4] == [stream[0], stream[1], stream[2], stream[3]];
  }

  /** In front of any bytes at all, a packet is found exactly. */
  lemma FindsPacket(p: Packet, rest: seq<byte>)
    requires p.Valid()
    ensures HeaderParsing(p.Wire() + rest) == |p.Wire()|
  {
    HeaderOf(p, rest);
  }

  /** No part of a packet short of the whole is taken for one. */
  lemma WaitsForWhole(p: Packet, k: nat)
    requires p.Valid() && k < |p.Wire()|
    ensures HeaderParsing(p.Wire()[..k]) == 0
  {
    if HEADER_SIZE <= k {
      assert p.Wire()[..k][..4] == (p.Wire() + [])[..4];
      HeaderOf(p, []);
    }
  }

  /** The code is prefix-free: one packet's bytes begin another's only when the packets are the same. */
  lemma PrefixFree(p: Packet, q: Packet)
    requires p.Valid() && q.Valid()
    ensures p.Wire() <= q.Wire() <==> p == q
  {
    if p.Wire() <= q.Wire() {
      var rest := q.Wire()[|p.Wire()|..];
      assert q.Wire() == p.Wire() + rest == q.Wire() + [];
      FindsPacket(p, rest);
      FindsPacket(q, []);
      assert rest == [];
      HeaderOf(p, []);
      HeaderOf(q, []);
      assert p.Wire()[8..] == p.payload && q.Wire()[8..] == q.payload;
    }
  }

  /** These bytes are the wire format of some packet. */
  ghost predicate IsWire(bytes: seq<byte>) {
    exists p: Packet :: p.Valid() && p.Wire() == bytes
  }

  /** Bytes are a packet exactly when the length in their header is the length behind it. */
  lemma IsWireExactlyWhen(bytes: seq<byte>)
    requires |bytes| <= INT_MAX
    ensures IsWire(bytes) <==> HEADER_SIZE <= |bytes| && FromLittleEndian(bytes[..4]) == |bytes| - HEADER_SIZE
  {
    if IsWire(bytes) {
      var p: Packet :| p.Valid() && p.Wire() == bytes;
      HeaderOf(p, []);
      assert p.Wire() + [] == bytes;
    }
    if HEADER_SIZE <= |bytes| && FromLittleEndian(bytes[..4]) == |bytes| - HEADER_SIZE {
      var p := Packet(FromLittleEndian(bytes[4..8]), bytes[8..]);
      BytesRoundTrip(bytes[..4]);
      BytesRoundTrip(bytes[4..8]);
      assert p.Wire() == bytes[..4] + bytes[4..8] + bytes[8..] == bytes;
    }
  }

  // ---------- a stream of packets ----------

  /** `HeaderParsing` meets what the receive loop needs of a boundary rule, on every byte stream. */
  lemma HeaderParsingIsStable()
    ensures Bounded(HeaderParsing) && Stable(HeaderParsing)
  {
    forall a: seq<byte>, b: seq<byte> | HeaderParsing(a) > 0
      ensures HeaderParsing(a + b) == HeaderParsing(a)
    {
      assert (a + b)[..4] == a[..4];
    }
  }

  /** Any stream of whole packets, followed by an unfinished one, drains to exactly those packets. */
  lemma {:induction false} DrainFindsAll(packets: seq<Packet>, tail: seq<byte>)
    requires AllValid(packets) && HeaderParsing(tail) == 0
    ensures Drain(HeaderParsing, Concat(Wires(packets)) + tail) == Parsed(Wires(packets), tail)
  {
    var ws := Wires(packets);
    if packets == [] {
      assert Concat(ws) + tail == tail;
    } else {
      assert ws[1..] == Wires(packets[1..]);
      var later := Concat(ws[1..]) + tail;
      assert Concat(ws) + tail == ws[0] + later;
      FindsPacket(packets[0], later);
      DrainFindsAll(packets[1..], tail);
    }
  }

  /** Framing works: however the bytes of a list of packets are cut into chunks, the receiver gets
      back exactly those packets, in order, and is left with nothing. */
  lemma FramingIsChunkIndependent(packets: seq<Packet>, chunks: seq<seq<byte>>)
    requires AllValid(packets)
    requires Concat(chunks) == Concat(Wires(packets))
    ensures DrainChunks(HeaderParsing, [], chunks) == Parsed(Wires(packets), [])
  {
    HeaderParsingIsStable();
    ChunkIndependence(HeaderParsing, [], chunks);
    DrainFindsAll(packets, []);
    assert Concat(Wires(packets)) + [] == Concat(Wires(packets)) == [] + Concat(chunks);
  }

  /** The code is uniquely decodable: equal byte streams come from equal packet lists. */
  lemma UniquelyDecodable(a: seq<Packet>, b: seq<Packet>)
    requires AllValid(a) && AllValid(b)
    ensures Concat(Wires(a)) == Concat(Wires(b)) <==> a == b
  {
    if Concat(Wires(a)) == Concat(Wires(b)) {
      DrainFindsAll(a, []);
      DrainFindsAll(b, []);
      assert Wires(a) == Wires(b);
      forall i | 0 <= i < |a|
        ensures a[i] == b[i]
      {
        assert Wires(a)[i] == Wires(b)[i];
        PrefixFree(a[i], b[i]);
      }
    }
  }

  // ---------- progress of a bounded receiver ----------

  /** What waits after draining part of a stream of whole packets is less than one of them. */
  lemma {:induction false} PendingIsPartial(packets: seq<Packet>, k: nat, bound: nat)
    requires AllValid(packets) && k <= |Concat(Wires(packets))|
    requires forall p :: p in packets ==> |p.Wire()| <= bound
    requires bound > 0
    ensures |Drain(HeaderParsing, Concat(Wires(packets))[..k]).rest| < bound
  {
    if packets != [] {
      var ws := Wires(packets);
      assert ws[1..] == Wires(packets[1..]);
      var p := packets[0];
      var n := |p.Wire()|;
      var stream := Concat(ws)[..k];
      if k < n {
        assert stream == p.Wire()[..k];
        WaitsForWhole(p, k);
        assert p in packets;
      } else {
        var later := Concat(ws[1..])[..k - n];
        assert stream == p.Wire() + later;
        FindsPacket(p, later);
        PendingIsPartial(packets[1..], k - n, bound);
      }
    }
  }

  /** These bytes are not the start of a packet that fits into them: they are no header, or the header
      announces a packet larger than they are, or one of size 0, which no encoder writes. */
  predicate NoneFits(bytes: seq<byte>) {
    |bytes| < HEADER_SIZE || Announced(bytes) > |bytes| || Announced(bytes) == 0
  }

  /** At boundary `b` starts something a buffer of this capacity cannot hold, and enough bytes follow to
      fill it and ask for more. */
  predicate TooLargeAt(stream: seq<byte>, capacity: nat, b: nat) {
    b + capacity < |stream| && BoundaryAt(HeaderParsing, stream, b) && NoneFits(stream[b..b + capacity])
  }

  ghost predicate NeverTooLarge(stream: seq<byte>, capacity: nat) {
    forall b: nat :: !TooLargeAt(stream, capacity, b)
  }

  lemma NoneFitsExactlyWhen(bytes: seq<byte>)
    ensures NoneFits(bytes) <==> HeaderParsing(bytes) == 0
  {
  }

  lemma TooLargeBlocks(stream: seq<byte>, capacity: nat, b: nat)
    ensures BlocksAt(HeaderParsing, stream, capacity, b) <==> TooLargeAt(stream, capacity, b)
  {
    if b + capacity < |stream| {
      NoneFitsExactlyWhen(stream[b..b + capacity]);
    }
  }

  /** Over every byte stream, packets or not, a receiver fills up exactly when at some packet boundary
      the header announces size 0 or more than the capacity, and more bytes follow than it can hold. */
  lemma FillsExactlyAtBadHeader(stream: seq<byte>, capacity: nat)
    ensures Bounded(HeaderParsing)
    ensures Fills(HeaderParsing, stream, capacity) <==> !NeverTooLarge(stream, capacity)
  {
    HeaderParsingIsStable();
    FillsExactlyWhen(HeaderParsing, stream, capacity);
    forall b: nat
      ensures BlocksAt(HeaderParsing, stream, capacity, b) <==> TooLargeAt(stream, capacity, b)
    {
      TooLargeBlocks(stream, capacity, b);
    }
  }
}
