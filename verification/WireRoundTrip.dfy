/** From the sender's `Write`s, over the wire, to the receiver's `Read`s. */
module WireRoundTrip {
  import opened Bytes
  import opened Framing
  import opened MyPackets

  /** The payload a packet ends up with: each piece is taken whole if it still fits, and skipped otherwise. */
  function Taken(pieces: seq<seq<byte>>, room: nat): (payload: seq<byte>)
    ensures |payload| <= room
    ensures |Concat(pieces)| <= room ==> payload == Concat(pieces)
    decreases |pieces|
  {
    if pieces == [] then []
    else if |pieces[0]| <= room then pieces[0] + Taken(pieces[1..], room - |pieces[0]|)
    else Taken(pieces[1..], room)
  }

  lemma {:induction false} TakenOneMore(pieces: seq<seq<byte>>, piece: seq<byte>, room: nat)
    ensures var before := Taken(pieces, room);
            Taken(pieces + [piece], room) == before + if |before| + |piece| <= room then piece else []
    decreases |pieces|
  {
    if pieces == [] {
      assert Taken([piece], room) == if |piece| <= room then piece + Taken([], room - |piece|) else Taken([], room);
    } else {
      assert (pieces + [piece])[1..] == pieces[1..] + [piece];
      TakenOneMore(pieces[1..], piece, if |pieces[0]| <= room then room - |pieces[0]| else room);
    }
  }

  function Sum(sizes: seq<nat>): nat {
    if sizes == [] then 0 else Sum(sizes[..|sizes| - 1]) + sizes[|sizes| - 1]
  }

  lemma {:induction false} SumOfPrefix(sizes: seq<nat>, k: nat)
    requires k <= |sizes|
    ensures Sum(sizes[..k]) <= Sum(sizes)
    decreases |sizes| - k
  {
    if k == |sizes| {
      assert sizes[..k] == sizes;
    } else {
      assert sizes[..k + 1][..k] == sizes[..k];
      SumOfPrefix(sizes, k + 1);
    }
  }

  /** One `Write` of a piece: taken whole if there is room for it, and otherwise without effect. */
  method WritePiece(packet: MyPacket, piece: seq<byte>)
    requires packet.WellFormed()
    modifies packet.stream`writePos, packet.stream.buffer`filledSize, packet.stream.buffer.begin
    ensures packet.WellFormed()
    ensures var before := old(packet.Content());
            packet.Content() == if |before.payload| + |piece| <= BUFFER_SIZE - HEADER_SIZE
                                then Packet(before.protocol, before.payload + piece) else before
  {
    var data := new byte[|piece|](k requires 0 <= k < |piece| => piece[k]);
    assert data[..|piece|] == piece;
    var ok := packet.Write(data, |piece|);
  }

  lemma SentBytes(protocol: int, pieces: seq<seq<byte>>, wire: seq<byte>)
    requires IsInt32(protocol)
    requires wire == Packet(protocol, Taken(pieces, BUFFER_SIZE - HEADER_SIZE)).Wire()
    ensures var payload := Taken(pieces, BUFFER_SIZE - HEADER_SIZE);
            wire[..4] == [|payload| % 0x100, |payload| / 0x100, 0, 0] && wire[8..] == payload
  {
    WireBytes(Packet(protocol, Taken(pieces, BUFFER_SIZE - HEADER_SIZE)));
  }

  /** Sending side: the bytes handed to the socket after `Write`ing the pieces one by one. */
  method Send(protocol: int, pieces: seq<seq<byte>>) returns (wire: array<byte>)
    requires IsInt32(protocol)
    ensures fresh(wire)
    ensures wire[..] == Packet(protocol, Taken(pieces, BUFFER_SIZE - HEADER_SIZE)).Wire()
    ensures var payload := Taken(pieces, BUFFER_SIZE - HEADER_SIZE);
            wire[..4] == [|payload| % 0x100, |payload| / 0x100, 0, 0] && wire[8..] == payload
  {
    var packet := new MyPacket.WithProtocol(protocol);
    for i := 0 to |pieces|
      invariant packet.WellFormed() && fresh(packet.stream)
      invariant fresh(packet.stream.buffer) && fresh(packet.stream.buffer.begin)
      invariant packet.Content() == Packet(protocol, Taken(pieces[..i], BUFFER_SIZE - HEADER_SIZE))
    {
      TakenOneMore(pieces[..i], pieces[i], BUFFER_SIZE - HEADER_SIZE);
      assert pieces[..i + 1] == pieces[..i] + [pieces[i]];
      WritePiece(packet, pieces[i]);
    }
    assert pieces[..|pieces|] == pieces;
    wire := OnTheWire(packet);
    SentBytes(protocol, pieces, wire[..]);
  }

  /** The socket copies out what `GetBuffer` and `GetPacketSize` describe. */
  method OnTheWire(packet: MyPacket) returns (wire: array<byte>)
    requires packet.WellFormed()
    ensures fresh(wire) && packet.Content().Valid() && wire[..] == packet.Content().Wire()
  {
    HeldBytesAreWire(packet.Block(), packet.stream.writePos);
    var sent := packet.Sent();
    wire := new byte[|sent|](k requires 0 <= k < |sent| => sent[k]);
    assert wire[..] == sent;
  }

  lemma SumOneMore(sizes: seq<nat>, i: nat)
    requires i < |sizes|
    ensures Sum(sizes[..i + 1]) == Sum(sizes[..i]) + sizes[i]
  {
    assert sizes[..i + 1][..i] == sizes[..i];
  }

  /** One `Read` of `n` bytes into a block of that size. */
  method ReadPiece(packet: MyPacket, n: nat) returns (piece: seq<byte>)
    requires packet.WellFormed() && n <= |packet.stream.Contents()|
    modifies packet.stream`readPos
    ensures packet.WellFormed() && packet.Content() == old(packet.Content())
    ensures piece == old(packet.stream.Contents())[..n]
    ensures packet.stream.Contents() == old(packet.stream.Contents())[n..]
  {
    var data := new byte[n];
    var ok := packet.Read(data, n);
    piece := data[..n];
  }

  /** The receiver builds a packet from whole packet bytes. */
  method Arrived(wire: array<byte>, ghost sent: Packet) returns (packet: MyPacket)
    requires sent.Valid() && wire[..] == sent.Wire() && wire.Length <= BUFFER_SIZE
    ensures fresh(packet.stream) && fresh(packet.stream.buffer) && fresh(packet.stream.buffer.begin)
    ensures packet.WellFormed() && packet.Content() == sent && packet.stream.readPos == HEADER_SIZE
  {
    packet := new MyPacket.FromBytes(wire, wire.Length);
    assert wire[..wire.Length] == sent.Wire();
    PrefixFree(packet.Content(), sent);
  }

  /** Receiving side: the payload of one whole packet, read back in pieces of the given sizes. */
  method Receive(wire: array<byte>, sizes: seq<nat>, ghost sent: Packet) returns (received: seq<seq<byte>>)
    requires sent.Valid() && wire[..] == sent.Wire() && wire.Length <= BUFFER_SIZE
    requires Sum(sizes) <= |sent.payload|
    ensures |received| == |sizes| && forall i :: 0 <= i < |sizes| ==> |received[i]| == sizes[i]
    ensures Concat(received) == sent.payload[..Sum(sizes)]
  {
    var packet := Arrived(wire, sent);
    received := [];
    ghost var unread := sent.payload;
    for i := 0 to |sizes|
      invariant packet.WellFormed() && packet.Content() == sent && fresh(packet.stream)
      invariant packet.stream.Contents() == unread
      invariant |received| == i && forall k :: 0 <= k < i ==> |received[k]| == sizes[k]
      invariant Concat(received) + unread == sent.payload
      invariant |unread| == |sent.payload| - Sum(sizes[..i])
    {
      SumOneMore(sizes, i);
      SumOfPrefix(sizes, i + 1);
      var piece := ReadPiece(packet, sizes[i]);
      ConcatOne(received, piece);
      CutChunk(Concat(received), unread, sizes[i]);
      received, unread := received + [piece], unread[sizes[i]..];
    }
    assert sizes[..|sizes|] == sizes;
    assert Concat(received) == (Concat(received) + unread)[..Sum(sizes)];
  }

  /** The wire round trip: however the payload was written in pieces, and however it is read in
      pieces, the reader gets the writer's bytes in order. */
  method RoundTrip(protocol: int, pieces: seq<seq<byte>>, sizes: seq<nat>) returns (received: seq<seq<byte>>)
    requires IsInt32(protocol)
    requires |Concat(pieces)| <= BUFFER_SIZE - HEADER_SIZE
    requires Sum(sizes) == |Concat(pieces)|
    ensures |received| == |sizes| && forall i :: 0 <= i < |sizes| ==> |received[i]| == sizes[i]
    ensures Concat(received) == Concat(pieces)
  {
    var wire := Send(protocol, pieces);
    received := Receive(wire, sizes, Packet(protocol, Concat(pieces)));
  }
}
