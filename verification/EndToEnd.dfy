/** Senders and receiver together, with the sizes the program uses. */
module EndToEnd {
  import opened Bytes
  import opened Framing
  import opened MyPackets
  import WireRoundTrip
  import TimeServers

  /** The receive buffer is created before `OnInit` chooses a larger size, so it has the default one. */
  const RECV_BUFFER_SIZE: int := 1024

  /** A message as the application writes it: a protocol id, then pieces of payload. */
  datatype Message = Message(protocol: int, pieces: seq<seq<byte>>)

  function PacketOf(m: Message): (p: Packet)
    requires IsInt32(m.protocol)
    ensures p.Valid() && |p.Wire()| <= BUFFER_SIZE
  {
    Packet(m.protocol, WireRoundTrip.Taken(m.pieces, BUFFER_SIZE - HEADER_SIZE))
  }

  function PacketsOf(messages: seq<Message>): (ps: seq<Packet>)
    requires forall m :: m in messages ==> IsInt32(m.protocol)
    ensures |ps| == |messages| && AllValid(ps)
    ensures forall p :: p in ps ==> |p.Wire()| <= BUFFER_SIZE
  {
    seq(|messages|, i requires 0 <= i < |messages| => PacketOf(messages[i]))
  }

  lemma OnePacketMore(messages: seq<Message>, i: nat)
    requires i < |messages| && forall m :: m in messages ==> IsInt32(m.protocol)
    ensures Concat(Wires(PacketsOf(messages[..i + 1])))
            == Concat(Wires(PacketsOf(messages[..i]))) + PacketOf(messages[i]).Wire()
  {
    var before := Wires(PacketsOf(messages[..i]));
    assert Wires(PacketsOf(messages[..i + 1])) == before + [PacketOf(messages[i]).Wire()];
    ConcatOne(before, PacketOf(messages[i]).Wire());
  }

  /** Whatever messages are written, and however their bytes are cut on the way, the receiver processes
      exactly the packets sent, in order, unless one of its looks at its own state finds it closed: only
      then it drops the connection. No packet a sender can build is too large for it. */
  method Deliver(messages: seq<Message>, closedAt: nat)
    returns (processed: seq<seq<byte>>, dropped: bool, loads: nat)
    requires forall m :: m in messages ==> IsInt32(m.protocol)
    ensures processed <= Wires(PacketsOf(messages))
    ensures !dropped ==> processed == Wires(PacketsOf(messages))
    ensures if dropped then loads == closedAt + 1 else loads <= closedAt
  {
    var stream: seq<byte> := [];
    for i := 0 to |messages|
      invariant stream == Concat(Wires(PacketsOf(messages[..i])))
    {
      OnePacketMore(messages, i);
      var wire := WireRoundTrip.Send(messages[i].protocol, messages[i].pieces);
      stream := stream + wire[..];
    }
    assert messages[..|messages|] == messages;
    processed, dropped, loads :=
      TimeServers.ReceivePackets(closedAt, RECV_BUFFER_SIZE, PacketsOf(messages), stream);
  }
}
