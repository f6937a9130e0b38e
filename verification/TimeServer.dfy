/** `TimeServer`: a `NetUnit` that receives the packets `MyPacket` writes. */
module TimeServers {
  import opened Bytes
  import opened Draining
  import opened Framing
  import opened NetUnits

  /** Any bytes whatever, cut in any way. Unless a load of `_is_active` sees the unit closed, the receiver
      processes all that `HeaderParsing` finds in them, exactly if at no packet boundary a header announces
      size 0 or more than the buffer holds with enough bytes behind it to fill the buffer. */
  method ReceiveAnything(closedAt: nat, recvBufferSize: int, stream: seq<byte>)
    returns (processed: seq<seq<byte>>, pending: seq<byte>, outcome: Outcome, received: nat, loads: nat)
    requires recvBufferSize > 0
    ensures Bounded(HeaderParsing)
    ensures loads <= 5 * |stream| + 1
    ensures match outcome
            case Completed =>
              && Drain(HeaderParsing, stream) == Parsed(processed, pending) && NeverTooLarge(stream, recvBufferSize)
              && loads <= closedAt
            case Dropped =>
              && received <= |stream| && NotFarBehind(HeaderParsing, stream, processed, received, recvBufferSize)
              && processed <= Drain(HeaderParsing, stream).packets && loads == closedAt + 1
            case Full =>
              && received < |stream| && Drain(HeaderParsing, stream[..received]) == Parsed(processed, pending)
              && |pending| == recvBufferSize && !NeverTooLarge(stream, recvBufferSize)
              && processed <= Drain(HeaderParsing, stream).packets && loads <= closedAt
  {
    HeaderParsingIsStable();
    FillsExactlyAtBadHeader(stream, recvBufferSize);
    processed, pending, outcome, received, loads := RunConnection(HeaderParsing, closedAt, recvBufferSize, stream);
  }

  /** A connection over which whole packets arrive, each small enough for the receive buffer. However
      the socket cuts their bytes, unless a load sees the unit closed every packet is processed, in order,
      and nothing is left over. */
  method ReceivePackets(closedAt: nat, recvBufferSize: int, ghost packets: seq<Packet>, stream: seq<byte>)
    returns (processed: seq<seq<byte>>, dropped: bool, loads: nat)
    requires recvBufferSize > 0
    requires AllValid(packets) && stream == Concat(Wires(packets))
    requires forall p :: p in packets ==> |p.Wire()| <= recvBufferSize
    ensures processed <= Wires(packets)
    ensures !dropped ==> processed == Wires(packets)
    ensures if dropped then loads == closedAt + 1 else loads <= closedAt
  {
    assert Drain(HeaderParsing, stream) == Parsed(Wires(packets), []) by {
      DrainFindsAll(packets, []);
      assert stream + [] == stream;
    }
    assert Bounded(HeaderParsing) && Stable(HeaderParsing) by {
      HeaderParsingIsStable();
    }
    forall k: nat | k < |stream|
      ensures !FilledAt(HeaderParsing, stream, k, recvBufferSize)
    {
      PendingIsPartial(packets, k, recvBufferSize);
    }
    var pending, outcome, received;
    processed, pending, outcome, received, loads := RunConnection(HeaderParsing, closedAt, recvBufferSize, stream);
    dropped := outcome.Dropped?;
  }
}
