/** `MyPacket`: a length-prefixed packet whose header lives inside its own stream buffer. */
module MyPackets {
  import opened Bytes
  import opened Buffers
  import opened StreamBuffers
  import opened Framing

  const BUFFER_SIZE: int := 1024

  /** `*reinterpret_cast<int*>(block + at) = x`. */
  method StoreInt(block: array<byte>, at: nat, x: int)
    requires at + 4 <= block.Length && IsInt32(x)
    modifies block
    ensures block[..] == Splice(old(block[..]), at, ToLittleEndian(x))
  {
    var bytes := ToLittleEndian(x);
    block[at], block[at + 1], block[at + 2], block[at + 3] := bytes[0], bytes[1], bytes[2], bytes[3];
  }

  /** The length field of a block raised by `n`, in 32-bit arithmetic. */
  function AddToLength(block: seq<byte>, n: int): (r: seq<byte>)
    requires HEADER_SIZE <= |block|
    ensures |r| == |block|
  {
    Splice(block, 0, ToLittleEndian(Wrap32(FromLittleEndian(block[..4]) + n)))
  }

  /** `block` as `Stream.Clear` leaves it: zero below the fill mark, untouched above. */
  function Wiped(block: seq<byte>, filled: nat): (r: seq<byte>)
    requires filled <= |block|
    ensures |r| == |block|
  {
    Splice(block, 0, Zeros(filled))
  }

  /** The first `size` bytes of `block` are one whole packet, and nothing but zeros follows it. */
  predicate HoldsPacket(block: seq<byte>, size: int) {
    && HEADER_SIZE <= size <= |block|
    && FromLittleEndian(block[..4]) == size - HEADER_SIZE
    && ZeroFrom(block, size)
  }

  function PacketIn(block: seq<byte>, size: int): (p: Packet)
    requires HEADER_SIZE <= size <= |block|
  {
    Packet(FromLittleEndian(block[4..8]), block[8..size])
  }

  /** The stored bytes of a packet are its wire format. */
  lemma HeldBytesAreWire(block: seq<byte>, size: int)
    requires HoldsPacket(block, size)
    ensures PacketIn(block, size).Valid() && PacketIn(block, size).Wire() == block[..size]
  {
    BytesRoundTrip(block[..4]);
    BytesRoundTrip(block[4..8]);
    assert block[..size] == block[..4] + block[4..8] + block[8..size];
  }

  /** A packet that fits the program's buffer stores its length in two bytes, the low one first. */
  lemma HeldLengthBytes(block: seq<byte>, size: int)
    requires HoldsPacket(block, size) && size - HEADER_SIZE < 0x1_0000
    ensures block[..4] == [(size - HEADER_SIZE) % 0x100, (size - HEADER_SIZE) / 0x100, 0, 0]
  {
    BytesRoundTrip(block[..4]);
    TwoByteNumber(size - HEADER_SIZE);
  }

  /** Appending to the payload and raising the stored length by as much keeps block and header in step. */
  lemma AppendKeepsPacket(block: seq<byte>, size: int, data: seq<byte>)
    requires HoldsPacket(block, size) && size + |data| <= |block| <= INT_MAX
    ensures var after := AddToLength(Splice(block, size, data), |data|);
            && HoldsPacket(after, size + |data|)
            && PacketIn(after, size + |data|)
               == Packet(PacketIn(block, size).protocol, PacketIn(block, size).payload + data)
  {
    var spliced := Splice(block, size, data);
    var after := AddToLength(spliced, |data|);
    var length := size - HEADER_SIZE + |data|;
    assert spliced[..4] == block[..4];
    IntRoundTrip(length);
    assert after[..4] == ToLittleEndian(length);
    assert after[4..8] == spliced[4..8] == block[4..8];
    forall i | 8 <= i < |after|
      ensures after[i] == if i < size then block[i] else if i < size + |data| then data[i - size] else 0
    {
      assert after[i] == spliced[i];
    }
    assert after[8..size + |data|] == block[8..size] + data;
  }

  /** Storing the protocol id changes it and nothing else. */
  lemma ProtocolStored(block: seq<byte>, size: int, protocol: int)
    requires IsInt32(protocol) && HEADER_SIZE <= |block|
    ensures var after := Splice(block, 4, ToLittleEndian(protocol));
            && (0 <= protocol < 0x1_0000 ==> after[4..8] == [protocol % 0x100, protocol / 0x100, 0, 0])
            && (HoldsPacket(block, size) ==>
                  HoldsPacket(after, size) && PacketIn(after, size) == Packet(protocol, PacketIn(block, size).payload))
  {
    var after := Splice(block, 4, ToLittleEndian(protocol));
    assert after[4..8] == ToLittleEndian(protocol) && after[..4] == block[..4] && after[8..] == block[8..];
    IntRoundTrip(protocol);
    if 0 <= protocol < 0x1_0000 {
      TwoByteNumber(protocol);
    }
    if HoldsPacket(block, size) {
      assert forall i :: 8 <= i < |block| ==> after[i] == block[i];
      assert after[8..size] == block[8..size];
    }
  }

  /** Bytes laid over the front of a block are found there again, and over zeros they are all it holds. */
  lemma LaidOver(block: seq<byte>, taken: seq<byte>)
    requires |taken| <= |block|
    ensures var after := Splice(block, 0, taken);
            && (block == Zeros(|block|) ==> ZeroFrom(after, |taken|))
            && (HEADER_SIZE <= |taken| ==> after[..4] == taken[..4])
            && (HoldsPacket(after, |taken|) ==>
                  PacketIn(after, |taken|).Valid() && PacketIn(after, |taken|).Wire() == taken)
  {
    var after := Splice(block, 0, taken);
    assert after[..|taken|] == taken;
    if HoldsPacket(after, |taken|) {
      HeldBytesAreWire(after, |taken|);
    }
  }

  class MyPacket {
    const stream: StreamBuffer

    predicate Valid()
      reads this, stream, stream.buffer
    {
      && stream.Valid()
      && stream.buffer.capacity == BUFFER_SIZE
      && stream.buffer.filledSize == stream.writePos
    }

    function Block(): seq<byte>
      reads this, stream, stream.buffer, stream.buffer.begin
    {
      stream.buffer.Block()
    }

    predicate ZeroTail()
      reads this, stream, stream.buffer, stream.buffer.begin
    {
      ZeroFrom(Block(), stream.writePos)
    }

    /** The header invariant: stored length + header size = write position = fill mark, zeros behind. */
    predicate WellFormed()
      reads this, stream, stream.buffer, stream.buffer.begin
    {
      && Valid()
      && HoldsPacket(Block(), stream.writePos)
      && HEADER_SIZE <= stream.readPos <= stream.writePos
    }

    function Content(): Packet
      requires WellFormed()
      reads this, stream, stream.buffer, stream.buffer.begin
    {
      PacketIn(Block(), stream.writePos)
    }

    /** What `GetBuffer` and `GetPacketSize` hand to the socket. */
    function Sent(): seq<byte>
      requires Valid()
      reads this, stream, stream.buffer, stream.buffer.begin
    {
      Block()[..stream.buffer.filledSize]
    }

    constructor ()
      ensures WellFormed() && fresh(stream) && fresh(stream.buffer) && fresh(stream.buffer.begin)
      ensures Content() == Packet(0, []) && stream.readPos == HEADER_SIZE
    {
      stream := new StreamBuffer.WithCapacity(BUFFER_SIZE);
      new;
      Init();
    }

    constructor WithProtocol(protocol: int)
      requires IsInt32(protocol)
      ensures WellFormed() && fresh(stream) && fresh(stream.buffer) && fresh(stream.buffer.begin)
      ensures Content() == Packet(protocol, []) && stream.readPos == HEADER_SIZE
    {
      stream := new StreamBuffer.WithCapacity(BUFFER_SIZE);
      new;
      Init();
      SetProtocol(protocol);
    }

    /** Receiving side: a packet built from whole packet bytes is that packet. */
    constructor FromBytes(data: array<byte>, size: int)
      requires 0 <= size <= data.Length
      ensures Valid() && fresh(stream) && fresh(stream.buffer) && fresh(stream.buffer.begin)
      ensures stream.readPos == HEADER_SIZE
      ensures WellFormed() <==> size <= BUFFER_SIZE && IsWire(data[..size])
      ensures WellFormed() ==> Content().Valid() && Content().Wire() == data[..size]
    {
      stream := new StreamBuffer.WithCapacity(BUFFER_SIZE);
      new;
      Set(data, size);
      if size <= BUFFER_SIZE {
        IsWireExactlyWhen(data[..size]);
        assert HEADER_SIZE <= size ==> data[..size][..4] == data[..4];
      }
    }

    /** Empties the packet. Only filled bytes are wiped, so the stored length is sure to read 0 when
        the bytes past the fill mark were zero, which `WellFormed` guarantees. */
    method Init()
      requires Valid()
      modifies stream, stream.buffer`filledSize, stream.buffer.begin
      ensures Valid() && stream.readPos == stream.writePos == HEADER_SIZE
      ensures Block() == Wiped(old(Block()), old(stream.writePos))
      ensures Block() == Zeros(BUFFER_SIZE) <==> old(ZeroTail())
      ensures old(ZeroTail()) ==> WellFormed() && Content() == Packet(0, [])
    {
      ClearWipesAll(Block(), stream.writePos);
      stream.Clear();
      stream.ShiftWritePos(HEADER_SIZE);
      stream.ShiftReadPos(HEADER_SIZE);
    }

    /** Lays whole packet bytes, header included, over an emptied packet. Bytes that do not fit are
        refused and leave it empty. The result is well formed exactly when the stored length tells
        the truth about the size. */
    method Set(data: array?<byte>, size: int)
      requires Valid() && 0 <= size
      requires data != null ==> data != stream.buffer.begin && size <= data.Length
      modifies stream, stream.buffer`filledSize, stream.buffer.begin
      ensures Valid() && stream.readPos == HEADER_SIZE
      ensures stream.writePos == if data != null && size <= BUFFER_SIZE then size else 0
      ensures Block() == Splice(Wiped(old(Block()), old(stream.writePos)), 0,
                                if stream.writePos == 0 then [] else data[..size])
      ensures old(ZeroTail()) ==> ZeroTail()
      ensures old(ZeroTail()) ==>
                (WellFormed() <==> data != null && HEADER_SIZE <= size <= BUFFER_SIZE &&
                                   FromLittleEndian(data[..4]) == size - HEADER_SIZE)
      ensures WellFormed() ==> Content().Valid() && Content().Wire() == data[..size]
    {
      Init();
      ghost var wiped := Block();
      stream.ShiftWritePos(-HEADER_SIZE);
      var ok := stream.Write(data, size);
      ghost var taken := if ok then data[..size] else [];
      assert Block() == Splice(wiped, 0, taken);
      LaidOver(wiped, taken);
    }

    /** `*_protocol_id = protocol`. */
    method SetProtocol(protocol: int)
      requires Valid() && IsInt32(protocol)
      modifies stream.buffer.begin
      ensures Valid() && Block() == Splice(old(Block()), 4, ToLittleEndian(protocol))
      ensures 0 <= protocol < 0x1_0000 ==> Block()[4..8] == [protocol % 0x100, protocol / 0x100, 0, 0]
      ensures old(WellFormed()) ==> WellFormed() && Content() == Packet(protocol, old(Content()).payload)
    {
      ghost var before := Block();
      StoreInt(stream.buffer.begin, 4, protocol);
      ProtocolStored(before, stream.writePos, protocol);
    }

    /** Appends to the payload and raises the stored length, or, when the bytes do not fit, changes nothing. */
    method Write(data: array?<byte>, size: int) returns (ok: bool)
      requires Valid() && 0 <= size
      requires data != null ==> data != stream.buffer.begin && size <= data.Length
      modifies stream`writePos, stream.buffer`filledSize, stream.buffer.begin
      ensures Valid()
      ensures ok <==> data != null && size <= BUFFER_SIZE - old(stream.writePos)
      ensures !ok ==> stream.writePos == old(stream.writePos) && Block() == old(Block())
      ensures ok ==> stream.writePos == old(stream.writePos) + size
      ensures ok ==> Block() == AddToLength(Splice(old(Block()), old(stream.writePos), data[..size]), size)
      ensures old(WellFormed()) ==> WellFormed()
      ensures old(WellFormed()) ==>
                Content() ==
                if ok then Packet(old(Content()).protocol, old(Content()).payload + data[..size])
                else old(Content())
      ensures old(WellFormed()) ==>
                var n := stream.writePos - HEADER_SIZE; Block()[..4] == [n % 0x100, n / 0x100, 0, 0]
    {
      ghost var before, at, whole := Block(), stream.writePos, WellFormed();
      ok := stream.Write(data, size);
      if ok {
        ghost var written := data[..size];
        StoreInt(stream.buffer.begin, 0, Wrap32(FromLittleEndian(stream.buffer.begin[..4]) + size));
        ghost var after := AddToLength(Splice(before, at, written), size);
        assert Block() == after;
        if whole {
          AppendKeepsPacket(before, at, written);
        }
      }
      if whole {
        HeldLengthBytes(Block(), stream.writePos);
      }
    }

    /** Takes the next `size` payload bytes out, or, when there are fewer, changes nothing. */
    method Read(data: array?<byte>, size: int) returns (ok: bool)
      requires Valid() && 0 <= size
      requires data != null ==>
                 data != stream.buffer.begin && (size <= stream.GetReadableSize() ==> size <= data.Length)
      modifies stream`readPos, data
      ensures Valid() && Block() == old(Block())
      ensures ok <==> data != null && size <= old(stream.GetReadableSize())
      ensures ok ==> data[..size] == old(stream.Contents())[..size] && data[size..] == old(data[size..])
      ensures !ok && data != null ==> data[..] == old(data[..])
      ensures stream.Contents() == if ok then old(stream.Contents())[size..] else old(stream.Contents())
      ensures stream.readPos == old(stream.readPos) + if ok then size else 0
      ensures old(WellFormed()) ==> WellFormed() && Content() == old(Content())
    {
      ok := stream.Read(data, size);
    }
  }
}
