/** The ring and the compacting stream buffer are the same queue to their callers. */
module Lockstep {
  import opened Bytes
  import opened RingBuffers
  import opened StreamBuffers
  import Fifo

  method ToArray(data: seq<byte>) returns (a: array<byte>)
    ensures fresh(a) && a[..] == data
  {
    a := new byte[|data|](i requires 0 <= i < |data| => data[i]);
  }

  /** One operation on a ring is one step of the plain queue. */
  method ApplyToRing(ring: RingBuffer, op: Fifo.Op) returns (reply: Fifo.Reply)
    requires ring.Valid()
    modifies ring, ring.buffer`filledSize, ring.buffer.begin
    ensures ring.Valid()
    ensures ring.buffer.begin == old(ring.buffer.begin) && ring.buffer.capacity == old(ring.buffer.capacity)
    ensures (ring.Contents(), reply) == Fifo.Step(ring.buffer.capacity, old(ring.Contents()), op)
  {
    match op
    case Write(data) =>
      var a := ToArray(data);
      var ok := ring.Write(a, |data|);
      assert a[..|data|] == data;
      reply := Fifo.Reply(ok, []);
    case Peek(n) =>
      var a := new byte[n];
      ghost var queue := ring.Contents();
      var ok := ring.Peek(a, n);
      assert ok ==> a[..] == a[..n] == queue[..n];
      reply := Fifo.Reply(ok, if ok then a[..] else []);
    case Read(n) =>
      var a := new byte[n];
      ghost var queue := ring.Contents();
      var ok := ring.Read(a, n);
      assert ok ==> a[..] == a[..n] == queue[..n];
      reply := Fifo.Reply(ok, if ok then a[..] else []);
    case Clear =>
      ring.Clear();
      reply := Fifo.Reply(true, []);
  }

  /** One operation on a stream buffer left to itself is one step of the queue that never moves its bytes. */
  method ApplyUncompacted(stream: StreamBuffer, op: Fifo.Op) returns (reply: Fifo.Reply)
    requires stream.Valid() && stream.readPos <= stream.writePos
    modifies stream, stream.buffer`filledSize, stream.buffer.begin
    ensures stream.Valid() && stream.readPos <= stream.writePos
    ensures stream.buffer.begin == old(stream.buffer.begin) && stream.buffer.capacity == old(stream.buffer.capacity)
    ensures (stream.Contents(), stream.writePos, reply) ==
            Fifo.UncompactedStep(stream.buffer.capacity, old(stream.Contents()), old(stream.writePos), op)
  {
    match op
    case Write(data) =>
      var a := ToArray(data);
      var ok := stream.Write(a, |data|);
      assert a[..|data|] == data;
      reply := Fifo.Reply(ok, []);
    case Peek(n) =>
      var a := new byte[n];
      ghost var queue := stream.Contents();
      var ok := stream.Peek(a, n);
      assert ok ==> a[..] == a[..n] == queue[..n];
      reply := Fifo.Reply(ok, if ok then a[..] else []);
    case Read(n) =>
      var a := new byte[n];
      ghost var queue := stream.Contents();
      var ok := stream.Read(a, n);
      assert ok ==> a[..] == a[..n] == queue[..n];
      reply := Fifo.Reply(ok, if ok then a[..] else []);
    case Clear =>
      stream.Clear();
      reply := Fifo.Reply(true, []);
  }

  /** One operation on a stream buffer, followed by `CarriageReturn`, is one step of the plain queue. */
  method ApplyToStream(stream: StreamBuffer, op: Fifo.Op) returns (reply: Fifo.Reply)
    requires stream.Valid() && stream.readPos == 0
    modifies stream, stream.buffer`filledSize, stream.buffer.begin
    ensures stream.Valid() && stream.readPos == 0
    ensures stream.buffer.begin == old(stream.buffer.begin) && stream.buffer.capacity == old(stream.buffer.capacity)
    ensures (stream.Contents(), reply) == Fifo.Step(stream.buffer.capacity, old(stream.Contents()), op)
  {
    reply := ApplyUncompacted(stream, op);
    stream.CarriageReturn();
  }

  /** Over every sequence of operations, a ring and a compacting stream buffer of one capacity give
      the same booleans and the same bytes, those of the plain queue, and end up holding the same
      bytes. What was read out of them, then what is in them, is what the accepted writes put in. */
  method RunBoth(capacity: int, ops: seq<Fifo.Op>)
    returns (fromRing: seq<Fifo.Reply>, fromStream: seq<Fifo.Reply>, inRing: seq<byte>, inStream: seq<byte>)
    requires capacity > 0
    ensures fromRing == fromStream && inRing == inStream
    ensures Fifo.Run(inRing, fromRing) == Fifo.Execute(capacity, ops)
    ensures Fifo.Accepted(ops, fromRing) == Fifo.Returned(ops, fromRing) + inRing
  {
    var ring := new RingBuffer(capacity);
    var stream := new StreamBuffer.WithCapacity(capacity);
    fromRing, fromStream := [], [];
    for i := 0 to |ops|
      invariant ring.Valid() && fresh(ring) && fresh(ring.buffer) && fresh(ring.buffer.begin)
      invariant stream.Valid() && fresh(stream) && fresh(stream.buffer) && fresh(stream.buffer.begin)
      invariant ring.buffer != stream.buffer && ring.buffer.begin != stream.buffer.begin
      invariant stream.readPos == 0 && ring.buffer.capacity == stream.buffer.capacity == capacity
      invariant Fifo.Execute(capacity, ops[..i]) == Fifo.Run(ring.Contents(), fromRing)
      invariant Fifo.Execute(capacity, ops[..i]) == Fifo.Run(stream.Contents(), fromStream)
    {
      Fifo.ExecuteOne(capacity, ops[..i], ops[i]);
      assert ops[..i + 1] == ops[..i] + [ops[i]];
      var a := ApplyToRing(ring, ops[i]);
      var b := ApplyToStream(stream, ops[i]);
      fromRing, fromStream := fromRing + [a], fromStream + [b];
    }
    assert ops[..|ops|] == ops;
    inRing, inStream := ring.Contents(), stream.Contents();
    Fifo.Conservation(capacity, ops);
  }

  /** Over every sequence of operations without `CarriageReturn`, a stream buffer is the queue that
      never moves its bytes. It gives the answers of a ring of its size exactly when every write the ring
      accepts would fit behind everything accepted since the last `Clear`. */
  method RunUncompacted(capacity: int, ops: seq<Fifo.Op>) returns (replies: seq<Fifo.Reply>, waiting: seq<byte>)
    requires capacity > 0
    ensures var run := Fifo.ExecuteUncompacted(capacity, ops); replies == run.replies && waiting == run.queue
    ensures var fromRing := Fifo.Execute(capacity, ops).replies;
            replies == fromRing <==> Fifo.FitsWithoutReuse(capacity, ops, fromRing)
  {
    var stream := new StreamBuffer.WithCapacity(capacity);
    replies := [];
    for i := 0 to |ops|
      invariant stream.Valid() && fresh(stream) && fresh(stream.buffer) && fresh(stream.buffer.begin)
      invariant stream.readPos <= stream.writePos && stream.buffer.capacity == capacity
      invariant Fifo.ExecuteUncompacted(capacity, ops[..i])
                == Fifo.Uncompacted(stream.Contents(), stream.writePos, replies)
    {
      Fifo.ExecuteUncompactedOne(capacity, ops[..i], ops[i]);
      assert ops[..i + 1] == ops[..i] + [ops[i]];
      var reply := ApplyUncompacted(stream, ops[i]);
      replies := replies + [reply];
    }
    assert ops[..|ops|] == ops;
    waiting := stream.Contents();
    Fifo.ReuseUnseenExactlyWhen(capacity, ops);
  }

  /** The smallest way to tell the two apart: space already read out stays spent, so a full stream
      buffer refuses a byte that a ring accepts. */
  method SpentSpace(capacity: int) returns (ringAccepts: bool, streamAccepts: bool)
    requires capacity > 0
    ensures ringAccepts && !streamAccepts
  {
    var ring := new RingBuffer(capacity);
    var r1 := ApplyToRing(ring, Fifo.Write(Zeros(capacity)));
    var r2 := ApplyToRing(ring, Fifo.Read(1));
    var r3 := ApplyToRing(ring, Fifo.Write([0]));
    ringAccepts := r3.ok;
    streamAccepts := StreamTakesOneMore(capacity);
  }

  /** A stream buffer that has been filled, with one byte read out since. */
  method StreamTakesOneMore(capacity: int) returns (accepts: bool)
    requires capacity > 0
    ensures !accepts
  {
    var stream := new StreamBuffer.WithCapacity(capacity);
    var full, one := new byte[capacity], new byte[1];
    var wrote := stream.Write(full, capacity);
    var read := stream.Read(one, 1);
    accepts := stream.Write(one, 1);
  }
}
