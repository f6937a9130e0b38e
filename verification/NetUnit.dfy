/** The receiving half of `NetUnit`: completed socket reads, packet by packet, in any chunks. */
module NetUnits {
  import opened Bytes
  import opened Draining
  import opened StreamBuffers
  import Memory

  /** `found` are the first packets of what `drained` holds, and the rest comes from `waiting`. */
  ghost predicate DrainedSoFar(find: Boundary, drained: Parsed, found: seq<seq<byte>>, waiting: seq<byte>)
    requires Bounded(find)
  {
    var later := Drain(find, waiting);
    drained == Parsed(found + later.packets, later.rest)
  }

  lemma NothingYet(find: Boundary, drained: Parsed, waiting: seq<byte>, processed: seq<seq<byte>>)
    requires Bounded(find) && drained == Drain(find, waiting)
    ensures DrainedSoFar(find, drained, [], waiting) && processed == processed + []
  {
  }

  lemma DrainOneMore(find: Boundary, drained: Parsed, found: seq<seq<byte>>, waiting: seq<byte>, n: nat)
    requires Bounded(find) && DrainedSoFar(find, drained, found, waiting)
    requires 0 < n == find(waiting)
    ensures DrainedSoFar(find, drained, found + [waiting[..n]], waiting[n..])
  {
    var later := Drain(find, waiting[n..]);
    assert found + ([waiting[..n]] + later.packets) == (found + [waiting[..n]]) + later.packets;
  }

  /** The loads made when `all` is the most there can be: up to the first that sees the unit closed. */
  function LoadsMade(closedAt: nat, all: nat): nat {
    if all <= closedAt then all else closedAt + 1
  }

  function Min(a: nat, b: nat): nat {
    if a < b then a else b
  }

  /** The loads the loop of `Recieved` makes over bytes that drain to `drained`, if all of them see the
      unit active: one before each look for a packet, and one after each packet. */
  ghost function LoopLoads(drained: Parsed): nat {
    2 * |drained.packets| + if drained.rest == [] then 0 else 1
  }

  /** How many packets `n` loads are enough for: two loads each. */
  function Pairs(n: nat): (pairs: nat)
    ensures 2 * pairs <= n <= 2 * pairs + 1
  {
    if n < 2 then 0 else 1 + Pairs(n - 2)
  }

  /** The packets reached with `n` loads, which is all of them if there were more loads. */
  ghost function FoundWith(drained: Parsed, n: nat): seq<seq<byte>> {
    drained.packets[..Min(|drained.packets|, Pairs(n))]
  }

  /** How one turn of the loop ends. */
  datatype Turn = ClosedBefore | NoneWhole | ClosedAfter | Processed

  /** What holds when the loop stops after such a turn, or because nothing is pending. */
  predicate StopsAfter(turn: Turn, found: seq<seq<byte>>, waiting: seq<byte>, closedAt: nat, since: nat, loads: nat) {
    match turn
    case ClosedBefore => waiting != [] && loads == closedAt + 1 == since + 2 * |found| + 1
    case NoneWhole => waiting != [] && loads == since + 2 * |found| + 1 <= closedAt
    case ClosedAfter => found != [] && loads == closedAt + 1 == since + 2 * |found|
    case Processed => waiting == [] && loads == since + 2 * |found| <= closedAt
  }

  lemma LoopStops(find: Boundary, drained: Parsed, turn: Turn, found: seq<seq<byte>>, waiting: seq<byte>,
                  closedAt: nat, since: nat, loads: nat)
    requires Bounded(find) && DrainedSoFar(find, drained, found, waiting)
    requires turn == NoneWhole ==> find(waiting) == 0
    requires StopsAfter(turn, found, waiting, closedAt, since, loads)
    ensures since <= loads == LoadsMade(closedAt, since + LoopLoads(drained))
    ensures FoundWith(drained, loads - since) == found && (loads <= closedAt ==> drained.rest == waiting)
  {
  }

  /** Two more loads follow the loop, if none has seen the unit closed. */
  function AfterTwoMore(closedAt: nat, loads: nat): nat {
    if loads > closedAt then loads else if loads == closedAt then loads + 1 else loads + 2
  }

  /** They find no more packets. */
  lemma AfterLoop(drained: Parsed, found: seq<seq<byte>>, closedAt: nat, since: nat, loop: nat, loads: nat)
    requires since <= loop == LoadsMade(closedAt, since + LoopLoads(drained))
    requires loads == AfterTwoMore(closedAt, loop) && found == FoundWith(drained, loop - since)
    ensures loads == LoadsMade(closedAt, since + LoopLoads(drained) + 2)
    ensures found == FoundWith(drained, loads - since)
  {
  }

  /** Every packet takes at least a byte. */
  lemma {:induction false} FewPackets(find: Boundary, stream: seq<byte>)
    requires Bounded(find)
    ensures var drained := Drain(find, stream); |drained.packets| + |drained.rest| <= |stream|
    decreases |stream|
  {
    if find(stream) > 0 {
      FewPackets(find, stream[find(stream)..]);
    }
  }

  lemma AfterAll(find: Boundary, stream: seq<byte>, drained: Parsed, closedAt: nat, since: nat, loads: nat)
    requires Bounded(find) && drained == Drain(find, stream)
    requires since <= loads == LoadsMade(closedAt, since + LoopLoads(drained) + 2)
    ensures loads <= closedAt ==> FoundWith(drained, loads - since) == drained.packets
    ensures loads + 2 * |drained.rest| <= since + 2 * |stream| + 3
  {
    FewPackets(find, stream);
    assert drained.packets[..|drained.packets|] == drained.packets;
  }

  class NetUnit {
    // Any thread may close the connection at any time, so what the loads of `_is_active` see is up to the
    // environment: this is the number of the first one that sees it closed, or any larger one if none does.
    const closedAt: nat
    // The loads made so far.
    var loads: nat
    // The override of HeaderParsing in the concrete kind of unit.
    const headerParsing: Boundary
    const recvBuffer: StreamBuffer
    var processingSize: int
    // The packets handed to PacketProcessing so far.
    var processed: seq<seq<byte>>

    ghost predicate Valid()
      reads this`processingSize, this`loads, recvBuffer, recvBuffer.buffer
    {
      && Bounded(headerParsing)
      && recvBuffer.Valid() && recvBuffer.buffer.capacity > 0
      && recvBuffer.readPos <= recvBuffer.writePos
      && processingSize == recvBuffer.GetReadableSize()
      && loads <= closedAt
    }

    /** Bytes received and not yet processed. */
    function Pending(): seq<byte>
      requires recvBuffer.Valid()
      reads recvBuffer, recvBuffer.buffer, recvBuffer.buffer.begin
    {
      recvBuffer.Contents()
    }

    constructor (headerParsing: Boundary, closedAt: nat, recvBufferSize: int)
      requires Bounded(headerParsing) && recvBufferSize > 0
      ensures this.headerParsing == headerParsing && this.closedAt == closedAt && loads == 0
      ensures Valid() && processed == [] && Pending() == []
      ensures recvBuffer.readPos == 0 && recvBuffer.buffer.capacity == recvBufferSize
      ensures fresh(recvBuffer) && fresh(recvBuffer.buffer) && fresh(recvBuffer.buffer.begin)
    {
      this.headerParsing, this.closedAt, loads := headerParsing, closedAt, 0;
      recvBuffer := new StreamBuffer.WithCapacity(recvBufferSize);
      processingSize := 0;
      processed := [];
    }

    /** `atomic_load(&_is_active)`. */
    method LoadActive() returns (active: bool)
      modifies this`loads
      ensures loads == old(loads) + 1 && active == (loads <= closedAt)
    {
      active := loads < closedAt;
      loads := loads + 1;
    }

    /** The application's handler. */
    method PacketProcessing(packet: seq<byte>)
      modifies this`processed
      ensures processed == old(processed) + [packet]
    {
      processed := processed + [packet];
    }

    /** The socket completes a pending read: it has put `chunk` behind the write position. */
    method SocketDelivers(chunk: seq<byte>)
      requires Valid() && |chunk| <= recvBuffer.GetWritableSize()
      modifies recvBuffer.buffer.begin
      ensures Valid() && Pending() == old(Pending())
      ensures recvBuffer.buffer.begin[recvBuffer.writePos..recvBuffer.writePos + |chunk|] == chunk
    {
      var block := recvBuffer.buffer.begin;
      forall i | 0 <= i < |chunk| {
        block[recvBuffer.writePos + i] := chunk[i];
      }
    }

    /** One turn of the loop of `Recieved`: processes a packet, if there is a whole one. The first load
        may see the connection closed, and so may the second, after the packet has been processed. */
    method NextPacket() returns (turn: Turn)
      requires Valid() && Pending() != []
      modifies this`loads, this`processed, this`processingSize, recvBuffer`readPos
      ensures var n := headerParsing(old(Pending()));
              match turn
              case ClosedBefore => old(loads) == closedAt && loads == old(loads) + 1 && processed == old(processed)
              case NoneWhole =>
                && n == 0 && loads == old(loads) + 1 && processed == old(processed)
                && Valid() && Pending() == old(Pending())
              case ClosedAfter =>
                && n > 0 && old(loads) + 1 == closedAt && loads == old(loads) + 2
                && processed == old(processed) + [old(Pending())[..n]]
              case Processed =>
                && n > 0 && loads == old(loads) + 2 && processed == old(processed) + [old(Pending())[..n]]
                && Valid() && Pending() == old(Pending())[n..]
    {
      var active := LoadActive();
      if !active {
        return ClosedBefore;
      }
      var waiting := Pending();
      var packetSize := headerParsing(waiting);
      if packetSize == 0 {
        return NoneWhole;
      }
      PacketProcessing(waiting[..packetSize]);
      active := LoadActive();
      if !active {
        return ClosedAfter;
      }
      recvBuffer.ShiftReadPos(packetSize);
      processingSize := processingSize - packetSize;
      return Processed;
    }

    /** The loop of `Recieved`: processes the whole packets at the front of the pending bytes. As soon as
        a load sees the connection closed, it stops there; it stops for nothing else. */
    method ProcessWholePackets(ghost drained: Parsed) returns (completed: bool, ghost found: seq<seq<byte>>)
      requires Valid() && drained == Drain(headerParsing, Pending())
      modifies this`loads, this`processed, this`processingSize, recvBuffer`readPos
      ensures loads == LoadsMade(closedAt, old(loads) + LoopLoads(drained)) >= old(loads)
      ensures found == FoundWith(drained, loads - old(loads)) && processed == old(processed) + found
      ensures completed == (loads <= closedAt)
      ensures completed ==> Valid() && Pending() == drained.rest
    {
      ghost var before, since, waiting := processed, loads, Pending();
      var turn := Processed;
      found := [];
      NothingYet(headerParsing, drained, waiting, before);
      while processingSize > 0
        invariant turn == Processed && Valid() && processed == before + found && waiting == Pending()
        invariant DrainedSoFar(headerParsing, drained, found, waiting)
        invariant loads == since + 2 * |found|
        decreases |waiting|
      {
        turn := NextPacket();
        if turn == ClosedBefore || turn == NoneWhole {
          break;
        }
        ghost var n := headerParsing(waiting);
        DrainOneMore(headerParsing, drained, found, waiting, n);
        Associative(before, found, [waiting[..n]]);
        found, waiting := found + [waiting[..n]], waiting[n..];
        if turn == ClosedAfter {
          break;
        }
      }
      LoopStops(headerParsing, drained, turn, found, waiting, closedAt, since, loads);
      completed := turn != ClosedBefore && turn != ClosedAfter;
    }

    /** `RecieveRequest`: asks for the next read, unless the unit has been closed. */
    method RecieveRequest() returns (offered: bool)
      modifies this`loads
      ensures loads == old(loads) + 1 && offered == (loads <= closedAt)
    {
      offered := LoadActive();
    }

    /** The rest of `Recieved`: compacts the buffer and asks for more, unless the unit has been closed. */
    method AskForMore() returns (completed: bool)
      requires Valid()
      modifies this`loads, recvBuffer, recvBuffer.buffer`filledSize, recvBuffer.buffer.begin
      ensures loads == AfterTwoMore(closedAt, old(loads))
      ensures completed == (loads <= closedAt)
      ensures completed ==> Valid() && recvBuffer.readPos == 0 && Pending() == old(Pending())
    {
      completed := LoadActive();
      if !completed {
        return;
      }
      recvBuffer.CarriageReturn();
      completed := RecieveRequest();
    }

    /** The first two statements of `Recieved`: what the socket has put behind the write position is
        received and waits to be processed. */
    method TakeIn(recvBytes: int, ghost chunk: seq<byte>)
      requires Valid() && 0 <= recvBytes <= recvBuffer.GetWritableSize()
      requires recvBuffer.buffer.begin[recvBuffer.writePos..recvBuffer.writePos + recvBytes] == chunk
      modifies this`processingSize, recvBuffer`writePos, recvBuffer.buffer`filledSize
      ensures Valid() && Pending() == old(Pending()) + chunk
    {
      recvBuffer.ShiftWritePos(recvBytes);
      processingSize := processingSize + recvBytes;
    }

    /** The socket has put `chunk` behind the write position. Processes every whole packet received so far,
        keeps the unfinished rest at the front of the buffer and asks for more, which takes two more loads.
        If one sees the connection closed, it stops there. The code returns nothing; `completed` says here
        that a new read was asked for. */
    method Recieved(recvBytes: int, ghost chunk: seq<byte>, ghost drained: Parsed) returns (completed: bool)
      requires Valid() && 0 <= recvBytes <= recvBuffer.GetWritableSize()
      requires recvBuffer.buffer.begin[recvBuffer.writePos..recvBuffer.writePos + recvBytes] == chunk
      requires drained == Drain(headerParsing, Pending() + chunk)
      modifies this`loads, this`processed, this`processingSize
      modifies recvBuffer, recvBuffer.buffer`filledSize, recvBuffer.buffer.begin
      ensures loads == LoadsMade(closedAt, old(loads) + LoopLoads(drained) + 2) >= old(loads)
      ensures processed == old(processed) + FoundWith(drained, loads - old(loads))
      ensures if completed then loads <= closedAt else loads == closedAt + 1
      ensures completed ==> Valid() && recvBuffer.readPos == 0 && Pending() == drained.rest
    {
      TakeIn(recvBytes, chunk);
      ghost var found;
      completed, found := ProcessWholePackets(drained);
      ghost var loop := loads;
      if completed {
        completed := AskForMore();
      }
      AfterLoop(drained, found, closedAt, old(loads), loop, loads);
    }

    /** A whole receive: the socket completes its read of `chunk`, and a worker thread reports it. */
    method Accept(chunk: seq<byte>, ghost drained: Parsed) returns (completed: bool)
      requires Valid() && |chunk| <= recvBuffer.GetWritableSize()
      requires drained == Drain(headerParsing, Pending() + chunk)
      modifies this`loads, this`processed, this`processingSize
      modifies recvBuffer, recvBuffer.buffer`filledSize, recvBuffer.buffer.begin
      ensures loads == LoadsMade(closedAt, old(loads) + LoopLoads(drained) + 2) >= old(loads)
      ensures processed == old(processed) + FoundWith(drained, loads - old(loads))
      ensures loads + 2 * |drained.rest| <= old(loads) + 2 * (|old(Pending())| + |chunk|) + 3
      ensures if completed then loads <= closedAt else loads == closedAt + 1
      ensures completed ==>
                && processed == old(processed) + drained.packets
                && Valid() && recvBuffer.readPos == 0 && Pending() == drained.rest
    {
      ghost var stream := Pending() + chunk;
      SocketDelivers(chunk);
      completed := Recieved(|chunk|, chunk, drained);
      AfterAll(headerParsing, stream, drained, closedAt, old(loads), loads);
    }
  }

  // ---------- a whole connection ----------

  /** How a connection ends: with all bytes received; closed from outside; or because the buffer is
      full. In that case the next read has length 0, and its completion with 0 bytes is taken for the
      other side's closing. */
  datatype Outcome = Completed | Dropped | Full

  /** What a receiver that has drained `arrived` gets out of the next chunk: never more than the
      whole stream holds. */
  lemma NextChunk(find: Boundary, arrived: seq<byte>, chunk: seq<byte>, last: seq<byte>)
    requires Bounded(find) && Stable(find)
    ensures var before := Drain(find, arrived);
            var next := Drain(find, before.rest + chunk);
            && Drain(find, arrived + chunk) == Parsed(before.packets + next.packets, next.rest)
            && before.packets + next.packets <= Drain(find, (arrived + chunk) + last).packets
  {
    DrainInTwo(find, arrived, chunk);
    DrainInTwo(find, arrived + chunk, last);
  }

  /** What has been found stays found. */
  lemma PacketsGrow(find: Boundary, a: seq<byte>, b: seq<byte>)
    requires Bounded(find) && Stable(find)
    ensures Drain(find, a).packets <= Drain(find, a + b).packets
  {
    DrainInTwo(find, a, b);
  }

  ghost predicate FoundBy(find: Boundary, stream: seq<byte>, k: nat, processed: seq<seq<byte>>)
    requires Bounded(find) && k <= |stream|
  {
    Drain(find, stream[..k]).packets <= processed
  }

  /** All packets that were whole a buffer's size ago are among `processed`. */
  ghost predicate NotFarBehind(find: Boundary, stream: seq<byte>, processed: seq<seq<byte>>, received: nat, size: nat)
    requires Bounded(find) && received <= |stream|
  {
    forall k :: 0 <= k && k + size <= received ==> FoundBy(find, stream, k, processed)
  }

  lemma PrefixOfPrefix<T>(a: seq<T>, b: seq<T>, s: seq<T>, k: nat)
    requires k <= |a| && a + b <= s
    ensures s[..k] == a[..k] && a[..k] + a[k..] == a
  {
    assert s[..k] == (a + b)[..k];
  }

  lemma LastChunkOnly(find: Boundary, arrived: seq<byte>, chunk: seq<byte>, stream: seq<byte>,
                      processed: seq<seq<byte>>, size: nat)
    requires Bounded(find) && Stable(find)
    requires arrived + chunk <= stream && |chunk| <= size && Drain(find, arrived).packets <= processed
    ensures NotFarBehind(find, stream, processed, |arrived| + |chunk|, size)
  {
    forall k | 0 <= k && k + size <= |arrived| + |chunk|
      ensures FoundBy(find, stream, k, processed)
    {
      PrefixOfPrefix(arrived, chunk, stream, k);
      PacketsGrow(find, arrived[..k], arrived[k..]);
    }
  }

  lemma StartsWith<T>(a: seq<T>, b: seq<T>, n: nat, whole: seq<T>)
    requires n <= |b| && a + b <= whole
    ensures a <= a + b[..n] <= whole
  {
    assert a + b[..n] == (a + b)[..|a| + n];
  }

  /** While the next chunk arrives, what waits stays below the space there is for it. */
  lemma StaysBelow(find: Boundary, arrived: seq<byte>, chunk: seq<byte>, stream: seq<byte>, capacity: nat)
    requires Bounded(find) && Stable(find)
    requires arrived + chunk <= stream && |Drain(find, arrived).rest| + |chunk| <= capacity
    requires NotFullBefore(find, stream, |arrived|, capacity)
    ensures NotFullBefore(find, stream, |arrived + chunk|, capacity)
  {
    forall k | |arrived| <= k < |arrived + chunk|
      ensures !FilledAt(find, stream, k, capacity)
    {
      var part := chunk[..k - |arrived|];
      assert stream[..k] == (arrived + chunk)[..k] == arrived + part;
      DrainInTwo(find, arrived, part);
    }
  }

  ghost predicate NotFullBefore(find: Boundary, stream: seq<byte>, upTo: nat, capacity: nat)
    requires Bounded(find) && upTo <= |stream|
  {
    forall k :: 0 <= k < upTo ==> !FilledAt(find, stream, k, capacity)
  }

  /** What the next `n` bytes do to a receiver that has drained `arrived`. */
  lemma BytesCome(find: Boundary, arrived: seq<byte>, coming: seq<byte>, n: nat, capacity: nat)
    requires Bounded(find) && Stable(find) && n <= |coming|
    requires |Drain(find, arrived).rest| + n <= capacity
    requires NotFullBefore(find, arrived + coming, |arrived|, capacity)
    ensures var before := Drain(find, arrived);
            var next := Drain(find, before.rest + coming[..n]);
            && Drain(find, arrived + coming[..n]) == Parsed(before.packets + next.packets, next.rest)
            && before.packets + next.packets <= Drain(find, arrived + coming).packets
    ensures NotFullBefore(find, arrived + coming, |arrived| + n, capacity)
  {
    CutChunk(arrived, coming, n);
    NextChunk(find, arrived, coming[..n], coming[n..]);
    StaysBelow(find, arrived, coming[..n], arrived + coming, capacity);
  }

  /** What has been processed when the connection drops while they are. */
  lemma CutShort(find: Boundary, arrived: seq<byte>, coming: seq<byte>, n: nat, capacity: nat,
                 drained: Parsed, loads: nat, processed: seq<seq<byte>>)
    requires Bounded(find) && Stable(find) && n <= |coming| && n <= capacity
    requires Drain(find, arrived).packets + drained.packets <= Drain(find, arrived + coming).packets
    requires processed == Drain(find, arrived).packets + FoundWith(drained, loads)
    ensures processed <= Drain(find, arrived + coming).packets
    ensures NotFarBehind(find, arrived + coming, processed, |arrived| + n, capacity)
  {
    CutChunk(arrived, coming, n);
    StartsWith(Drain(find, arrived).packets, drained.packets, Min(|drained.packets|, Pairs(loads)),
               Drain(find, arrived + coming).packets);
    LastChunkOnly(find, arrived, coming[..n], arrived + coming, processed, capacity);
  }

  /** One read of a connection over which `arrived` has come and `coming` will: the socket delivers some
      next bytes, as many as it likes, but no more than there is space for. */
  method ReadOnce(unit: NetUnit, ghost arrived: seq<byte>, coming: seq<byte>) returns (offered: bool, n: nat)
    requires unit.Valid() && Stable(unit.headerParsing) && unit.recvBuffer.readPos == 0
    requires coming != [] && unit.recvBuffer.GetWritableSize() > 0
    requires Drain(unit.headerParsing, arrived) == Parsed(unit.processed, unit.Pending())
    requires NotFullBefore(unit.headerParsing, arrived + coming, |arrived|, unit.recvBuffer.buffer.capacity)
    modifies unit`loads, unit`processed, unit`processingSize
    modifies unit.recvBuffer, unit.recvBuffer.buffer`filledSize, unit.recvBuffer.buffer.begin
    ensures 1 <= n <= |coming|
    ensures if offered then unit.loads <= unit.closedAt else unit.loads == unit.closedAt + 1
    ensures offered ==>
              && unit.Valid() && unit.recvBuffer.readPos == 0
              && Drain(unit.headerParsing, arrived + coming[..n]) == Parsed(unit.processed, unit.Pending())
              && NotFullBefore(unit.headerParsing, arrived + coming, |arrived| + n, unit.recvBuffer.buffer.capacity)
    ensures unit.loads + (if offered then 2 * |unit.Pending()| else 0)
            <= old(unit.loads) + 2 * |old(unit.Pending())| + 2 * n + 3
    ensures !offered ==>
              && unit.processed <= Drain(unit.headerParsing, arrived + coming).packets
              && NotFarBehind(unit.headerParsing, arrived + coming, unit.processed, |arrived| + n,
                              unit.recvBuffer.buffer.capacity)
  {
    n :| 1 <= n <= |coming| && n <= unit.recvBuffer.GetWritableSize();
    ghost var find, size, since := unit.headerParsing, unit.recvBuffer.buffer.capacity, unit.loads;
    ghost var drained := Drain(find, unit.Pending() + coming[..n]);
    BytesCome(find, arrived, coming, n, size);
    offered := unit.Accept(coming[..n], drained);
    if !offered {
      CutShort(find, arrived, coming, n, size, drained, unit.loads - since, unit.processed);
    }
  }

  /** A connection: the socket delivers a stream, any bytes at all, in chunks cut in any way that fits
      the space it is offered. Unless some load sees it closed, everything the boundary rule finds in the
      stream is processed, in order, exactly if what waits never fills the buffer. Otherwise the
      connection ends with the buffer full, and everything found in the bytes received until then has
      been processed. The connection drops exactly if one of the loads, of which there are no more than five
      for each byte, sees it closed. */
  method RunConnection(find: Boundary, closedAt: nat, recvBufferSize: int, stream: seq<byte>)
    returns (processed: seq<seq<byte>>, pending: seq<byte>, outcome: Outcome, received: nat, loads: nat)
    requires Bounded(find) && Stable(find)
    requires recvBufferSize > 0
    ensures loads <= 5 * |stream| + 1
    ensures match outcome
            case Completed =>
              && Drain(find, stream) == Parsed(processed, pending) && !Fills(find, stream, recvBufferSize)
              && loads <= closedAt
            case Dropped =>
              && received <= |stream| && NotFarBehind(find, stream, processed, received, recvBufferSize)
              && processed <= Drain(find, stream).packets && loads == closedAt + 1
            case Full =>
              && received < |stream| && Drain(find, stream[..received]) == Parsed(processed, pending)
              && |pending| == recvBufferSize && Fills(find, stream, recvBufferSize)
              && processed <= Drain(find, stream).packets && loads <= closedAt
  {
    var unit := new NetUnit(find, closedAt, recvBufferSize);
    var remaining := stream;
    received := 0;
    ghost var arrived := [];
    var offered := unit.RecieveRequest();
    if !offered {
      return [], [], Dropped, 0, unit.loads;
    }
    while remaining != []
      invariant fresh(unit) && fresh(unit.recvBuffer)
      invariant fresh(unit.recvBuffer.buffer) && fresh(unit.recvBuffer.buffer.begin)
      invariant unit.headerParsing == find && unit.Valid() && unit.recvBuffer.readPos == 0
      invariant unit.recvBuffer.buffer.begin.Length == recvBufferSize && unit.closedAt == closedAt
      invariant arrived + remaining == stream && received == |arrived|
      invariant Drain(find, arrived).packets == unit.processed && Drain(find, arrived).rest == unit.Pending()
      invariant NotFullBefore(find, stream, received, recvBufferSize)
      invariant unit.loads + 2 * |unit.Pending()| <= 5 * received + 1
      decreases |remaining|
    {
      assert arrived == stream[..received];
      if unit.recvBuffer.GetWritableSize() == 0 {
        PacketsGrow(find, arrived, remaining);
        assert FilledAt(find, stream, received, recvBufferSize);
        return unit.processed, unit.Pending(), Full, received, unit.loads;
      }
      var n;
      offered, n := ReadOnce(unit, arrived, remaining);
      ghost var chunk := remaining[..n];
      CutChunk(arrived, remaining, n);
      received, remaining := received + n, remaining[n..];
      if !offered {
        return unit.processed, [], Dropped, received, unit.loads;
      }
      arrived := arrived + chunk;
    }
    assert arrived == stream;
    return unit.processed, unit.Pending(), Completed, received, unit.loads;
  }
}
