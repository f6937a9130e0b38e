/** `RingBuffer`: a circular queue of bytes over one block. */
module RingBuffers {
  import opened Bytes
  import opened Buffers
  import Memory

  /** The modular view of a ring: `n` bytes of `block` from `head` on, indices wrapping at its end. */
  function Window(block: seq<byte>, head: int, n: int): (w: seq<byte>)
    requires 0 <= head < |block| && 0 <= n <= |block|
    ensures |w| == n
  {
    seq(n, i requires 0 <= i < n => block[(head + i) % |block|])
  }

  /** A position at most once around a ring, brought back into it. */
  function Around(i: int, capacity: int): int {
    if i < capacity then i else i - capacity
  }

  lemma WrapIndex(i: int, capacity: int)
    requires 0 <= i < 2 * capacity
    ensures i % capacity == Around(i, capacity)
  {
    var q := i / capacity;
    assert i == capacity * q + i % capacity;
    assert q >= 2 ==> capacity * q >= capacity * 2;
    assert q <= -1 ==> capacity * q <= -capacity;
  }

  /** The one-piece copy and the two-piece copy of the code are both the modular view. */
  lemma WindowPieces(block: seq<byte>, head: int, n: int, size: int)
    requires 0 <= head < |block| && 0 <= size <= n <= |block|
    ensures Window(block, head, n)[..size] ==
            if size <= |block| - head then block[head..head + size]
            else block[head..] + block[..size - (|block| - head)]
  {
    forall i | 0 <= i < size
      ensures Window(block, head, n)[i] == if head + i < |block| then block[head + i] else block[head + i - |block|]
    {
      WrapIndex(head + i, |block|);
    }
  }

  /** Dropping from the front of the window is advancing `head` around the ring. */
  lemma WindowDrop(block: seq<byte>, head: int, n: int, k: int)
    requires 0 <= head < |block| && 0 <= k <= n <= |block|
    ensures Window(block, Around(head + k, |block|), n - k) == Window(block, head, n)[k..]
  {
    var next := Around(head + k, |block|);
    var rest := Window(block, head, n)[k..];
    forall i | 0 <= i < n - k
      ensures Window(block, next, n - k)[i] == rest[i]
    {
      WrapIndex(next + i, |block|);
      WrapIndex(head + k + i, |block|);
    }
  }

  /** Laying `data` into the ring behind the window, around the end of the block where it must wrap. */
  function Put(block: seq<byte>, tail: int, data: seq<byte>): (r: seq<byte>)
    requires 0 <= tail < |block| && |data| <= |block|
    ensures |r| == |block|
  {
    seq(|block|, i requires 0 <= i < |block| =>
      if tail <= i < tail + |data| then data[i - tail]
      else if i + |block| < tail + |data| then data[i + |block| - tail]
      else block[i])
  }

  lemma WindowPut(block: seq<byte>, head: int, n: int, data: seq<byte>)
    requires 0 <= head < |block| && 0 <= n && n + |data| <= |block|
    ensures Window(Put(block, Around(head + n, |block|), data), head, n + |data|) == Window(block, head, n) + data
  {
    var tail := Around(head + n, |block|);
    var put := Put(block, tail, data);
    forall i | 0 <= i < n + |data|
      ensures Window(put, head, n + |data|)[i] == (Window(block, head, n) + data)[i]
    {
      WrapIndex(head + i, |block|);
    }
  }

  class RingBuffer {
    const buffer: Buffer
    var head: int
    var tail: int
    var dataSize: int

    predicate Valid()
      reads this, buffer
    {
      && buffer.Valid() && buffer.filledSize == 0 && buffer.capacity > 0
      && 0 <= head < buffer.capacity
      && 0 <= dataSize <= buffer.capacity
      && tail == Around(head + dataSize, buffer.capacity)
    }

    /** The bytes waiting to be read, oldest first. */
    function Contents(): (q: seq<byte>)
      requires Valid()
      reads this, buffer, buffer.begin
      ensures |q| == dataSize
    {
      Window(buffer.Block(), head, dataSize)
    }

    function Cursor(): RingCursor
      reads this, buffer
    {
      RingCursor(buffer.capacity, head, tail, dataSize)
    }

    constructor (capacity: int)
      requires capacity > 0
      ensures Valid() && fresh(buffer) && fresh(buffer.begin)
      ensures Contents() == [] && Cursor() == RingCursor(capacity, 0, 0, 0)
    {
      buffer := new Buffer.WithCapacity(capacity);
      head, tail, dataSize := 0, 0, 0;
    }

    function GetWritableSize(): int
      reads this, buffer
    {
      buffer.capacity - dataSize
    }

    method Clear()
      requires buffer.Valid() && buffer.filledSize == 0 && buffer.capacity > 0
      modifies this, buffer`filledSize, buffer.begin
      ensures Valid() && Contents() == []
      ensures Cursor() == RingCursor(old(buffer.capacity), 0, 0, 0)
    {
      buffer.Clear();
      head, tail, dataSize := 0, 0, 0;
    }

    /** Never shrinks the block; always empties the queue. */
    method Resize(capacity: int)
      requires Valid()
      modifies this, buffer, buffer.begin
      ensures Valid() && Contents() == []
      ensures buffer.begin == old(buffer.begin) || fresh(buffer.begin)
      ensures Cursor() == old(Cursor()).AfterResize(capacity)
    {
      buffer.ReSize(capacity, true);
      Clear();
    }

    /** Copies the oldest `size` bytes out and changes nothing in the ring. */
    method Peek(buf: array?<byte>, size: int) returns (ok: bool)
      requires Valid() && 0 <= size
      requires buf != null ==> buf != buffer.begin && (size <= dataSize ==> size <= buf.Length)
      modifies buf
      ensures ok <==> buf != null && size <= dataSize
      ensures ok ==> buf[..size] == Contents()[..size] && buf[size..] == old(buf[size..])
      ensures !ok && buf != null ==> buf[..] == old(buf[..])
    {
      if buf == null {
        return false;
      }
      if size > dataSize {
        return false;
      }
      ghost var front, behind := Contents()[..size], buf[size..];
      WindowPieces(buffer.Block(), head, dataSize, size);
      if head < tail {
        Memory.Memcpy(buf, 0, buffer.begin, head, size);
      } else {
        var space := buffer.capacity - head;
        if space >= size {
          Memory.Memcpy(buf, 0, buffer.begin, head, size);
        } else {
          var forwardSpace := size - space;
          Memory.Memcpy(buf, 0, buffer.begin, head, space);
          Memory.Memcpy(buf, space, buffer.begin, 0, forwardSpace);
        }
      }
      assert forall i :: 0 <= i < size ==> buf[i] == front[i];
      assert forall i :: size <= i < buf.Length ==> buf[i] == behind[i - size];
      return true;
    }

    /** Takes the oldest `size` bytes out, or, when there are fewer, changes nothing. */
    method Read(buf: array?<byte>, size: int) returns (ok: bool)
      requires Valid() && 0 <= size
      requires buf != null ==> buf != buffer.begin && (size <= dataSize ==> size <= buf.Length)
      modifies this, buf
      ensures Valid()
      ensures ok <==> buf != null && size <= old(dataSize)
      ensures ok ==> buf[..size] == old(Contents())[..size] && buf[size..] == old(buf[size..])
      ensures !ok && buf != null ==> buf[..] == old(buf[..])
      ensures Contents() == if ok then old(Contents())[size..] else old(Contents())
      ensures Cursor() == if ok then old(Cursor()).AfterRead(size) else old(Cursor())
    {
      ok := Peek(buf, size);
      if ok {
        WindowDrop(buffer.Block(), head, dataSize, size);
        WrapIndex(head + size, buffer.capacity);
        head := (head + size) % buffer.capacity;
        dataSize := dataSize - size;
      }
    }

    /** Appends `size` bytes, or, when they do not all fit, changes nothing. */
    method Write(data: array?<byte>, size: int) returns (ok: bool)
      requires Valid() && 0 <= size
      requires data != null ==> data != buffer.begin && size <= data.Length
      modifies this, buffer.begin
      ensures Valid()
      ensures ok <==> data != null && size <= old(GetWritableSize())
      ensures Contents() == if ok then old(Contents()) + data[..size] else old(Contents())
      ensures Cursor() == if ok then old(Cursor()).AfterWrite(size) else old(Cursor())
    {
      if data == null {
        return false;
      }
      if size > GetWritableSize() {
        return false;
      }
      WindowPut(buffer.Block(), head, dataSize, data[..size]);
      WrapIndex(tail + size, buffer.capacity);
      CopyIn(data, size);
      tail := (tail + size) % buffer.capacity;
      dataSize := dataSize + size;
      return true;
    }

    /** The copying step of `Write`: one piece, or two where the data must wrap. */
    method CopyIn(data: array<byte>, size: int)
      requires buffer.Valid() && 0 <= tail < buffer.capacity && 0 <= size <= buffer.capacity
      requires head > tail ==> size <= buffer.capacity - tail
      requires data != buffer.begin && size <= data.Length
      modifies buffer.begin
      ensures buffer.Block() == Put(old(buffer.Block()), tail, data[..size])
    {
      if head <= tail {
        var space := buffer.capacity - tail;
        if space >= size {
          Memory.Memcpy(buffer.begin, tail, data, 0, size);
        } else {
          var forwardSpace := size - space;
          Memory.Memcpy(buffer.begin, tail, data, 0, space);
          Memory.Memcpy(buffer.begin, 0, data, space, forwardSpace);
        }
      } else {
        Memory.Memcpy(buffer.begin, tail, data, 0, size);
      }
    }
  }

  // ---------- how large the cursor sums get ----------

  datatype RingCursor = RingCursor(capacity: int, head: int, tail: int, size: int) {
    predicate Valid() {
      && 0 <= head < capacity && 0 <= size <= capacity
      && tail == Around(head + size, capacity)
    }

    function AfterRead(n: int): RingCursor {
      this.(head := Around(head + n, capacity), size := size - n)
    }

    function AfterWrite(n: int): RingCursor {
      this.(tail := Around(tail + n, capacity), size := size + n)
    }

    function AfterResize(n: int): RingCursor {
      RingCursor(if n > capacity then n else capacity, 0, 0, 0)
    }
  }

  /** The calls that move a cursor. */
  datatype Move = TakeOut(n: nat) | PutIn(n: nat) | Empty | Resizing(to: int)

  /** Whether every sum the code forms before its `%` fits in a 32-bit `int`, for one call. */
  predicate SumFits(c: RingCursor, move: Move) {
    match move
    case TakeOut(n) => n <= c.size ==> IsInt32(c.head + n)
    case PutIn(n) => n <= c.capacity - c.size ==> IsInt32(c.tail + n)
    case _ => true
  }

  /** Where the cursors stand after one call; one that asks for too much changes nothing. */
  function AfterMove(c: RingCursor, move: Move): (d: RingCursor)
    ensures c.Valid() ==> d.Valid()
  {
    match move
    case TakeOut(n) => if n <= c.size then c.AfterRead(n) else c
    case PutIn(n) => if n <= c.capacity - c.size then c.AfterWrite(n) else c
    case Empty => RingCursor(c.capacity, 0, 0, 0)
    case Resizing(to) => c.AfterResize(to)
  }

  /** Every sum of a run fits. */
  predicate SumsFit(c: RingCursor, moves: seq<Move>)
    decreases |moves|
  {
    moves == [] || (SumFits(c, moves[0]) && SumsFit(AfterMove(c, moves[0]), moves[1..]))
  }

  /** No call asks for a capacity above `most`. */
  predicate ResizesUpTo(moves: seq<Move>, most: int) {
    forall k :: 0 <= k < |moves| && moves[k].Resizing? ==> moves[k].to <= most
  }

  lemma {:induction false} SmallSumsFit(c: RingCursor, moves: seq<Move>)
    requires c.Valid() && c.capacity <= 0x4000_0000 && ResizesUpTo(moves, 0x4000_0000)
    ensures SumsFit(c, moves)
    decreases |moves|
  {
    if moves != [] {
      SmallSumsFit(AfterMove(c, moves[0]), moves[1..]);
    }
  }

  /** Write all but one byte, take them out again, then fill the ring: the tail stands on the last cell. */
  function LargestSum(capacity: int): seq<Move>
    requires capacity > 0
  {
    [Resizing(capacity), PutIn(capacity - 1), TakeOut(capacity - 1), PutIn(capacity)]
  }

  lemma SumsFitCons(c: RingCursor, move: Move, rest: seq<Move>)
    ensures SumsFit(c, [move] + rest) <==> SumFits(c, move) && SumsFit(AfterMove(c, move), rest)
  {
    assert ([move] + rest)[1..] == rest;
  }

  lemma LargestSumIsTooLarge(start: int, capacity: int)
    requires 0 < start <= capacity && capacity > 0x4000_0000
    ensures !SumsFit(RingCursor(start, 0, 0, 0), LargestSum(capacity))
  {
    var c1 := RingCursor(capacity, 0, 0, 0);
    var c2 := c1.AfterWrite(capacity - 1);
    var c3 := c2.AfterRead(capacity - 1);
    assert !SumsFit(c3, [PutIn(capacity)]);
    SumsFitCons(c2, TakeOut(capacity - 1), [PutIn(capacity)]);
    SumsFitCons(c1, PutIn(capacity - 1), [TakeOut(capacity - 1)] + [PutIn(capacity)]);
    var rest := [PutIn(capacity - 1)] + ([TakeOut(capacity - 1)] + [PutIn(capacity)]);
    SumsFitCons(RingCursor(start, 0, 0, 0), Resizing(capacity), rest);
    assert LargestSum(capacity) == [Resizing(capacity)] + rest;
  }

  /** The bound is tight: a ring that starts with one capacity and is never given one above `most`
      overflows an `int` in no run exactly when `most` is at most 2^30. */
  lemma NoOverflowExactlyUpTo(start: int, most: int)
    requires 0 < start <= most
    ensures (forall moves: seq<Move> :: ResizesUpTo(moves, most) ==> SumsFit(RingCursor(start, 0, 0, 0), moves))
            <==> most <= 0x4000_0000
  {
    if most <= 0x4000_0000 {
      forall moves: seq<Move> | ResizesUpTo(moves, most)
        ensures SumsFit(RingCursor(start, 0, 0, 0), moves)
      {
        SmallSumsFit(RingCursor(start, 0, 0, 0), moves);
      }
    } else {
      LargestSumIsTooLarge(start, most);
      assert ResizesUpTo(LargestSum(most), most);
    }
  }
}
