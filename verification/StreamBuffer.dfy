/** `StreamBuffer`: a queue of bytes between two cursors over one block, with compaction on request. */
module StreamBuffers {
  import opened Bytes
  import opened Buffers
  import Memory

  /** The bytes between the cursors; none when the write position has been moved below the read position. */
  function Between(block: seq<byte>, readPos: int, writePos: int): (q: seq<byte>)
    requires 0 <= readPos <= |block| && 0 <= writePos <= |block|
    ensures |q| == if readPos <= writePos then writePos - readPos else 0
  {
    if readPos <= writePos then block[readPos..writePos] else []
  }

  lemma BetweenAgain(block: seq<byte>, waiting: seq<byte>)
    requires |waiting| <= |block| && forall i :: 0 <= i < |waiting| ==> block[i] == waiting[i]
    ensures Between(block, 0, |waiting|) == waiting
  {
  }

  /** Every waiting byte at or past the fill mark is zero. */
  predicate WaitingZeroFrom(block: seq<byte>, filled: int, readPos: int, writePos: int)
    requires 0 <= readPos && writePos <= |block|
  {
    forall i :: readPos <= i < writePos && filled <= i ==> block[i] == 0
  }

  /** A copy shows the same waiting bytes exactly when the ones past the source's fill mark are zero. */
  lemma CopyKeepsExactly(block: seq<byte>, filled: nat, readPos: int, writePos: int)
    requires 0 <= readPos <= |block| && 0 <= writePos <= |block| && filled <= |block|
    ensures Between(KeepFilled(block, filled), readPos, writePos) == Between(block, readPos, writePos)
            <==> WaitingZeroFrom(block, filled, readPos, writePos)
  {
    var copy := KeepFilled(block, filled);
    if readPos < writePos {
      assert forall i :: 0 <= i < |block| ==> copy[i] == if i < filled then block[i] else 0;
      if Between(copy, readPos, writePos) == Between(block, readPos, writePos) {
        forall i | readPos <= i < writePos && filled <= i
          ensures block[i] == 0
        {
          assert Between(copy, readPos, writePos)[i - readPos] == Between(block, readPos, writePos)[i - readPos];
        }
      }
    }
  }

  class StreamBuffer {
    const buffer: Buffer
    var readPos: int
    var writePos: int

    /** The fill mark normally equals the write position; a copy assignment leaves it behind, at 0. */
    predicate Valid()
      reads this, buffer
    {
      && buffer.Valid()
      && 0 <= readPos <= buffer.capacity
      && 0 <= buffer.filledSize <= writePos <= buffer.capacity
    }

    /** The bytes waiting to be read, oldest first. */
    function Contents(): (q: seq<byte>)
      requires Valid()
      reads this, buffer, buffer.begin
    {
      Between(buffer.Block(), readPos, writePos)
    }

    function GetReadableSize(): int
      reads this
    {
      writePos - readPos
    }

    function GetWritableSize(): int
      reads this, buffer
    {
      buffer.capacity - writePos
    }

    constructor ()
      ensures Valid() && fresh(buffer) && fresh(buffer.begin)
      ensures buffer.capacity == readPos == writePos == 0
    {
      buffer := new Buffer();
      readPos, writePos := 0, 0;
    }

    constructor WithCapacity(capacity: int)
      requires capacity > 0
      ensures Valid() && fresh(buffer) && fresh(buffer.begin)
      ensures buffer.capacity == capacity && buffer.Block() == Zeros(capacity)
      ensures readPos == writePos == buffer.filledSize == 0 && Contents() == []
    {
      buffer := new Buffer.WithCapacity(capacity);
      readPos, writePos := 0, 0;
    }

    /** Copy construction repairs the fill mark that `Buffer`'s own copy constructor loses. */
    constructor Copy(other: StreamBuffer)
      requires other.Valid() && other.buffer.capacity > 0
      ensures Valid() && fresh(buffer) && fresh(buffer.begin)
      ensures buffer.capacity == other.buffer.capacity && buffer.filledSize == other.buffer.filledSize
      ensures readPos == other.readPos && writePos == other.writePos
      ensures buffer.Block() == KeepFilled(other.buffer.Block(), other.buffer.filledSize)
      ensures Contents() == other.Contents()
              <==> WaitingZeroFrom(other.buffer.Block(), other.buffer.filledSize, readPos, writePos)
    {
      CopyKeepsExactly(other.buffer.Block(), other.buffer.filledSize, other.readPos, other.writePos);
      readPos, writePos := other.readPos, other.writePos;
      var b := new Buffer.WithCapacity(other.buffer.capacity);
      Memory.Memcpy(b.begin, 0, other.buffer.begin, 0, other.buffer.filledSize);
      b.SetSize(other.buffer.filledSize);
      buffer := b;
    }

    /** Move construction takes the block, the fill mark and the cursors, and empties the source. */
    constructor Move(other: StreamBuffer)
      requires other.Valid()
      modifies other, other.buffer
      ensures Valid() && fresh(buffer) && buffer.begin == old(other.buffer.begin)
      ensures buffer.filledSize == old(other.buffer.filledSize)
      ensures Contents() == old(other.Contents())
      ensures readPos == old(other.readPos) && writePos == old(other.writePos)
      ensures other.Valid() && other.buffer.capacity == other.readPos == other.writePos == 0
    {
      buffer := new Buffer.Move(other.buffer);
      readPos, writePos := other.readPos, other.writePos;
      new;
      other.readPos, other.writePos := 0, 0;
    }

    /** Copy assignment. */
    method AssignFrom(other: StreamBuffer)
      requires Valid() && other.Valid() && other.buffer.capacity > 0
      requires this != other ==> buffer != other.buffer
      modifies this, buffer
      ensures Valid()
      ensures this == other ==> unchanged(this) && unchanged(buffer)
      ensures this != other ==> fresh(buffer.begin) && buffer.capacity == other.buffer.capacity
      ensures this != other ==> readPos == other.readPos && writePos == other.writePos && buffer.filledSize == 0
      ensures this != other ==> buffer.Block() == KeepFilled(other.buffer.Block(), other.buffer.filledSize)
      ensures this != other ==>
                (Contents() == other.Contents()
                 <==> WaitingZeroFrom(other.buffer.Block(), other.buffer.filledSize, readPos, writePos))
    {
      if this != other {
        CopyKeepsExactly(other.buffer.Block(), other.buffer.filledSize, other.readPos, other.writePos);
        buffer.AssignFrom(other.buffer);
        readPos := other.readPos;
        writePos := other.writePos;
      }
    }

    /** Move assignment. */
    method MoveFrom(other: StreamBuffer)
      requires Valid() && other.Valid()
      requires this != other ==> buffer != other.buffer
      modifies this, buffer, other, other.buffer
      ensures Valid() && other.Valid()
      ensures this == other ==> unchanged(this) && unchanged(buffer)
      ensures this != other ==>
                buffer.begin == old(other.buffer.begin) && buffer.filledSize == old(other.buffer.filledSize)
      ensures this != other ==> readPos == old(other.readPos) && writePos == old(other.writePos)
      ensures this != other ==> Contents() == old(other.Contents())
      ensures this != other ==> other.buffer.capacity == other.readPos == other.writePos == 0
    {
      if this != other {
        buffer.MoveFrom(other.buffer);
        readPos := other.readPos;
        writePos := other.writePos;
        other.readPos := 0;
        other.writePos := 0;
      }
    }

    method Clear()
      requires Valid()
      modifies this, buffer`filledSize, buffer.begin
      ensures Valid() && Contents() == []
      ensures readPos == writePos == buffer.filledSize == 0
      ensures buffer.Block() == Splice(old(buffer.Block()), 0, Zeros(old(buffer.filledSize)))
    {
      buffer.Clear();
      readPos := 0;
      writePos := 0;
    }

    /** Never shrinks the block; always empties the queue. */
    method Resize(capacity: int)
      requires Valid()
      modifies this, buffer, buffer.begin
      ensures Valid() && Contents() == []
      ensures buffer.begin == old(buffer.begin) || fresh(buffer.begin)
      ensures readPos == writePos == buffer.filledSize == 0
      ensures buffer.capacity == if capacity > old(buffer.capacity) then capacity else old(buffer.capacity)
    {
      buffer.ReSize(capacity, true);
      Clear();
    }

    /** Copies the oldest `size` bytes out and changes nothing in the queue. */
    method Peek(buf: array?<byte>, size: int) returns (ok: bool)
      requires Valid() && 0 <= size
      requires buf != null ==> buf != buffer.begin && (size <= GetReadableSize() ==> size <= buf.Length)
      modifies buf
      ensures ok <==> buf != null && size <= GetReadableSize()
      ensures ok ==> buf[..size] == Contents()[..size] && buf[size..] == old(buf[size..])
      ensures !ok && buf != null ==> buf[..] == old(buf[..])
    {
      if buf == null {
        return false;
      }
      if size > GetReadableSize() {
        return false;
      }
      ghost var front, behind := Contents()[..size], buf[size..];
      Memory.Memcpy(buf, 0, buffer.begin, readPos, size);
      assert forall i :: 0 <= i < size ==> buf[i] == front[i];
      assert forall i :: size <= i < buf.Length ==> buf[i] == behind[i - size];
      return true;
    }

    /** Takes the oldest `size` bytes out, or, when there are fewer, changes nothing. */
    method Read(buf: array?<byte>, size: int) returns (ok: bool)
      requires Valid() && 0 <= size
      requires buf != null ==> buf != buffer.begin && (size <= GetReadableSize() ==> size <= buf.Length)
      modifies this`readPos, buf
      ensures Valid()
      ensures ok <==> buf != null && size <= old(GetReadableSize())
      ensures ok ==> buf[..size] == old(Contents())[..size] && buf[size..] == old(buf[size..])
      ensures !ok && buf != null ==> buf[..] == old(buf[..])
      ensures Contents() == if ok then old(Contents())[size..] else old(Contents())
      ensures readPos == old(readPos) + if ok then size else 0
    {
      ok := Peek(buf, size);
      if ok {
        readPos := readPos + size;
      }
    }

    /** Lays `size` bytes down at the write position, or, when they do not all fit, changes nothing. */
    method Write(data: array?<byte>, size: int) returns (ok: bool)
      requires Valid() && 0 <= size
      requires data != null ==> data != buffer.begin && size <= data.Length
      modifies this`writePos, buffer`filledSize, buffer.begin
      ensures Valid()
      ensures ok <==> data != null && size <= old(GetWritableSize())
      ensures !ok ==> unchanged(this) && unchanged(buffer) && buffer.Block() == old(buffer.Block())
      ensures ok ==> writePos == old(writePos) + size && buffer.filledSize == old(buffer.filledSize) + size
      ensures ok ==> buffer.Block() == Splice(old(buffer.Block()), old(writePos), data[..size])
      ensures ok && readPos <= old(writePos) ==> Contents() == old(Contents()) + data[..size]
    {
      if data == null {
        return false;
      }
      if size > GetWritableSize() {
        return false;
      }
      Memory.Memcpy(buffer.begin, writePos, data, 0, size);
      buffer.AddSize(size);
      writePos := writePos + size;
      return true;
    }

    /** Slides the waiting bytes to the front of the block: none is lost, and what had been read is writable again. */
    method CarriageReturn()
      requires Valid()
      modifies this, buffer`filledSize, buffer.begin
      ensures Valid() && Contents() == old(Contents())
      ensures readPos == 0 && writePos == buffer.filledSize == |old(Contents())|
      ensures old(readPos <= writePos) ==> GetWritableSize() == old(GetWritableSize()) + old(readPos)
    {
      var moveSize := writePos - readPos;
      if moveSize > 0 {
        Memory.MoveToFront(buffer.begin, readPos, moveSize);
      } else if moveSize < 0 {
        moveSize := 0;
      }
      readPos := 0;
      writePos := moveSize;
      buffer.SetSize(moveSize);
    }

    method ShiftReadPos(offset: int)
      requires Valid() && 0 <= readPos + offset <= buffer.capacity
      modifies this`readPos
      ensures Valid() && readPos == old(readPos) + offset
      ensures 0 <= offset <= old(GetReadableSize()) ==> Contents() == old(Contents())[offset..]
    {
      readPos := readPos + offset;
    }

    method ShiftWritePos(offset: int)
      requires Valid() && writePos + offset <= buffer.capacity && 0 <= buffer.filledSize + offset
      modifies this`writePos, buffer`filledSize
      ensures Valid()
      ensures writePos == old(writePos) + offset && buffer.filledSize == old(buffer.filledSize) + offset
    {
      writePos := writePos + offset;
      buffer.AddSize(offset);
    }
  }

  // ---------- what the two ways of copying keep ----------

  /** A copy constructed from a buffer whose fill mark is at its write position is a full copy. One
      copy assignment still shows the same bytes; a second one, from the first, shows only zeros. */
  method CopiesOfCopies(data: seq<byte>, capacity: int)
    returns (constructed: seq<byte>, once: seq<byte>, twice: seq<byte>)
    requires 0 < |data| <= capacity
    ensures constructed == data && once == data
    ensures twice == Zeros(|data|)
  {
    var source := Filled(data, capacity);
    var copy := new StreamBuffer.Copy(source);
    constructed := copy.Contents();

    var first := new StreamBuffer();
    first.AssignFrom(source);
    once := first.Contents();

    var second := new StreamBuffer();
    second.AssignFrom(first);
    BetweenAgain(second.buffer.Block(), Zeros(|data|));
    twice := second.Contents();
  }

  /** A fresh stream buffer with some bytes written to it. */
  method Filled(data: seq<byte>, capacity: int) returns (stream: StreamBuffer)
    requires |data| <= capacity && 0 < capacity
    ensures fresh(stream) && fresh(stream.buffer) && stream.Valid() && stream.Contents() == data
    ensures stream.buffer.capacity == capacity
    ensures stream.readPos == 0 && stream.writePos == stream.buffer.filledSize == |data|
  {
    stream := new StreamBuffer.WithCapacity(capacity);
    var bytes := new byte[|data|](i requires 0 <= i < |data| => data[i]);
    assert bytes[..|data|] == data;
    var ok := stream.Write(bytes, |data|);
  }
}
