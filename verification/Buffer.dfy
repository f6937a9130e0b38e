/** `Buffer`: a growable block of bytes with a fill mark. */
module Buffers {
  import opened Bytes
  import Memory

  /** What a copy of a block keeps: the bytes below the fill mark, and zeros above them. */
  function KeepFilled(bytes: seq<byte>, filled: nat): (r: seq<byte>)
    requires filled <= |bytes|
    ensures |r| == |bytes|
  {
    bytes[..filled] + Zeros(|bytes| - filled)
  }

  /** `bytes` grown by zeros to at least `n`; a block never shrinks. */
  function GrownTo(bytes: seq<byte>, n: int): (r: seq<byte>)
    ensures |r| == if n > |bytes| then n else |bytes|
  {
    if n > |bytes| then bytes + Zeros(n - |bytes|) else bytes
  }

  /** Every byte from the fill mark on is zero. */
  predicate ZeroFrom(bytes: seq<byte>, filled: int) {
    forall i :: 0 <= i < |bytes| && filled <= i ==> bytes[i] == 0
  }

  /** Wiping the filled bytes wipes the whole block, provided the rest was zero already. */
  lemma ClearWipesAll(bytes: seq<byte>, filled: nat)
    requires filled <= |bytes|
    ensures Splice(bytes, 0, Zeros(filled)) == Zeros(|bytes|) <==> ZeroFrom(bytes, filled)
  {
    var wiped := Splice(bytes, 0, Zeros(filled));
    assert forall i :: filled <= i < |bytes| ==> wiped[i] == bytes[i];
  }

  class Buffer {
    var capacity: int
    var filledSize: int
    // The block itself. A null block (before Create, after Free or a move) is one of length 0.
    var begin: array<byte>

    predicate Valid()
      reads this
    {
      begin.Length == capacity && 0 <= filledSize <= capacity
    }

    function Block(): (b: seq<byte>)
      reads this, begin
      ensures |b| == begin.Length
    {
      begin[..]
    }

    constructor ()
      ensures Valid() && fresh(begin)
      ensures capacity == 0 && filledSize == 0
    {
      capacity, filledSize := 0, 0;
      begin := new byte[0];
    }

    constructor WithCapacity(capacity: int)
      requires capacity > 0
      ensures Valid() && fresh(begin)
      ensures this.capacity == capacity && filledSize == 0
      ensures Block() == Zeros(capacity)
    {
      this.capacity, filledSize := 0, 0;
      begin := new byte[0];
      new;
      Create(capacity);
    }

    /** Copy construction. The fill mark is copied first, and lost again when `Create` frees the
        (still empty) block: the copy holds the filled bytes under a fill mark of 0. */
    constructor Copy(other: Buffer)
      requires other.Valid() && other.capacity > 0
      ensures Valid() && fresh(begin)
      ensures capacity == other.capacity && filledSize == 0
      ensures Block() == KeepFilled(other.Block(), other.filledSize)
    {
      capacity, filledSize := 0, other.filledSize;
      begin := new byte[0];
      new;
      Create(other.capacity);
      Memory.Memcpy(begin, 0, other.begin, 0, other.filledSize);
    }

    /** Move construction takes the block and leaves the other buffer empty. */
    constructor Move(other: Buffer)
      requires other.Valid()
      modifies other
      ensures Valid() && begin == old(other.begin)
      ensures capacity == old(other.capacity) && filledSize == old(other.filledSize)
      ensures other.Valid() && other.capacity == 0 && fresh(other.begin)
    {
      begin, capacity, filledSize := other.begin, other.capacity, other.filledSize;
      new;
      other.Free();
    }

    /** The state a moved-from or freed buffer is left in. */
    method Free()
      modifies this
      ensures Valid() && capacity == 0 && filledSize == 0 && fresh(begin)
    {
      begin := new byte[0];
      capacity, filledSize := 0, 0;
    }

    method Create(newCapacity: int)
      requires newCapacity > 0
      modifies this
      ensures Valid() && fresh(begin)
      ensures capacity == newCapacity && filledSize == 0
      ensures Block() == Zeros(newCapacity)
    {
      Free();
      begin := new byte[newCapacity];
      capacity := newCapacity;
      Memory.ClearBytes(begin, newCapacity);
    }

    /** Copy assignment: copy, then swap the copy in. */
    method AssignFrom(other: Buffer)
      requires Valid() && other.Valid() && other.capacity > 0
      modifies this
      ensures Valid()
      ensures this == other ==> unchanged(this)
      ensures this != other ==> fresh(begin) && capacity == other.capacity && filledSize == 0
      ensures this != other ==> Block() == KeepFilled(other.Block(), other.filledSize)
    {
      if this != other {
        var temp := new Buffer.Copy(other);
        Swap(temp);
      }
    }

    /** Move assignment. */
    method MoveFrom(other: Buffer)
      requires Valid() && other.Valid()
      modifies this, other
      ensures Valid() && other.Valid()
      ensures this == other ==> unchanged(this)
      ensures this != other ==> begin == old(other.begin) && capacity == old(other.capacity)
      ensures this != other ==> filledSize == old(other.filledSize)
      ensures this != other ==> other.capacity == 0 && fresh(other.begin)
    {
      if this != other {
        begin, capacity, filledSize := other.begin, other.capacity, other.filledSize;
        other.Free();
      }
    }

    method Swap(other: Buffer)
      modifies this, other
      ensures capacity == old(other.capacity) && other.capacity == old(capacity)
      ensures filledSize == old(other.filledSize) && other.filledSize == old(filledSize)
      ensures begin == old(other.begin) && other.begin == old(begin)
    {
      capacity, other.capacity := other.capacity, capacity;
      filledSize, other.filledSize := other.filledSize, filledSize;
      begin, other.begin := other.begin, begin;
    }

    /** Growing keeps the filled bytes only when asked to; the fill mark never moves. */
    method ReSize(newSize: int, keepData: bool)
      requires Valid()
      modifies this
      ensures Valid() && filledSize == old(filledSize)
      ensures newSize <= old(capacity) ==> unchanged(this)
      ensures newSize > old(capacity) ==> fresh(begin) && capacity == newSize
      ensures newSize > old(capacity) ==>
                Block() == if keepData then GrownTo(KeepFilled(old(Block()), filledSize), newSize) else Zeros(newSize)
    {
      if newSize > capacity {
        var grown := new byte[newSize];
        Memory.ClearBytes(grown, newSize);
        if keepData {
          Memory.Memcpy(grown, 0, begin, 0, filledSize);
        }
        begin := grown;
        capacity := newSize;
      }
    }

    /** After `Assign`, the filled bytes are exactly the given ones; an empty input changes nothing. */
    method Assign(buf: array<byte>, size: int)
      requires Valid() && size <= buf.Length && buf != begin
      modifies this, begin
      ensures Valid() && (begin == old(begin) || fresh(begin))
      ensures size < 1 ==> unchanged(this) && Block() == old(Block())
      ensures size >= 1 ==> filledSize == size && Block()[..filledSize] == buf[..size]
      ensures size >= 1 ==>
                Block() == Splice(if size > old(capacity) then Zeros(size) else old(Block()), 0, buf[..size])
    {
      if size < 1 {
        return;
      }
      ReSize(size, false);
      Memory.Memcpy(begin, 0, buf, 0, size);
      filledSize := size;
    }

    /** After `Append`, the filled bytes are the old ones followed by the given ones. Appending a
        block's own bytes has a meaning only when the block need not move to make room. */
    method Append(buf: array<byte>, size: int)
      requires Valid() && size <= buf.Length
      requires buf == begin ==> size <= filledSize && filledSize + size <= capacity
      modifies this, begin
      ensures Valid() && (begin == old(begin) || fresh(begin))
      ensures size < 1 ==> unchanged(this) && Block() == old(Block())
      ensures size >= 1 ==> filledSize == old(filledSize) + size
      ensures size >= 1 ==> Block()[..filledSize] == old(Block()[..filledSize]) + old(buf[..size])
      ensures size >= 1 ==> capacity == if old(filledSize) + size > old(capacity) then filledSize else old(capacity)
      ensures size >= 1 && old(filledSize) + size <= old(capacity) ==>
                Block()[filledSize..] == old(Block())[filledSize..]
    {
      if size < 1 {
        return;
      }
      ghost var kept := Block()[..filledSize];
      ReSize(filledSize + size, true);
      assert Block()[..filledSize] == kept;
      Memory.Memcpy(begin, filledSize, buf, 0, size);
      filledSize := filledSize + size;
    }

    method AppendBuffer(other: Buffer)
      requires Valid() && other.Valid()
      requires other == this || other.begin != begin
      requires other == this ==> filledSize + filledSize <= capacity
      modifies this, begin
      ensures Valid() && (begin == old(begin) || fresh(begin))
      ensures filledSize == old(filledSize) + old(other.filledSize)
      ensures Block()[..filledSize] == old(Block()[..filledSize]) + old(other.Block()[..other.filledSize])
    {
      Append(other.begin, other.filledSize);
    }

    /** Only the filled bytes are wiped. */
    method Clear()
      requires Valid()
      modifies this`filledSize, begin
      ensures Valid() && filledSize == 0
      ensures Block() == Splice(old(Block()), 0, Zeros(old(filledSize)))
    {
      Memory.ClearBytes(begin, filledSize);
      filledSize := 0;
    }

    method SetSize(size: int)
      requires Valid() && 0 <= size <= capacity
      modifies this`filledSize
      ensures Valid() && filledSize == size
    {
      filledSize := size;
    }

    method AddSize(size: int)
      requires Valid() && 0 <= filledSize + size <= capacity
      modifies this`filledSize
      ensures Valid() && filledSize == old(filledSize) + size
    {
      filledSize := filledSize + size;
    }
  }
}
