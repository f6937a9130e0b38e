/** Bytes, 32-bit integers in memory, and concatenation: what every buffer and packet below shares. */
module Bytes {

  type byte = b: int | 0 <= b < 256

  const INT_MIN: int := -0x8000_0000
  const INT_MAX: int := 0x7fff_ffff
  const TWO_TO_THE_32: int := 0x1_0000_0000

  predicate IsInt32(x: int) {
    INT_MIN <= x <= INT_MAX
  }

  /** The 32-bit two's complement value of a mathematical sum. */
  function Wrap32(x: int): (w: int)
    ensures IsInt32(w) && (IsInt32(x) ==> w == x)
  {
    var u := x % TWO_TO_THE_32;
    if u <= INT_MAX then u else u - TWO_TO_THE_32
  }

  function Zeros(n: nat): (z: seq<byte>)
    ensures |z| == n && forall i :: 0 <= i < n ==> z[i] == 0
  {
    seq(n, _ => 0)
  }

  /** `s` with the bytes from position `at` on overwritten by `t`. */
  function Splice<T>(s: seq<T>, at: nat, t: seq<T>): (r: seq<T>)
    requires at + |t| <= |s|
    ensures |r| == |s|
  {
    s[..at] + t + s[at + |t|..]
  }

  // ---------- little-endian 32-bit integers ----------

  /** The four bytes an `int` occupies in memory, low byte first. */
  function ToLittleEndian(x: int): (s: seq<byte>)
    requires IsInt32(x)
    ensures |s| == 4
  {
    var u := x % TWO_TO_THE_32;
    [u % 0x100, u / 0x100 % 0x100, u / 0x1_0000 % 0x100, u / 0x100_0000]
  }

  function FromLittleEndian(s: seq<byte>): (x: int)
    requires |s| == 4
    ensures IsInt32(x)
  {
    var u: int := s[0] + 0x100 * (s[1] as int) + 0x1_0000 * (s[2] as int) + 0x100_0000 * (s[3] as int);
    if u <= INT_MAX then u else u - TWO_TO_THE_32
  }

  /** Writing an `int` to memory and reading it back gives the same `int`. */
  lemma IntRoundTrip(x: int)
    requires IsInt32(x)
    ensures FromLittleEndian(ToLittleEndian(x)) == x
  {
    var u := x % TWO_TO_THE_32;
    var v := u / 0x100;
    var w := v / 0x100;
    assert u / 0x1_0000 == w;
    assert u / 0x100_0000 == w / 0x100;
    assert u == u % 0x100 + 0x100 * v;
    assert v == v % 0x100 + 0x100 * w;
    assert w == w % 0x100 + 0x100 * (w / 0x100);
  }

  /** Four bytes read as an `int` and written back are unchanged: the two directions are inverse. */
  lemma BytesRoundTrip(s: seq<byte>)
    requires |s| == 4
    ensures ToLittleEndian(FromLittleEndian(s)) == s
  {
    var w: int := s[2] + 0x100 * (s[3] as int);
    var v: int := s[1] + 0x100 * w;
    var u: int := s[0] + 0x100 * v;
    assert FromLittleEndian(s) % TWO_TO_THE_32 == u;
    assert u % 0x100 == s[0] && u / 0x100 == v;
    assert v % 0x100 == s[1] && v / 0x100 == w;
    assert w % 0x100 == s[2] && w / 0x100 == s[3];
    assert u / 0x1_0000 == v / 0x100;
    assert u / 0x100_0000 == w / 0x100;
  }

  lemma ShiftedDown(u: nat)
    ensures u / 0x100 / 0x100 == u / 0x1_0000
    ensures u / 0x100 / 0x1_0000 == u / 0x100_0000
  {
  }

  /** A fourth byte on top does not touch the lower three. */
  lemma LowerThree(v: nat, top: nat)
    requires v < 0x100_0000
    ensures var w := v + 0x100_0000 * top;
            && w % 0x100 == v % 0x100 && w / 0x100 % 0x100 == v / 0x100 % 0x100
            && w / 0x1_0000 % 0x100 == v / 0x1_0000
  {
    assert (v + 0x100_0000 * top) / 0x100 == v / 0x100 + 0x1_0000 * top;
    assert (v + 0x100_0000 * top) / 0x1_0000 == v / 0x1_0000 + 0x100 * top;
  }

  lemma Unsigned(x: int)
    requires IsInt32(x)
    ensures x % TWO_TO_THE_32 == if x >= 0 then x else x + TWO_TO_THE_32
  {
  }

  lemma UnsignedShiftedDown(x: int)
    requires IsInt32(x)
    ensures IsInt32(x / 0x100)
    ensures (x % TWO_TO_THE_32) % 0x100 == x % 0x100
    ensures (x / 0x100) % TWO_TO_THE_32
            == x % TWO_TO_THE_32 / 0x100 + 0x100_0000 * (if x >= 0 then 0 else 0xff)
  {
    Unsigned(x);
    Unsigned(x / 0x100);
  }

  /** The low byte comes first, then the bytes of what is left. */
  lemma LowByteFirst(x: int)
    requires IsInt32(x)
    ensures IsInt32(x / 0x100) && ToLittleEndian(x) == [x % 0x100] + ToLittleEndian(x / 0x100)[..3]
  {
    var u := x % TWO_TO_THE_32;
    UnsignedShiftedDown(x);
    ShiftedDown(u);
    LowerThree(u / 0x100, if x >= 0 then 0 else 0xff);
  }

  /** What is left in the end: 0, or -1 for a negative number. */
  lemma LeftInTheEnd()
    ensures ToLittleEndian(0) == [0, 0, 0, 0] && ToLittleEndian(-1) == [255, 255, 255, 255]
  {
  }

  /** So a number below 2^16 shows in the first two bytes. */
  lemma TwoByteNumber(x: int)
    requires 0 <= x < 0x1_0000
    ensures ToLittleEndian(x) == [x % 0x100, x / 0x100, 0, 0]
  {
  }

  /** What four bytes mean, with the last one counting as signed. */
  lemma MeaningOfBytes(a: byte, b: byte, c: byte, d: byte)
    ensures FromLittleEndian([a, b, c, d])
            == a + 0x100 * (b + 0x100 * (c + 0x100 * (if d < 128 then d else d - 256)))
  {
  }

  // ---------- concatenation of pieces ----------

  function Concat<T>(parts: seq<seq<T>>): seq<T> {
    if parts == [] then [] else parts[0] + Concat(parts[1..])
  }

  lemma Associative<T>(a: seq<T>, b: seq<T>, c: seq<T>)
    ensures a + (b + c) == (a + b) + c
  {
  }

  lemma CutChunk<T>(a: seq<T>, b: seq<T>, n: nat)
    requires n <= |b|
    ensures (a + b[..n]) + b[n..] == a + b
  {
  }

  lemma ConcatCons<T>(first: seq<T>, parts: seq<seq<T>>)
    ensures Concat([first] + parts) == first + Concat(parts)
  {
    assert ([first] + parts)[1..] == parts;
  }

  lemma {:induction false} ConcatAppend<T>(a: seq<seq<T>>, b: seq<seq<T>>)
    ensures Concat(a + b) == Concat(a) + Concat(b)
  {
    if a == [] {
      assert a + b == b;
    } else {
      assert (a + b)[1..] == a[1..] + b;
      ConcatAppend(a[1..], b);
    }
  }

  lemma ConcatOne<T>(parts: seq<seq<T>>, last: seq<T>)
    ensures Concat(parts + [last]) == Concat(parts) + last
  {
    ConcatAppend(parts, [last]);
    assert Concat([last]) == last + Concat<T>([]);
  }
}
