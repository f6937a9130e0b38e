/** Cutting a byte stream into packets as its bytes arrive, for any rule that finds packet boundaries.
    The rule is a parameter here because it is one in the program: every kind of `NetUnit` overrides
    `HeaderParsing`. */
module Draining {
  import opened Bytes

  /** The size of the packet at the front of the bytes received so far, or 0 to wait for more. */
  type Boundary = seq<byte> -> nat

  /** A rule never announces more bytes than it was shown. */
  ghost predicate Bounded(find: Boundary) {
    forall s: seq<byte> :: find(s) <= |s|
  }

  /** A boundary, once found, does not move when more bytes arrive. */
  ghost predicate Stable(find: Boundary) {
    forall a: seq<byte>, b: seq<byte> {:trigger find(a + b)} :: find(a) > 0 ==> find(a + b) == find(a)
  }

  datatype Parsed = Parsed(packets: seq<seq<byte>>, rest: seq<byte>)

  /** All packets at the front of a stream, and the bytes left waiting behind them. */
  ghost function Drain(find: Boundary, stream: seq<byte>): (r: Parsed)
    requires Bounded(find)
    ensures find(r.rest) == 0 && |r.rest| <= |stream|
    decreases |stream|
  {
    var n := find(stream);
    if n == 0 then Parsed([], stream)
    else
      var later := Drain(find, stream[n..]);
      Parsed([stream[..n]] + later.packets, later.rest)
  }

  /** Receiving a list of chunks one after another, draining after each. */
  ghost function DrainChunks(find: Boundary, pending: seq<byte>, chunks: seq<seq<byte>>): Parsed
    requires Bounded(find)
    decreases |chunks|
  {
    if chunks == [] then Parsed([], pending)
    else
      var first := Drain(find, pending + chunks[0]);
      var later := DrainChunks(find, first.rest, chunks[1..]);
      Parsed(first.packets + later.packets, later.rest)
  }

  /** Draining loses and invents nothing. */
  lemma {:induction false} DrainConserves(find: Boundary, stream: seq<byte>)
    requires Bounded(find)
    ensures Concat(Drain(find, stream).packets) + Drain(find, stream).rest == stream
    decreases |stream|
  {
    if find(stream) > 0 {
      var first, behind := stream[..find(stream)], stream[find(stream)..];
      assert first + behind == stream;
      var later := Drain(find, behind);
      DrainConserves(find, behind);
      ConcatCons(first, later.packets);
      Associative(first, Concat(later.packets), later.rest);
    }
  }

  /** The first packet of `a` is the first packet of `a + b`. */
  lemma DrainFirst(find: Boundary, a: seq<byte>, b: seq<byte>)
    requires Bounded(find) && Stable(find) && find(a) > 0
    ensures var n := find(a);
            var later := Drain(find, a[n..] + b);
            Drain(find, a + b) == Parsed([a[..n]] + later.packets, later.rest)
  {
    var n := find(a);
    assert find(a + b) == n;
    assert (a + b)[..n] == a[..n] && (a + b)[n..] == a[n..] + b;
  }

  /** Draining what has arrived, then what is left together with what arrives next, is draining it all at once. */
  lemma {:induction false} DrainInTwo(find: Boundary, a: seq<byte>, b: seq<byte>)
    requires Bounded(find) && Stable(find)
    ensures var before := Drain(find, a);
            var next := Drain(find, before.rest + b);
            Drain(find, a + b) == Parsed(before.packets + next.packets, next.rest)
    decreases |a|
  {
    if find(a) > 0 {
      var first, later := a[..find(a)], a[find(a)..];
      var before := Drain(find, later);
      assert Drain(find, a) == Parsed([first] + before.packets, before.rest);
      DrainFirst(find, a, b);
      DrainInTwo(find, later, b);
      Associative([first], before.packets, Drain(find, before.rest + b).packets);
    }
  }

  /** Chunking does not matter. For every byte stream, well formed or not, and every way of cutting
      it, the packets delivered and the bytes left waiting are those of the uncut stream. */
  lemma {:induction false} ChunkIndependence(find: Boundary, pending: seq<byte>, chunks: seq<seq<byte>>)
    requires Bounded(find) && Stable(find) && find(pending) == 0
    ensures DrainChunks(find, pending, chunks) == Drain(find, pending + Concat(chunks))
    decreases |chunks|
  {
    if chunks == [] {
      assert pending + Concat(chunks) == pending;
    } else {
      var first := Drain(find, pending + chunks[0]);
      assert pending + Concat(chunks) == (pending + chunks[0]) + Concat(chunks[1..]);
      DrainInTwo(find, pending + chunks[0], Concat(chunks[1..]));
      ChunkIndependence(find, first.rest, chunks[1..]);
    }
  }

  /** Stability is not only enough but needed: a boundary that can move lets two ways of cutting one
      stream deliver different packets. */
  lemma ChunkingIrrelevantExactlyWhenStable(find: Boundary)
    requires Bounded(find)
    ensures Stable(find) <==>
            forall chunks: seq<seq<byte>> :: DrainChunks(find, [], chunks) == Drain(find, Concat(chunks))
  {
    if Stable(find) {
      forall chunks: seq<seq<byte>>
        ensures DrainChunks(find, [], chunks) == Drain(find, Concat(chunks))
      {
        assert find([]) == 0;
        ChunkIndependence(find, [], chunks);
        assert [] + Concat(chunks) == Concat(chunks);
      }
    } else {
      var a: seq<byte>, b: seq<byte> :| find(a) > 0 && find(a + b) != find(a);
      MovedBoundaryShows(find, a, b);
    }
  }

  lemma MovedBoundaryShows(find: Boundary, a: seq<byte>, b: seq<byte>)
    requires Bounded(find)
    requires find(a) > 0 && find(a + b) != find(a)
    ensures DrainChunks(find, [], [a, b]) != Drain(find, Concat([a, b]))
  {
    var chunks := [a, b];
    ConcatOne([a], b);
    ConcatOne([], a);
    assert [] + [a] == [a] && [a] + [b] == chunks && [] + a == a;
    assert |DrainChunks(find, [], chunks).packets[0]| == find(a);
    assert find(a + b) > 0 ==> |Drain(find, a + b).packets[0]| == find(a + b);
  }

  // ---------- a receiver that can hold only so much ----------

  /** When the first `k` bytes have arrived, at least `capacity` of them wait. */
  ghost predicate FilledAt(find: Boundary, stream: seq<byte>, k: nat, capacity: nat)
    requires Bounded(find) && k <= |stream|
  {
    |Drain(find, stream[..k]).rest| >= capacity
  }

  /** Some time before the last byte arrives, what waits amounts to `capacity` bytes. */
  ghost predicate Fills(find: Boundary, stream: seq<byte>, capacity: nat)
    requires Bounded(find)
  {
    exists k :: 0 <= k < |stream| && FilledAt(find, stream, k, capacity)
  }

  /** Position `b` of the stream is its start, or the end of one of the packets found in it. */
  predicate BoundaryAt(find: Boundary, stream: seq<byte>, b: nat)
    requires b <= |stream|
    decreases b
  {
    b == 0 || (0 < find(stream) <= b && BoundaryAt(find, stream[find(stream)..], b - find(stream)))
  }

  /** The `capacity` bytes from boundary `b` on hold no whole packet, and more bytes follow. */
  predicate BlocksAt(find: Boundary, stream: seq<byte>, capacity: nat, b: nat) {
    b + capacity < |stream| && BoundaryAt(find, stream, b) && find(stream[b..b + capacity]) == 0
  }

  lemma {:induction false} FilledBehindBoundary(find: Boundary, stream: seq<byte>, capacity: nat, k: nat)
    returns (b: nat)
    requires Bounded(find) && Stable(find)
    requires k < |stream| && FilledAt(find, stream, k, capacity)
    ensures BlocksAt(find, stream, capacity, b)
    decreases |stream|
  {
    var n := find(stream[..k]);
    if n == 0 {
      assert stream[..k] == stream[..capacity] + stream[capacity..k];
      return 0;
    }
    assert stream == stream[..k] + stream[k..];
    var later := stream[n..];
    assert stream[..k][n..] == later[..k - n];
    var c := FilledBehindBoundary(find, later, capacity, k - n);
    b := n + c;
    assert stream[b..b + capacity] == later[c..c + capacity];
  }

  lemma {:induction false} BlockedBoundaryFills(find: Boundary, stream: seq<byte>, capacity: nat, b: nat)
    returns (k: nat)
    requires Bounded(find) && Stable(find)
    requires BlocksAt(find, stream, capacity, b)
    ensures k < |stream| && FilledAt(find, stream, k, capacity)
    decreases |stream|
  {
    if b == 0 {
      return capacity;
    }
    var n := find(stream);
    var later := stream[n..];
    assert stream[b..b + capacity] == later[b - n..b - n + capacity];
    var j := BlockedBoundaryFills(find, later, capacity, b - n);
    k := n + j;
    assert stream == stream[..k] + stream[k..];
    assert stream[..k][n..] == later[..j];
  }

  /** A receiver fills up exactly when its capacity is too small for what starts at some boundary. */
  lemma FillsExactlyWhen(find: Boundary, stream: seq<byte>, capacity: nat)
    requires Bounded(find) && Stable(find)
    ensures Fills(find, stream, capacity) <==> exists b: nat :: BlocksAt(find, stream, capacity, b)
  {
    if Fills(find, stream, capacity) {
      var k :| 0 <= k < |stream| && FilledAt(find, stream, k, capacity);
      var b := FilledBehindBoundary(find, stream, capacity, k);
    }
    if b: nat :| BlocksAt(find, stream, capacity, b) {
      var k := BlockedBoundaryFills(find, stream, capacity, b);
    }
  }
}
