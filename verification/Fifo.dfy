/** A bounded first-in first-out byte queue: the plain meaning both stream buffers are measured against. */
module Fifo {
  import opened Bytes

  datatype Op = Write(data: seq<byte>) | Peek(n: nat) | Read(n: nat) | Clear

  /** What a caller sees of one operation. */
  datatype Reply = Reply(ok: bool, bytes: seq<byte>)

  const REFUSED := Reply(false, [])

  datatype Run = Run(queue: seq<byte>, replies: seq<Reply>)

  function Step(capacity: nat, queue: seq<byte>, op: Op): (r: (seq<byte>, Reply))
    ensures |queue| <= capacity ==> |r.0| <= capacity
  {
    match op
    case Write(data) =>
      if |queue| + |data| <= capacity then (queue + data, Reply(true, [])) else (queue, REFUSED)
    case Peek(n) =>
      if n <= |queue| then (queue, Reply(true, queue[..n])) else (queue, REFUSED)
    case Read(n) =>
      if n <= |queue| then (queue[n..], Reply(true, queue[..n])) else (queue, REFUSED)
    case Clear =>
      ([], Reply(true, []))
  }

  function Execute(capacity: nat, ops: seq<Op>): (r: Run)
    ensures |r.replies| == |ops| && |r.queue| <= capacity
  {
    if ops == [] then Run([], []) else
    var before := Execute(capacity, ops[..|ops| - 1]);
    var (queue, reply) := Step(capacity, before.queue, ops[|ops| - 1]);
    Run(queue, before.replies + [reply])
  }

  // Two readings of a transcript that know nothing of the queue: they look at requests and replies only.

  /** The bytes of all accepted writes since the last `Clear`. */
  function Accepted(ops: seq<Op>, replies: seq<Reply>): seq<byte>
    requires |ops| == |replies|
  {
    if ops == [] then [] else
    var last := |ops| - 1;
    var before := Accepted(ops[..last], replies[..last]);
    match ops[last]
    case Write(data) => if replies[last].ok then before + data else before
    case Clear => []
    case _ => before
  }

  /** The bytes handed out by all successful reads since the last `Clear`. */
  function Returned(ops: seq<Op>, replies: seq<Reply>): seq<byte>
    requires |ops| == |replies|
  {
    if ops == [] then [] else
    var last := |ops| - 1;
    var before := Returned(ops[..last], replies[..last]);
    match ops[last]
    case Read(_) => if replies[last].ok then before + replies[last].bytes else before
    case Clear => []
    case _ => before
  }

  /** First in, first out, and nothing lost: what came back, then what is still queued, is what went in. */
  lemma {:induction false} Conservation(capacity: nat, ops: seq<Op>)
    ensures var run := Execute(capacity, ops);
            Accepted(ops, run.replies) == Returned(ops, run.replies) + run.queue
  {
    if ops != [] {
      var last := |ops| - 1;
      Conservation(capacity, ops[..last]);
      var before := Execute(capacity, ops[..last]);
      var run := Execute(capacity, ops);
      assert run.replies[..last] == before.replies;
    }
  }

  lemma ExecuteOne(capacity: nat, ops: seq<Op>, op: Op)
    ensures var before := Execute(capacity, ops);
            var (queue, reply) := Step(capacity, before.queue, op);
            Execute(capacity, ops + [op]) == Run(queue, before.replies + [reply])
  {
    assert (ops + [op])[..|ops|] == ops;
  }

  // ---------- the queue that never moves its bytes back ----------

  /** A queue over one block whose write position only goes forward, until `Clear`: what has been read
      out still takes up space. */
  datatype Uncompacted = Uncompacted(queue: seq<byte>, written: nat, replies: seq<Reply>)

  function UncompactedStep(capacity: nat, queue: seq<byte>, written: nat, op: Op): (r: (seq<byte>, nat, Reply))
    ensures |queue| <= written <= capacity ==> |r.0| <= r.1 <= capacity
  {
    match op
    case Write(data) =>
      if written + |data| <= capacity then (queue + data, written + |data|, Reply(true, []))
      else (queue, written, REFUSED)
    case Peek(n) =>
      if n <= |queue| then (queue, written, Reply(true, queue[..n])) else (queue, written, REFUSED)
    case Read(n) =>
      if n <= |queue| then (queue[n..], written, Reply(true, queue[..n])) else (queue, written, REFUSED)
    case Clear =>
      ([], 0, Reply(true, []))
  }

  function ExecuteUncompacted(capacity: nat, ops: seq<Op>): (r: Uncompacted)
    ensures |r.replies| == |ops| && |r.queue| <= r.written <= capacity
  {
    if ops == [] then Uncompacted([], 0, []) else
    var before := ExecuteUncompacted(capacity, ops[..|ops| - 1]);
    var (queue, written, reply) := UncompactedStep(capacity, before.queue, before.written, ops[|ops| - 1]);
    Uncompacted(queue, written, before.replies + [reply])
  }

  lemma ExecuteUncompactedOne(capacity: nat, ops: seq<Op>, op: Op)
    ensures var before := ExecuteUncompacted(capacity, ops);
            var (queue, written, reply) := UncompactedStep(capacity, before.queue, before.written, op);
            ExecuteUncompacted(capacity, ops + [op]) == Uncompacted(queue, written, before.replies + [reply])
  {
    assert (ops + [op])[..|ops|] == ops;
  }

  /** Whatever the queue accepts would also fit behind all it has accepted since the last `Clear`. */
  predicate FitsWithoutReuse(capacity: nat, ops: seq<Op>, replies: seq<Reply>)
    requires |ops| == |replies|
  {
    forall k :: 0 <= k < |ops| && ops[k].Write? && replies[k].ok ==>
      |Accepted(ops[..k], replies[..k])| + |ops[k].data| <= capacity
  }

  lemma FitsOneMore(capacity: nat, ops: seq<Op>, replies: seq<Reply>)
    requires 0 < |ops| == |replies|
    ensures var last := |ops| - 1;
            FitsWithoutReuse(capacity, ops, replies) <==>
              && FitsWithoutReuse(capacity, ops[..last], replies[..last])
              && (ops[last].Write? && replies[last].ok ==>
                    |Accepted(ops[..last], replies[..last])| + |ops[last].data| <= capacity)
  {
    var last := |ops| - 1;
    assert forall k :: 0 <= k < last ==> ops[..last][..k] == ops[..k] && replies[..last][..k] == replies[..k];
  }

  /** Reusing space makes no difference to a caller exactly when there is always room without it. */
  lemma {:induction false} ReuseUnseenExactlyWhen(capacity: nat, ops: seq<Op>)
    ensures var run, without := Execute(capacity, ops), ExecuteUncompacted(capacity, ops);
            && (without.replies == run.replies <==> FitsWithoutReuse(capacity, ops, run.replies))
            && (without.replies == run.replies ==>
                  without.queue == run.queue && without.written == |Accepted(ops, run.replies)|)
  {
    if ops != [] {
      var last := |ops| - 1;
      ReuseUnseenExactlyWhen(capacity, ops[..last]);
      Conservation(capacity, ops[..last]);
      var run, without := Execute(capacity, ops), ExecuteUncompacted(capacity, ops);
      FitsOneMore(capacity, ops, run.replies);
      assert run.replies[..last] == Execute(capacity, ops[..last]).replies;
      assert without.replies[..last] == ExecuteUncompacted(capacity, ops[..last]).replies;
      assert without.replies == run.replies <==>
             without.replies[..last] == run.replies[..last] && without.replies[last] == run.replies[last];
    }
  }
}
