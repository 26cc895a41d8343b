/** FIFO order of the disk log: any sequence of puts and gets takes items
    out in the order they were put. */
module Fifo {
  import opened QueueTypes
  import opened Frame
  import opened DiskQueue

  /** One call on the queue: a put of a byte string, or a get. */
  datatype Op = Enqueue(item: seq<byte>) | Dequeue

  /** The items a trace puts, in order. */
  function Enqueued(ops: seq<Op>): seq<seq<byte>>
    decreases |ops|
  {
    if ops == [] then []
    else
      var last := ops[|ops| - 1];
      Enqueued(ops[..|ops| - 1]) + (if last.Enqueue? then [last.item] else [])
  }

  /** A trace run on a FIFO queue q held as a sequence: the items the gets
      take, in order, and the items left. A get on an empty queue takes nothing. */
  function Run(q: seq<seq<byte>>, ops: seq<Op>): (seq<seq<byte>>, seq<seq<byte>>)
    decreases |ops|
  {
    if ops == [] then ([], q)
    else
      var (taken, left) := Run(q, ops[..|ops| - 1]);
      match ops[|ops| - 1]
      case Enqueue(b) => (taken, left + [b])
      case Dequeue => if left == [] then (taken, left) else (taken + [left[0]], left[1..])
  }

  /** What was taken, followed by what is left, is what was queued at the
      start followed by everything put: nothing is lost, duplicated or reordered. */
  lemma {:induction false} FifoOrder(q: seq<seq<byte>>, ops: seq<Op>)
    ensures Run(q, ops).0 + Run(q, ops).1 == q + Enqueued(ops)
    decreases |ops|
  {
    if ops != [] {
      var init := ops[..|ops| - 1];
      FifoOrder(q, init);
      var (taken, left) := Run(q, init);
      match ops[|ops| - 1]
      case Enqueue(b) =>
        assert taken + (left + [b]) == (taken + left) + [b];
      case Dequeue =>
        if left != [] {
          assert (taken + [left[0]]) + left[1..] == taken + left;
        }
    }
  }

  /** Every item a trace puts is short enough that the source's `int32` frame size
      `4 + len` does not wrap (see `Frame.FrameSizeAsWrittenAgrees`). */
  predicate Writable(ops: seq<Op>) {
    forall i :: 0 <= i < |ops| ==> (ops[i].Enqueue? ==> |ops[i].item| < TwoTo31 - 4)
  }

  /** Runs a trace on the disk log with no I/O faults; the log behaves as the
      FIFO queue `Run` describes. */
  method RunOnLog(log: DiskQueue, ops: seq<Op>) returns (taken: seq<seq<byte>>)
    requires log.Valid() && Writable(ops)
    modifies log
    ensures log.Valid()
    ensures (taken, log.Contents) == Run(old(log.Contents), ops)
  {
    taken := [];
    var i := 0;
    while i < |ops|
      invariant 0 <= i <= |ops|
      invariant log.Valid()
      invariant (taken, log.Contents) == Run(old(log.Contents), ops[..i])
    {
      assert ops[..i + 1][..i] == ops[..i];
      match ops[i] {
        case Enqueue(b) =>
          var r := log.Put(ByteSlice(b), NoFault);
        case Dequeue =>
          var r := log.Get(NoFault);
          if r.Ok? {
            taken := taken + [r.value.data];
          }
      }
      i := i + 1;
    }
    assert ops[..|ops|] == ops;
  }
}
