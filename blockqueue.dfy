/** The bounded wrapper (`BlockQueue`): a capacity guard in front of a backend
    queue. It answers `Empty` and `Full` itself and otherwise hands the call to
    the backend, passing the backend's result through. The backend here is the
    disk log. */
module BlockQueue {
  import opened QueueTypes
  import opened Frame
  import opened DiskQueue

  class BlockQueue {
    const queue: DiskQueue
    /** The capacity; 0 (or less) means unbounded. */
    const maxSize: int

    ghost predicate Valid()
      reads queue
    {
      queue.Valid()
    }

    /** The backend holds no more items than the capacity allows. */
    ghost predicate WithinCapacity()
      reads queue
    {
      maxSize <= 0 || |queue.Contents| <= maxSize
    }

    /** `NewBlockQueue`: wraps an existing backend as it is. */
    constructor (queue: DiskQueue, maxSize: int)
      ensures this.queue == queue && this.maxSize == maxSize
    {
      this.queue := queue;
      this.maxSize := maxSize;
    }

    /** The number of items in the backend. */
    method Size() returns (n: int)
      requires Valid()
      ensures n == |queue.Contents|
    {
      n := queue.Size();
    }

    method IsEmpty() returns (empty: bool)
      requires Valid()
      ensures empty <==> queue.Contents == []
    {
      var n := queue.Size();
      empty := n == 0;
    }

    /** Full means exactly at the capacity: a backend already past it is not full. */
    method IsFull() returns (full: bool)
      requires Valid()
      ensures full <==> maxSize > 0 && |queue.Contents| == maxSize
    {
      var n := queue.Size();
      full := maxSize > 0 && n == maxSize;
    }

    /** Takes the oldest item. A non-blocking call, or a timed one whose wait
        runs out, on an empty backend answers `Empty` and leaves the backend
        alone; otherwise the backend's `Get` decides. An untimed blocking call
        waits until the backend is non-empty, which no other caller can bring
        about here, so it is only made on a non-empty backend. */
    method Get(block: bool, timeout: int, fault: IoFault) returns (r: Result<Item>)
      requires Valid()
      requires block && timeout == 0 ==> queue.Contents != []
      modifies queue
      ensures Valid()
      ensures old(queue.Contents) == [] ==> r == Err(Empty) && unchanged(queue)
      ensures old(queue.Contents) != [] ==>
        && (r.Ok? <==> !GetFails(fault, old(queue.readOpen), old(queue.readPos)))
        && (r.Ok? ==> r.value == ByteSlice(old(queue.Contents)[0]) && queue.Contents == old(queue.Contents)[1..])
        && (r.Err? ==> r.error == FaultError(fault) && queue.Contents == old(queue.Contents))
    {
      var empty := false;
      var n := queue.Size();
      if n == 0 {
        // Not blocking, or the timed wait runs out with nothing put meanwhile.
        empty := true;
      }
      if empty {
        return Err(Empty);
      }
      r := queue.Get(fault);
    }

    /** Adds v. With a capacity set, a non-blocking call, or a timed one whose
        wait runs out, on a backend holding exactly maxSize items answers
        `Full` and leaves the backend alone; otherwise the backend's `Put`
        decides. An untimed blocking call on a full backend would wait for
        another caller, so it is only made when the backend is not full. */
    method Put(v: Item, block: bool, timeout: int, fault: IoFault) returns (r: Outcome)
      requires Valid()
      requires v.ByteSlice? ==> |v.data| < TwoTo31
      requires maxSize > 0 && block && timeout == 0 ==> |queue.Contents| != maxSize
      modifies queue
      ensures Valid()
      ensures r == Fail(Full) <==> maxSize > 0 && |old(queue.Contents)| == maxSize
      ensures r == Fail(Full) ==> unchanged(queue)
      ensures r != Fail(Full) ==>
        && (r.Pass? <==> v.ByteSlice? && !PutFails(fault, old(queue.writeOpen), old(queue.writePos)))
        && (r.Pass? ==> queue.Contents == old(queue.Contents) + [v.data])
        && (r.Fail? ==> queue.Contents == old(queue.Contents)
                        && r.error == if v.ByteSlice? then FaultError(fault) else NotByteSlice)
      ensures old(WithinCapacity()) ==> WithinCapacity()
    {
      var full := false;
      if maxSize > 0 {
        var n := queue.Size();
        if n == maxSize {
          // Not blocking, or the timed wait runs out with nothing taken meanwhile.
          full := true;
        }
      }
      if full {
        return Fail(Full);
      }
      r := queue.Put(v, fault);
    }
  }
}
