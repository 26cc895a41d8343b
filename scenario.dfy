/** A bounded queue of capacity 2 over a fresh disk log, driven through a
    short sequence of non-blocking calls. */
module Scenario {
  import opened QueueTypes
  import opened Frame
  import opened DiskQueue
  import opened BlockQueue

  /** With capacity 2: two puts succeed, a third is refused as `Full`; after
      one get it is accepted; the items come back in the order put, and a
      get on the emptied queue answers `Empty`. */
  method CapacityTwo(a: seq<byte>, b: seq<byte>, c: seq<byte>)
    returns (puts: seq<Outcome>, gets: seq<Result<Item>>)
    requires |a| < TwoTo31 - 4 && |b| < TwoTo31 - 4 && |c| < TwoTo31 - 4
    ensures puts == [Pass, Pass, Fail(Full), Pass]
    ensures gets == [Ok(ByteSlice(a)), Ok(ByteSlice(b)), Ok(ByteSlice(c)), Err(Empty)]
  {
    var log := new DiskQueue("q", "data", map[]);
    var q := new BlockQueue(log, 2);
    var p1 := q.Put(ByteSlice(a), false, 0, NoFault);
    var p2 := q.Put(ByteSlice(b), false, 0, NoFault);
    var p3 := q.Put(ByteSlice(c), false, 0, NoFault);
    var g1 := q.Get(false, 0, NoFault);
    var p4 := q.Put(ByteSlice(c), false, 0, NoFault);
    var g2 := q.Get(false, 0, NoFault);
    var g3 := q.Get(false, 0, NoFault);
    var g4 := q.Get(false, 0, NoFault);
    puts, gets := [p1, p2, p3, p4], [g1, g2, g3, g4];
  }
}
