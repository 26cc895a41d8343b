/** Values shared by the segment log and the bounded queue: bytes, the items
    a caller hands over (Go's `interface{}`), the errors both packages return,
    and the outcome of the operating-system calls the log makes. */
module QueueTypes {

  newtype byte = x: int | 0 <= x < 256

  datatype Option<T> = None | Some(value: T)

  /** An item passed through `QueueIF`: the disk log only stores `[]byte`
      values; anything else is rejected by its `Put`. */
  datatype Item = ByteSlice(data: seq<byte>) | OtherValue

  datatype Error =
    | Empty          // blockqueue.Empty, "Queue is Empty"
    | Full           // blockqueue.Full, "Queue is Full"
    | EmptyQueue     // the log's own "empty queue"
    | NotByteSlice   // the log's "v must be a []byte"
    | OpenFailed     // os.OpenFile returned an error
    | SeekFailed     // File.Seek returned an error
    | WriteFailed    // File.Write returned an error
    | ReadFailed     // binary.Read or io.ReadFull returned an error

  /** A Go `(value, error)` pair. */
  datatype Result<T> = Ok(value: T) | Err(error: Error)

  /** A Go `error` result: nil or an error. */
  datatype Outcome = Pass | Fail(error: Error)

  /** Which operating-system call, if any, fails during one log operation.
      A fault only takes effect where the log actually makes that call. */
  datatype IoFault = NoFault | OpenFault | SeekFault | WriteFault | ReadFault

  /** The error a failing call surfaces as. */
  function FaultError(fault: IoFault): Error
    requires fault != NoFault
  {
    match fault
    case OpenFault => OpenFailed
    case SeekFault => SeekFailed
    case WriteFault => WriteFailed
    case ReadFault => ReadFailed
  }
}
