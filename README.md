# go-queue: the disk segment log and the bounded queue, in Dafny

This project models two parts of the Go package go-queue.

**`DiskQueue`** (diskqueue/diskqueue.go) is a FIFO queue of byte strings stored on disk.

- Each item is a length-framed record: a 4-byte big-endian `int32` length, then the payload.
- Records are appended to numbered segment files `<name>.diskqueue.<%06d>.dat`.
- A write cursor `(writeFileNum, writePos)` and a read cursor `(readFileNum, readPos)` move through the segments. A cursor that moves strictly past `maxBytesPerFile` (1000000) rolls to offset 0 of the next segment. The record that crosses the threshold is completed first.
- A `size` counter counts the queued records.
- `persistMetaData` writes a checkpoint line `size,readFileNum,readPos,writeFileNum,writePos`. `retrieveMetaData` scans that line back.

**`BlockQueue`** (blockqueue/blockqueue.go) wraps a backend queue.

- It answers `Empty` or `Full` itself: `Full` applies when a capacity `maxSize > 0` is set and reached.
- Otherwise it hands the call to the backend and passes the backend's result through.

The Dafny model is organised by module:

- `QueueTypes` (types.dfy): bytes, items (`[]byte` or any other value), the errors, and the I/O fault that a call is told to meet.
- `Frame` (frame.dfy): the `int32` big-endian codec and the record frame.
- `Naming` (naming.dfy): `%d` and `%06d` formatting and scanning, the checkpoint line, and the file names.
- `SegmentLog` (segmentlog.dfy): the disk as a map from segment number to bytes, and cursors with the shared rollover rule (`Advance`). `FramesBetween` says that the records between two cursors decode to a given list of payloads.
- `DiskQueue` (diskqueue.dfy): a class with the Go struct's cursor fields, the open/closed state of both file handles, `writeBuf`, `size`, and the segment files.
  - A ghost `Contents` holds the queued payloads.
  - The invariant `Valid()` says: the records from the read cursor to the write cursor are exactly `Contents`; `size == |Contents|`; the read cursor is never past the write cursor; both offsets are non-negative and the write offset lies within its segment; `nextReadPos`/`nextReadFileNum` equal the read cursor; an open read or write handle names a segment that exists; and no byte lies at or past the write cursor, so the log ends there.
  - `Put` and `Get` are split along the source's own blocks: open and seek, write or read, then advance.
- `BlockQueue` (blockqueue.dfy): a class wrapping a `DiskQueue` backend with the capacity guard.
- `Fifo` (fifo.dfy): any sequence of puts and gets on the log returns items in the order they were put.
- `Scenario` (scenario.dfy): a capacity-2 walk through the bounded queue.

I/O failures are not random here. Every operation that touches a file takes an `IoFault` parameter naming the step that fails: open, seek, write, read, or none. A fault only has an effect at a step the source actually performs on that call. For example, the open and the seek happen only when the handle is closed, and the seek only past offset 0.

## Model

| member | source | states |
|---|---|---|
| Frame.EncodeInt32 | diskqueue/diskqueue.go:79 | the 4 big-endian bytes written for an `int32` length; always 4 bytes long, and inverse to `DecodeInt32` by the two lemmas below |
| Frame.DecodeInt32 | diskqueue/diskqueue.go:138 | the `int32` read from a 4-byte big-endian length field; always within the `int32` range |
| Frame.DecodeEncodeInt32 | diskqueue/diskqueue.go:77-79 | decoding the 4 big-endian bytes written for an `int32` gives the same `int32` back |
| Frame.EncodeDecodeInt32 | diskqueue/diskqueue.go:138 | every 4 bytes are the encoding of the `int32` they decode to, so a length field has exactly one reading |
| Frame.EncodeFrame | diskqueue/diskqueue.go:77-86 | the frame is `4 + len(b)` bytes: a length field that decodes to `len(b)`, then the bytes of `b` |
| Frame.DecodeFrame | diskqueue/diskqueue.go:138-150 | a record decoded at an offset lies wholly inside the segment, length field and payload included |
| Frame.DecodeEncodedFrame | diskqueue/diskqueue.go:77-87 | a frame written at an offset decodes there to the original payload, for any length below 2^31 |
| Frame.DecodedFrameIsEncoded | diskqueue/diskqueue.go:138-150 | conversely, whatever decodes at an offset is exactly the encoded frame of the payload returned |
| Frame.DecodeFrameLocal | diskqueue/diskqueue.go:138-150 | reading a record depends only on the bytes up to its end, so later writes do not change it |
| Frame.Wrap32 | diskqueue/diskqueue.go:94 | the `int32` wrap-around lies in the `int32` range, agrees with the value inside it, and differs from the exact value by a multiple of 2^32 |
| Frame.FrameSizeAsWritten | diskqueue/diskqueue.go:94 | `int64(4 + dataLen)` as written, the sum wrapped to `int32` before widening; the two lemmas below say where it equals the frame size and where it goes negative |
| Frame.FrameSizeAsWrittenAgrees | diskqueue/diskqueue.go:94 | below 2^31 - 4, the `int32` sum `4 + dataLen` equals the frame size |
| Frame.FrameSizeAsWrittenWraps | diskqueue/diskqueue.go:94 | for `dataLen` = 2^31 - 1, the `int32` sum `4 + dataLen` is -(2^31 - 3) |
| Naming.ScanFormatInt | diskqueue/diskqueue.go:186-189 | `%d` scanning reads back the integer `%d` formatting wrote, negatives included, and stops at the following non-digit |
| Naming.ScanFormatPadded6 | diskqueue/diskqueue.go:253-255 | the zero-padded `%06d` form of an integer scans back to that integer |
| Naming.CheckpointRoundTrip | diskqueue/diskqueue.go:220-223 | the checkpoint line parses back to the same five fields, in the order `size, readFileNum, readPos, writeFileNum, writePos` that the scan at lines 186-189 reads |
| Naming.FormatCheckpoint | diskqueue/diskqueue.go:220-223 | the `%d,%d,%d,%d,%d` line of the five fields; `CheckpointRoundTrip` proves that `ParseCheckpoint` reads it back |
| Naming.ParseCheckpoint | diskqueue/diskqueue.go:186-189 | the `%d,%d,%d,%d,%d` scan into the five fields, in file order; `CheckpointRoundTrip` proves it inverse to `FormatCheckpoint` |
| Naming.SegmentFileName | diskqueue/diskqueue.go:253-255 | `<dataPath>/<name>.diskqueue.<%06d>.dat`; the two lemmas below prove it injective in the segment number and never the checkpoint file name |
| Naming.MetaDataFileName | diskqueue/diskqueue.go:249-251 | `<dataPath>/<name>.diskqueue.meta.dat`, which no segment file name equals (`SegmentFileNameIsNotMetaData`) |
| Naming.SegmentFileNamesDistinct | diskqueue/diskqueue.go:253-255 | different segment numbers give different file names |
| Naming.SegmentFileNameIsNotMetaData | diskqueue/diskqueue.go:249-255 | no segment file name is the checkpoint file name |
| SegmentLog.Opened | diskqueue/diskqueue.go:63 | opening with `O_CREATE` makes the segment exist and leaves every segment's bytes as they were |
| SegmentLog.Advance | diskqueue/diskqueue.go:94-106 | the rollover rule shared by `Put` and by `Get` (lines 151-164): move by `4 + len`, and past `maxBytesPerFile` go to offset 0 of the next segment; `AdvanceMovesForward` proves it always moves forward |
| SegmentLog.AdvanceAsWritten | diskqueue/diskqueue.go:94-99 | the same rule with the wrapped `int32` frame size, as lines 94 and 151 compute it; `AdvanceAsWrittenMovesBack` shows it moving backwards |
| SegmentLog.AdvanceMovesForward | diskqueue/diskqueue.go:94-106 | one record moves a cursor strictly forward: further into the same segment, or to the start of the next one |
| SegmentLog.AdvanceAsWrittenMovesBack | diskqueue/diskqueue.go:94-95 | with the `int32` sum as written, a record of 2^31 - 1 bytes moves the write cursor back to a negative offset, where `Advance` moves it forward |
| SegmentLog.FramesBetweenFirst | diskqueue/diskqueue.go:138-153 | when records are queued, the first one lies at the read cursor, strictly before the write cursor, and the rest follow from its advanced cursor |
| SegmentLog.FramesBetweenRest | diskqueue/diskqueue.go:151-165 | after the first record is consumed, the records from the advanced cursor are the remaining items |
| SegmentLog.FramesBetweenOrdered | diskqueue/diskqueue.go:115-117 | the read cursor is at or before the write cursor; it is strictly before exactly when items are queued, and equal exactly when none are |
| SegmentLog.FramesBetweenWalk | diskqueue/diskqueue.go:151-164 | stepping the read cursor over each queued record by the rollover rule lands on the write cursor |
| SegmentLog.WalkAppend | diskqueue/diskqueue.go:94-106 | walking over one more record is one more `Advance` past the end |
| SegmentLog.FramesBetweenKeepsPrefix | diskqueue/diskqueue.go:61-75 | a change to the disk that keeps every byte before the write cursor keeps every queued record |
| SegmentLog.Overwrite | diskqueue/diskqueue.go:87 | a write of data at an offset of a file; `OverwriteSpec` states what it keeps and what it replaces |
| SegmentLog.OverwriteSpec | diskqueue/diskqueue.go:87 | a write at an offset keeps the bytes before it, puts the data at the offset, and keeps the bytes after it |
| SegmentLog.WriteFrame | diskqueue/diskqueue.go:87 | the disk after the frame of `b` is written at a cursor; the lemmas around it prove what it keeps and that the frame reads back |
| SegmentLog.WriteFrameAfterOpen | diskqueue/diskqueue.go:61-87 | writing a frame into a segment that has just been created gives the same disk as writing it directly |
| SegmentLog.WriteFrameKeepsRecords | diskqueue/diskqueue.go:87 | a frame written at the write cursor leaves the queued records intact and decodes there to its payload |
| SegmentLog.WriteFrameAtEnd | diskqueue/diskqueue.go:87 | a frame written where its segment ends makes the segment end right after it, and no other segment changes |
| SegmentLog.NextWithinSegment | diskqueue/diskqueue.go:94-106 | the cursor after a decoded record is inside its segment, or at the start of the next one |
| SegmentLog.ExtendFramesBetween | diskqueue/diskqueue.go:93-107 | a record at the write cursor, once the cursor is advanced past it, joins the end of the queued items |
| DiskQueue.DiskQueue.constructor | diskqueue/diskqueue.go:39-49 | a log with no checkpoint starts with both cursors at segment 0, offset 0, nothing queued and both handles closed, on a directory that holds no segment yet |
| DiskQueue.DiskQueue.CursorsAgree | diskqueue/diskqueue.go:112-117 | the read cursor is never past the write cursor and meets it exactly when `size == 0`; reading every queued record brings the read cursor onto the write cursor |
| DiskQueue.DiskQueue.Size | diskqueue/diskqueue.go:51-53 | the size is the number of queued items |
| DiskQueue.DiskQueue.Put | diskqueue/diskqueue.go:55-109 | a non-`[]byte` is refused and nothing changes. Otherwise it succeeds exactly when no open, seek or write fault occurs. On success, one frame is written at the old write cursor, the cursor advances by `4+len` with rollover, `size` grows by 1 and the payload is queued last. On failure, the cursor, `size` and the items are unchanged, the handle is closed, and the disk differs only by a segment created by the open |
| DiskQueue.DiskQueue.PutBytes | diskqueue/diskqueue.go:60-108 | `Put` for a `[]byte`: the same success and failure contract |
| DiskQueue.DiskQueue.OpenWriteFile | diskqueue/diskqueue.go:61-76 | an open handle is kept; otherwise the segment is created and then the seek runs only past offset 0; it fails exactly on an open fault, or on a seek fault past offset 0 |
| DiskQueue.DiskQueue.WriteRecord | diskqueue/diskqueue.go:77-92 | `writeBuf` holds the frame; it succeeds exactly without a write fault, and then the frame is at the write cursor; a failed write closes the handle and leaves the disk as it was |
| DiskQueue.DiskQueue.CommitRecord | diskqueue/diskqueue.go:93-107 | the write cursor advances by the rollover rule; `size` grows by one; the record is queued last; rolling over closes the handle |
| DiskQueue.DiskQueue.Get | diskqueue/diskqueue.go:111-168 | with `size == 0` it answers "empty queue" and changes nothing. Otherwise it succeeds exactly when no open, seek or read fault occurs. On success it returns the oldest item, removes it, decrements `size`, and advances the read cursor by `4+len` with the writer's rollover. On failure the cursor, `size` and the items are unchanged and the handle is closed. The disk is never written |
| DiskQueue.DiskQueue.OpenReadFile | diskqueue/diskqueue.go:120-137 | an open handle is kept; otherwise it fails exactly on an open fault, or on a seek fault past offset 0 |
| DiskQueue.DiskQueue.ReadRecord | diskqueue/diskqueue.go:138-150 | it succeeds exactly without a read fault and then returns the oldest queued item; a failed read closes the handle |
| DiskQueue.DiskQueue.ConsumeRecord | diskqueue/diskqueue.go:151-167 | the read cursor advances past the record by the writer's rollover rule, the item leaves the queue and `size` drops by one; rolling over closes the handle |
| DiskQueue.DiskQueue.MoveForward | diskqueue/diskqueue.go:170-173 | the read cursor takes the value `Get` computed |
| DiskQueue.DiskQueue.CheckpointLine | diskqueue/diskqueue.go:208-223 | the checkpoint line parses back to exactly the log's current size and cursors |
| BlockQueue.BlockQueue.constructor | blockqueue/blockqueue.go:40-48 | wraps the given backend and capacity as they are |
| BlockQueue.BlockQueue.Size | blockqueue/blockqueue.go:50-55 | the backend's item count, with the backend untouched |
| BlockQueue.BlockQueue.IsEmpty | blockqueue/blockqueue.go:57-62 | true exactly when the backend holds no item |
| BlockQueue.BlockQueue.IsFull | blockqueue/blockqueue.go:64-69 | true exactly when a capacity is set and the backend holds exactly that many items |
| BlockQueue.BlockQueue.Get | blockqueue/blockqueue.go:71-104 | on an empty backend it answers `Empty` without calling the backend, which stays unchanged; otherwise exactly one backend `Get` runs and its result, item or error, is returned unchanged |
| BlockQueue.BlockQueue.Put | blockqueue/blockqueue.go:106-141 | `Full` is returned exactly when a capacity is set and the backend holds exactly that many items, and then the backend is unchanged; otherwise exactly one backend `Put` runs and its result is returned unchanged; a backend within capacity stays within it |
| Fifo.FifoOrder | diskqueue/diskqueue.go:55-168 | whatever the interleaving of puts and gets, the items taken followed by the items left are the starting items followed by the items put |
| Fifo.RunOnLog | diskqueue/diskqueue.go:55-168 | for payloads shorter than 2^31 - 4 bytes, running puts and gets on the log without I/O faults takes exactly the items that the queue trace `Run` takes, and leaves the items it leaves |
| Scenario.CapacityTwo | blockqueue/blockqueue.go:71-141 | for payloads shorter than 2^31 - 4 bytes, with capacity 2: two puts succeed and a third is `Full`; after one get, the third put succeeds; the gets return the items in put order, then `Empty` |

## Left out

- The `sync` goroutine and `sendSyncSignal` (diskqueue/diskqueue.go:234-247) are background timing. `needSync` and `needSyncCh` are never read.
- `persistMetaData` writes a temporary file and renames it. Only the line it writes is modelled (`CheckpointLine`).
- `retrieveMetaData` (diskqueue/diskqueue.go:175-206) and its replay loop are not modelled as behaviour. As written, the loop calls `Get` once, never calls it again and never reassigns `err`. So it either does not iterate or never ends, and its `v` is unused. It also sets `size` to 1. A model of the recovery the design describes would not be this code. The constructor is therefore the case with no checkpoint file: `NewDiskQueue` ignores that error and starts at segment 0, offset 0.
- The two checks at diskqueue/diskqueue.go:112-117 are modelled. Under the invariant, the second check ("read cursor not strictly before the write cursor") never fires once `size > 0`, and `CursorsAgree` proves it. So `Get` answers "empty queue" only for `size == 0`.
- File handles are the flags `readOpen` and `writeOpen`. `bufio` buffering, `Sync`, `Close`, the file mode, and `path.Join` cleaning of the directory name are left out.
- A write at an offset past the end of a file fills the gap with zero bytes. The model has this (`Overwrite` with `ZeroBytes`), but the invariant never reaches it: every write lands exactly where its segment ends.
- A partial write or a short read counts as the failure of that step, as the source treats it. The bytes a failed write may leave behind are not modelled: the model's disk keeps its old contents.
- DiskQueue.DiskQueue.Put: requires a payload shorter than 2^31 bytes. Longer payloads overflow the `int32(len(b))` conversion. A decoded negative length, which only a corrupt segment can hold, would make `make` panic; `DecodeFrame` answers `None` for it instead.
- DiskQueue.DiskQueue.Put: the frame size is the exact `4 + len(b)`, the intended value. The `int32` wrap-around of the source (see Findings) is modelled separately, by `FrameSizeAsWritten` and `AdvanceAsWritten`.
- DiskQueue.DiskQueue.PutBytes: advances by the exact `4 + len(b)`. The `int32` wrap at diskqueue/diskqueue.go:94 is modelled by `AdvanceAsWritten`.
- DiskQueue.DiskQueue.CommitRecord: advances by the exact `4 + len(b)`. The `int32` wrap at diskqueue/diskqueue.go:94 is modelled by `AdvanceAsWritten`.
- DiskQueue.DiskQueue.ConsumeRecord: advances by the exact `4 + len`. The `int32` wrap at diskqueue/diskqueue.go:151 is modelled by `AdvanceAsWritten`.
- DiskQueue.DiskQueue.Get: the read cursor also moves by the exact `4 + len`. The same `int32` wrap-around at diskqueue/diskqueue.go:151 is the one `FrameSizeAsWritten` and `AdvanceAsWritten` model.
- DiskQueue.DiskQueue.constructor: requires that no segment numbered 0 or more holds bytes yet. The source does not check this. The write handle is opened without truncating (diskqueue/diskqueue.go:63), and the read side keeps a buffered reader open between calls (diskqueue/diskqueue.go:136). With old bytes past the write cursor, a `Get` can buffer bytes that a later `Put` overwrites on disk, so the next `Get` returns the stale record instead of the one put. The model does not cover that case.
- DiskQueue.DiskQueue.Get: returns the record on disk at the read cursor. In the model this matches the buffered reader only because a failed write leaves no bytes behind, so no byte at or past the write cursor exists and bytes once read are never overwritten.
- DiskQueue.DiskQueue.Get: a `Write` that fails part-way (diskqueue/diskqueue.go:87) can leave part of a frame past `writePos`. A `Get` whose buffered reader (diskqueue/diskqueue.go:136-138) has already taken those bytes keeps them after a later successful `Put` overwrites them on disk, so the next `Get` can return a torn record. The model does not cover this.
- DiskQueue.DiskQueue.ReadRecord: the same partial write followed by a successful `Put` can make the bytes it reads differ from the frame on disk. The model's failed write changes nothing, so it does not cover this torn record.
- Fifo.RunOnLog: requires every payload to be shorter than 2^31 - 4 bytes. Longer payloads make the source's `int32` frame size `4 + len` wrap (diskqueue/diskqueue.go:94, see the Findings), and the source's `Get` then answers "empty queue" for them. `Frame.FrameSizeAsWrittenAgrees` shows the step as written equals the exact one below that bound.
- Scenario.CapacityTwo: requires payloads shorter than 2^31 - 4 bytes, for the same reason as `Fifo.RunOnLog`.
- `fileName` and `metaDataFileName` use the joined path as the `Sprintf` format. A `%` in the directory or in the name is not modelled.
- Cursors and `size` are unbounded integers. `int64` overflow of the offsets is not modelled.
- `Fscanf`'s handling of white space and of out-of-range numbers is not modelled. `ParseCheckpoint` accepts exactly numbers with an optional sign, separated by commas.
- The mutex, the timers and the condition waits of blockqueue/blockqueue.go, and blockqueue/tmocond.go, are concurrency. With one caller, nothing can change the backend during a wait, so:
  - a timed wait on an empty or full backend runs out and answers `Empty` or `Full`;
  - BlockQueue.BlockQueue.Get and BlockQueue.BlockQueue.Put require that an untimed blocking call is not made on an empty or full backend, since it would wait forever;
  - the `Signal` after a successful call has no observable effect.
- BlockQueue.BlockQueue.Get: the timeout duration is only told apart as zero or non-zero, which is the only distinction the source draws.
- The `BlockQueue` backend is the `DiskQueue` model, not an arbitrary `QueueIF` implementation.
- queue/queue.go, the in-memory queue that arbitrates goroutines and channels, is not part of this model.

## Findings

| source | as written | input that shows it | evidently intended | confidence | as-written member | corrected member |
|---|---|---|---|---|---|---|
| diskqueue/diskqueue.go:94 (and :151) | `int64(4 + dataLen)` adds in `int32` before widening, so the frame size wraps for payloads of 2^31 - 4 to 2^31 - 1 bytes | a payload of 2^31 - 1 bytes put at `Cursor(0, 0)`: the write offset becomes -(2^31 - 3) | the offset moves forward by the exact `4 + len(b)` | not executed | SegmentLog.AdvanceAsWrittenMovesBack | SegmentLog.AdvanceMovesForward |

The read side wraps in the same way at line 151. The first visible effect is on `Get`. With the read cursor at (0, 0) and the write cursor at (0, -(2^31 - 3)), the read cursor is no longer strictly before the write cursor, so the check at line 115 answers "empty queue" while `size` is 1. `AdvanceAsWrittenMovesBack` states this in its `!Before` conjunct. Records are overwritten only later. While the write handle stays open, Go writes at the file's own offset (line 87). Once a failed write closes the handle (lines 89-90), the reopen skips the seek because `writePos > 0` fails (line 68), so the next record lands at offset 0, over the oldest one. The rest of the model uses the exact `FrameSize` and `Advance`.
