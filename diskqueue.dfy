/** The disk-backed segment log (`DiskQueue`): a FIFO queue of byte strings
    kept as length-framed records in numbered segment files, with a read
    cursor, a write cursor and an item count updated in place. */
module DiskQueue {
  import opened QueueTypes
  import opened Frame
  import opened SegmentLog
  import Naming

  /** The segment size threshold `NewDiskQueue` sets. */
  const DefaultMaxBytesPerFile: int := 1000000

  /** Whether `Put` fails on `fault`, given whether the write handle is already
      open and the write offset: open and seek are only attempted on a closed
      handle, seek only past offset 0; the write is always attempted. */
  predicate PutFails(fault: IoFault, fileOpen: bool, pos: int) {
    || (fault == OpenFault && !fileOpen)
    || (fault == SeekFault && !fileOpen && pos > 0)
    || fault == WriteFault
  }

  /** Whether `Get` fails on `fault` once it gets past its emptiness checks. */
  predicate GetFails(fault: IoFault, fileOpen: bool, pos: int) {
    || (fault == OpenFault && !fileOpen)
    || (fault == SeekFault && !fileOpen && pos > 0)
    || fault == ReadFault
  }

  class DiskQueue {
    const name: string
    const dataPath: string
    const maxBytesPerFile: int

    var readPos: int
    var writePos: int
    var readFileNum: int
    var writeFileNum: int
    var nextReadPos: int
    var nextReadFileNum: int
    var readOpen: bool     // readFile != nil
    var writeOpen: bool    // writeFile != nil
    var writeBuf: seq<byte>
    var size: int
    /** The segment files by number: segment n is the file
        `Naming.SegmentFileName(dataPath, name, n)`. */
    var files: Disk

    /** The queued items, oldest first. */
    ghost var Contents: seq<seq<byte>>

    function ReadCursor(): Cursor
      reads this
    {
      Cursor(readFileNum, readPos)
    }

    function WriteCursor(): Cursor
      reads this
    {
      Cursor(writeFileNum, writePos)
    }

    /** The records from the read cursor to the write cursor are exactly the
        queued items, and the log ends at the write cursor. */
    ghost predicate Valid()
      reads this
    {
      Consistent() && EndsAtWriteCursor()
    }

    /** The records from the read cursor to the write cursor are exactly the
        queued items, `size` counts them, an open handle's file exists, and
        the scratch cursor `nextRead*` rests on the read cursor. */
    ghost predicate Consistent()
      reads this
    {
      && 0 <= readPos
      && 0 <= writePos <= |Segment(files, writeFileNum)|
      && size == |Contents|
      && nextReadFileNum == readFileNum && nextReadPos == readPos
      && (readOpen ==> readFileNum in files)
      && (writeOpen ==> writeFileNum in files)
      && FramesBetween(files, ReadCursor(), WriteCursor(), maxBytesPerFile, Contents)
    }

    /** No byte lies at or past the write cursor: the write segment ends there
        and every later segment is empty. Records are only ever appended, so
        nothing the reader has buffered is overwritten afterwards. */
    ghost predicate EndsAtWriteCursor()
      reads this
    {
      && writePos == |Segment(files, writeFileNum)|
      && forall n :: n > writeFileNum ==> Segment(files, n) == []
    }

    /** `NewDiskQueue` when no checkpoint file exists: both cursors at the start
        of segment 0, nothing queued, the directory as it is, holding no
        segment from 0 on. */
    constructor (name: string, dataPath: string, disk: Disk)
      requires forall n :: n >= 0 ==> Segment(disk, n) == []
      ensures Valid() && Contents == []
      ensures this.name == name && this.dataPath == dataPath
      ensures maxBytesPerFile == DefaultMaxBytesPerFile && files == disk
      ensures ReadCursor() == Cursor(0, 0) && WriteCursor() == Cursor(0, 0)
      ensures !readOpen && !writeOpen
    {
      this.name := name;
      this.dataPath := dataPath;
      maxBytesPerFile := DefaultMaxBytesPerFile;
      readPos, writePos, readFileNum, writeFileNum := 0, 0, 0, 0;
      nextReadPos, nextReadFileNum := 0, 0;
      readOpen, writeOpen := false, false;
      writeBuf := [];
      size := 0;
      files := disk;
      Contents := [];
    }

    /** The read cursor is never past the write cursor and meets it exactly
        when nothing is queued; reading every queued record walks the read
        cursor, by the writer's rollover rule, onto the write cursor. */
    lemma CursorsAgree()
      requires Valid()
      ensures AtOrBefore(ReadCursor(), WriteCursor())
      ensures size == 0 <==> ReadCursor() == WriteCursor()
      ensures Walk(ReadCursor(), Contents, maxBytesPerFile) == WriteCursor()
    {
      FramesBetweenOrdered(files, ReadCursor(), WriteCursor(), maxBytesPerFile, Contents);
      FramesBetweenWalk(files, ReadCursor(), WriteCursor(), maxBytesPerFile, Contents);
    }

    method Size() returns (n: int)
      requires Valid()
      ensures n == |Contents|
    {
      n := size;
    }

    /** Appends v as one record at the write cursor; only byte strings are accepted. */
    method Put(v: Item, fault: IoFault) returns (r: Outcome)
      requires Valid()
      requires v.ByteSlice? ==> |v.data| < TwoTo31
      modifies this`files, this`writeBuf, this`writeFileNum, this`writePos, this`writeOpen, this`size, this`Contents
      ensures Valid()
      ensures !v.ByteSlice? ==> r == Fail(NotByteSlice) && unchanged(this)
      ensures r.Pass? <==> v.ByteSlice? && !PutFails(fault, old(writeOpen), old(writePos))
      ensures r.Pass? ==>
        && files == WriteFrame(old(files), old(WriteCursor()), v.data)
        && WriteCursor() == Advance(old(WriteCursor()), |v.data|, maxBytesPerFile)
        && size == old(size) + 1 && Contents == old(Contents) + [v.data]
        && writeOpen == (writeFileNum == old(writeFileNum))
        && writeBuf == EncodeFrame(v.data)
      ensures r.Fail? && v.ByteSlice? ==>
        && fault != NoFault && r.error == FaultError(fault)
        && WriteCursor() == old(WriteCursor()) && size == old(size) && Contents == old(Contents)
        && !writeOpen
        && files == (if old(writeOpen) || r.error == OpenFailed then old(files) else Opened(old(files), old(writeFileNum)))
        && writeBuf == (if r.error == WriteFailed then EncodeFrame(v.data) else old(writeBuf))
    {
      if !v.ByteSlice? {
        return Fail(NotByteSlice);
      }
      r := PutBytes(v.data, fault);
    }

    /** `Put` once v is known to be a byte string: open the write handle if it
        is closed, write the record, then advance the write cursor. */
    method PutBytes(b: seq<byte>, fault: IoFault) returns (r: Outcome)
      requires Valid()
      requires |b| < TwoTo31
      modifies this`files, this`writeBuf, this`writeFileNum, this`writePos, this`writeOpen, this`size, this`Contents
      ensures Valid()
      ensures r.Pass? <==> !PutFails(fault, old(writeOpen), old(writePos))
      ensures r.Pass? ==>
        && files == WriteFrame(old(files), old(WriteCursor()), b)
        && WriteCursor() == Advance(old(WriteCursor()), |b|, maxBytesPerFile)
        && size == old(size) + 1 && Contents == old(Contents) + [b]
        && writeOpen == (writeFileNum == old(writeFileNum))
        && writeBuf == EncodeFrame(b)
      ensures r.Fail? ==>
        && fault != NoFault && r.error == FaultError(fault)
        && WriteCursor() == old(WriteCursor()) && size == old(size) && Contents == old(Contents)
        && !writeOpen
        && files == (if old(writeOpen) || r.error == OpenFailed then old(files) else Opened(old(files), old(writeFileNum)))
        && writeBuf == (if r.error == WriteFailed then EncodeFrame(b) else old(writeBuf))
    {
      ghost var disk, at := files, WriteCursor();
      r := OpenWriteFile(fault);
      if r.Fail? {
        return;
      }
      WriteFrameAfterOpen(disk, at, b);
      r := WriteRecord(b, fault);
      if r.Pass? {
        CommitRecord(b);
      }
    }

    /** The `q.writeFile == nil` branch of `Put`: open (creating) the segment at
        the write cursor and seek to the write offset. */
    method OpenWriteFile(fault: IoFault) returns (r: Outcome)
      requires Valid()
      modifies this`files, this`writeOpen
      ensures Valid()
      ensures r.Pass? <==> old(writeOpen) || !(fault == OpenFault || (fault == SeekFault && writePos > 0))
      ensures r.Pass? ==> writeOpen
      ensures r.Fail? ==> !writeOpen && fault != NoFault && r.error == FaultError(fault)
      ensures files == (if old(writeOpen) || fault == OpenFault then old(files) else Opened(old(files), writeFileNum))
    {
      if writeOpen {
        return Pass;
      }
      if fault == OpenFault {
        return Fail(OpenFailed);
      }
      // O_CREATE: the segment file exists from here on, even if seeking fails.
      var disk := Opened(files, writeFileNum);
      FramesBetweenKeepsPrefix(files, disk, ReadCursor(), WriteCursor(), maxBytesPerFile, Contents);
      if writePos > 0 && fault == SeekFault {
        files := disk;
        return Fail(SeekFailed);
      }
      files, writeOpen := disk, true;
      return Pass;
    }

    /** The write of `Put`, on an open write handle: frame b into `writeBuf`
        and write it at the write cursor. Only bytes at or after the write
        cursor change, so the queued records stay as they were. */
    method WriteRecord(b: seq<byte>, fault: IoFault) returns (r: Outcome)
      requires Valid() && writeOpen
      requires |b| < TwoTo31
      modifies this`files, this`writeBuf, this`writeOpen
      ensures Consistent()
      ensures writeBuf == EncodeFrame(b)
      ensures r.Pass? <==> fault != WriteFault
      ensures r.Pass? ==> files == WriteFrame(old(files), WriteCursor(), b) && writeOpen
      ensures r.Pass? ==> FrameAt(files, WriteCursor()) == Some(b)
      ensures r.Pass? ==> EndsAfterRecord(FrameSize(|b|))
      ensures r.Fail? ==> r.error == WriteFailed && !writeOpen && files == old(files) && Valid()
    {
      writeBuf := EncodeFrame(b);
      if fault == WriteFault {
        writeOpen := false;
        return Fail(WriteFailed);
      }
      var disk := WriteFrame(files, WriteCursor(), b);
      WriteFrameKeepsRecords(files, ReadCursor(), WriteCursor(), maxBytesPerFile, Contents, b, disk);
      WriteFrameAtEnd(files, WriteCursor(), b, disk);
      files := disk;
      return Pass;
    }

    /** The state between writing a record of `len` bytes at the write cursor
        and advancing past it: the write segment ends right after the record
        and every later segment is empty. */
    ghost predicate EndsAfterRecord(len: int)
      reads this
    {
      && |Segment(files, writeFileNum)| == writePos + len
      && forall n :: n > writeFileNum ==> Segment(files, n) == []
    }

    /** The end of `Put`: the record written at the write cursor joins the
        queue; the cursor moves past it, and past maxBytesPerFile the segment
        is closed and writing continues at the start of the next one. */
    method CommitRecord(b: seq<byte>)
      requires Consistent() && FrameAt(files, WriteCursor()) == Some(b)
      requires EndsAfterRecord(FrameSize(|b|))
      modifies this`writeFileNum, this`writePos, this`writeOpen, this`size, this`Contents
      ensures Valid()
      ensures WriteCursor() == Advance(old(WriteCursor()), |b|, maxBytesPerFile)
      ensures size == old(size) + 1 && Contents == old(Contents) + [b]
      ensures writeOpen == (old(writeOpen) && writeFileNum == old(writeFileNum))
    {
      var next := Advance(WriteCursor(), |b|, maxBytesPerFile);
      ExtendFramesBetween(files, ReadCursor(), WriteCursor(), maxBytesPerFile, Contents, b);
      NextWithinSegment(files, WriteCursor(), b, maxBytesPerFile);
      writeFileNum, writePos, writeOpen, size, Contents :=
        next.file, next.pos, writeOpen && next.file == writeFileNum, size + 1, Contents + [b];
    }

    /** Removes and returns the record at the read cursor. */
    method Get(fault: IoFault) returns (r: Result<Item>)
      requires Valid()
      modifies this`readOpen, this`nextReadFileNum, this`nextReadPos, this`readFileNum, this`readPos, this`size, this`Contents
      ensures Valid()
      ensures r.Ok? <==> old(size) > 0 && !GetFails(fault, old(readOpen), old(readPos))
      ensures r.Ok? ==>
        && r.value == ByteSlice(old(Contents)[0])
        && size == old(size) - 1 && Contents == old(Contents)[1..]
        && ReadCursor() == Advance(old(ReadCursor()), |old(Contents)[0]|, maxBytesPerFile)
        && readOpen == (readFileNum == old(readFileNum))
      ensures old(size) == 0 ==> r == Err(EmptyQueue) && unchanged(this)
      ensures r.Err? && old(size) > 0 ==>
        && fault != NoFault && r.error == FaultError(fault)
        && ReadCursor() == old(ReadCursor()) && size == old(size) && Contents == old(Contents)
        && !readOpen
    {
      if size == 0 {
        return Err(EmptyQueue);
      }
      FramesBetweenFirst(files, ReadCursor(), WriteCursor(), maxBytesPerFile, Contents);
      if !Before(ReadCursor(), WriteCursor()) {
        return Err(EmptyQueue);
      }
      var openResult := OpenReadFile(fault);
      if openResult.Fail? {
        return Err(openResult.error);
      }
      var record := ReadRecord(fault);
      if record.Err? {
        return Err(record.error);
      }
      ConsumeRecord(record.value);
      return Ok(ByteSlice(record.value));
    }

    /** The `q.readFile == nil` branch of `Get`: open the segment at the read
        cursor and seek to the read offset. */
    method OpenReadFile(fault: IoFault) returns (r: Outcome)
      requires Valid() && Contents != []
      modifies this`readOpen
      ensures Valid()
      ensures r.Pass? <==> old(readOpen) || !(fault == OpenFault || (fault == SeekFault && readPos > 0))
      ensures r.Pass? ==> readOpen
      ensures r.Fail? ==> !readOpen && fault != NoFault && r.error == FaultError(fault)
    {
      if readOpen {
        return Pass;
      }
      // The first queued record lies in the segment at the read cursor, so that file exists.
      FramesBetweenFirst(files, ReadCursor(), WriteCursor(), maxBytesPerFile, Contents);
      if readFileNum !in files || fault == OpenFault {
        return Fail(OpenFailed);
      }
      if readPos > 0 && fault == SeekFault {
        return Fail(SeekFailed);
      }
      readOpen := true;
      return Pass;
    }

    /** `binary.Read` of the length, then `io.ReadFull` of that many bytes,
        from the open read handle; a failed read closes the handle. */
    method ReadRecord(fault: IoFault) returns (r: Result<seq<byte>>)
      requires Valid() && Contents != [] && readOpen
      modifies this`readOpen
      ensures Valid()
      ensures r.Ok? <==> fault != ReadFault
      ensures r.Ok? ==> r.value == Contents[0] && readOpen
      ensures r.Err? ==> r.error == ReadFailed && !readOpen
    {
      FramesBetweenFirst(files, ReadCursor(), WriteCursor(), maxBytesPerFile, Contents);
      var frame := if fault == ReadFault then None else FrameAt(files, ReadCursor());
      if frame.None? {
        readOpen := false;
        return Err(ReadFailed);
      }
      return Ok(frame.value);
    }

    /** The end of `Get`: the cursor moves past the record just read by the
        writer's rule (past maxBytesPerFile the reader closes its segment and
        continues at the start of the next one), and the record leaves the queue. */
    method ConsumeRecord(payload: seq<byte>)
      requires Valid() && Contents != [] && payload == Contents[0]
      modifies this`readOpen, this`nextReadFileNum, this`nextReadPos, this`readFileNum, this`readPos, this`size, this`Contents
      ensures Valid()
      ensures ReadCursor() == Advance(old(ReadCursor()), |payload|, maxBytesPerFile)
      ensures size == old(size) - 1 && Contents == old(Contents)[1..]
      ensures readOpen == (old(readOpen) && readFileNum == old(readFileNum))
    {
      ghost var at, items := ReadCursor(), Contents;
      var next := Advance(ReadCursor(), |payload|, maxBytesPerFile);
      readOpen, nextReadFileNum, nextReadPos := readOpen && next.file == readFileNum, next.file, next.pos;
      MoveForward();
      size, Contents := size - 1, Contents[1..];
      FramesBetweenRest(files, at, WriteCursor(), maxBytesPerFile, items, ReadCursor(), Contents);
      assert EndsAtWriteCursor();
    }

    /** Commits the cursor `Get` computed. */
    method MoveForward()
      modifies this`readFileNum, this`readPos
      ensures readFileNum == nextReadFileNum && readPos == nextReadPos
    {
      readFileNum := nextReadFileNum;
      readPos := nextReadPos;
    }

    /** The line `persistMetaData` writes to the checkpoint file. */
    method CheckpointLine() returns (line: string)
      ensures Naming.ParseCheckpoint(line)
        == Some(Naming.Checkpoint(size, readFileNum, readPos, writeFileNum, writePos))
    {
      var c := Naming.Checkpoint(size, readFileNum, readPos, writeFileNum, writePos);
      line := Naming.FormatCheckpoint(c);
      Naming.CheckpointRoundTrip(c);
    }
  }
}
