/** The on-disk shape of the log, as values: segment files by number, the
    (file, offset) cursors, the rollover rule shared by reader and writer, and
    what it means for the records between two cursors to be a given list of
    items. */
module SegmentLog {
  import opened QueueTypes
  import opened Frame

  /** The data directory: segment number to the bytes of its file. */
  type Disk = map<int, seq<byte>>

  /** A position `(fileNum, pos)` in the log. */
  datatype Cursor = Cursor(file: int, pos: int)

  /** Lexicographic order on cursors. */
  predicate Before(a: Cursor, b: Cursor) {
    a.file < b.file || (a.file == b.file && a.pos < b.pos)
  }

  predicate AtOrBefore(a: Cursor, b: Cursor) {
    Before(a, b) || a == b
  }

  /** The bytes of segment n; a missing file reads as empty. */
  function Segment(disk: Disk, n: int): seq<byte> {
    if n in disk then disk[n] else []
  }

  /** Opening segment n with O_CREATE: the file exists afterwards, its bytes unchanged. */
  function Opened(disk: Disk, n: int): (d: Disk)
    ensures n in d && forall m :: Segment(d, m) == Segment(disk, m)
  {
    disk[n := Segment(disk, n)]
  }

  /** The cursor after a record with an n-byte payload that starts at c: it moves
      past the record and, once the offset is strictly greater than
      maxBytesPerFile, rolls over to the start of the next segment. */
  function Advance(c: Cursor, n: int, maxBytesPerFile: int): Cursor {
    var pos := c.pos + FrameSize(n);
    if pos > maxBytesPerFile then Cursor(c.file + 1, 0) else Cursor(c.file, pos)
  }

  lemma AdvanceMovesForward(c: Cursor, n: nat, maxBytesPerFile: int)
    ensures Before(c, Advance(c, n, maxBytesPerFile))
  {
  }

  /** The cursor step as written: the offset moves by the wrapped frame size. */
  function AdvanceAsWritten(c: Cursor, n: int, maxBytesPerFile: int): Cursor
    requires IsInt32(n)
  {
    var pos := c.pos + FrameSizeAsWritten(n);
    if pos > maxBytesPerFile then Cursor(c.file + 1, 0) else Cursor(c.file, pos)
  }

  /** As written, a record of 2^31 - 1 bytes moves the cursor backwards, to a
      negative offset, where `Advance` moves it forwards. */
  lemma AdvanceAsWrittenMovesBack()
    ensures var c := Cursor(0, 0);
      && AdvanceAsWritten(c, TwoTo31 - 1, 1000000) == Cursor(0, -(TwoTo31 - 3))
      && !Before(c, AdvanceAsWritten(c, TwoTo31 - 1, 1000000))
      && Before(c, Advance(c, TwoTo31 - 1, 1000000))
  {
    FrameSizeAsWrittenWraps();
  }

  /** The cursor after records with the given payloads, laid out from c. */
  function Walk(c: Cursor, items: seq<seq<byte>>, maxBytesPerFile: int): Cursor
    decreases |items|
  {
    if items == [] then c else Walk(Advance(c, |items[0]|, maxBytesPerFile), items[1..], maxBytesPerFile)
  }

  /** The record at cursor c. */
  function FrameAt(disk: Disk, c: Cursor): Option<seq<byte>> {
    DecodeFrame(Segment(disk, c.file), c.pos)
  }

  /** Reading records from `from`, each strictly before `to`, yields exactly
      `items` and stops exactly at `to`. */
  predicate FramesBetween(disk: Disk, from: Cursor, to: Cursor, maxBytesPerFile: int, items: seq<seq<byte>>)
    decreases |items|, 1
  {
    if items == [] then from == to else RecordThenRest(disk, from, to, maxBytesPerFile, items)
  }

  /** One step of `FramesBetween`: the record at `from`, before `to`, is the
      first item, and the records after it are the rest. */
  predicate RecordThenRest(disk: Disk, from: Cursor, to: Cursor, maxBytesPerFile: int, items: seq<seq<byte>>)
    requires items != []
    decreases |items|, 0
  {
    && Before(from, to) && FrameAt(disk, from) == Some(items[0])
    && FramesBetween(disk, Advance(from, |items[0]|, maxBytesPerFile), to, maxBytesPerFile, items[1..])
  }

  /** What a non-empty run of records says about its first record. */
  lemma FramesBetweenFirst(disk: Disk, from: Cursor, to: Cursor, max: int, items: seq<seq<byte>>)
    requires FramesBetween(disk, from, to, max, items) && items != []
    ensures Before(from, to) && FrameAt(disk, from) == Some(items[0])
    ensures FramesBetween(disk, Advance(from, |items[0]|, max), to, max, items[1..])
  {
    assert RecordThenRest(disk, from, to, max, items);
  }

  /** Reading the first record leaves the rest of the items between the
      cursor after it and the end. */
  lemma FramesBetweenRest(disk: Disk, from: Cursor, to: Cursor, max: int, items: seq<seq<byte>>,
                          from2: Cursor, items2: seq<seq<byte>>)
    requires FramesBetween(disk, from, to, max, items) && items != []
    requires from2 == Advance(from, |items[0]|, max) && items2 == items[1..]
    ensures FramesBetween(disk, from2, to, max, items2)
  {
    FramesBetweenFirst(disk, from, to, max, items);
  }

  /** The records between two cursors never run past the end cursor, and there
      are none exactly when the cursors meet. */
  lemma {:induction false} FramesBetweenOrdered(disk: Disk, from: Cursor, to: Cursor, max: int, items: seq<seq<byte>>)
    requires FramesBetween(disk, from, to, max, items)
    ensures AtOrBefore(from, to)
    ensures items == [] <==> from == to
    ensures items == [] <==> !Before(from, to)
    decreases |items|
  {
    if items != [] {
      FramesBetweenOrdered(disk, Advance(from, |items[0]|, max), to, max, items[1..]);
    }
  }

  /** Reading every record from `from` leaves the reader exactly at `to`: the
      reader's cursors follow the same rollover rule as the writer's. */
  lemma {:induction false} FramesBetweenWalk(disk: Disk, from: Cursor, to: Cursor, max: int, items: seq<seq<byte>>)
    requires FramesBetween(disk, from, to, max, items)
    ensures Walk(from, items, max) == to
    decreases |items|
  {
    if items != [] {
      FramesBetweenWalk(disk, Advance(from, |items[0]|, max), to, max, items[1..]);
    }
  }

  /** Laying out one more record moves the end cursor by one Advance. */
  lemma {:induction false} WalkAppend(c: Cursor, items: seq<seq<byte>>, b: seq<byte>, max: int)
    ensures Walk(c, items + [b], max) == Advance(Walk(c, items, max), |b|, max)
    decreases |items|
  {
    if items == [] {
      assert items + [b] == [b];
      assert [b][1..] == [];
    } else {
      assert (items + [b])[0] == items[0];
      assert (items + [b])[1..] == items[1..] + [b];
      WalkAppend(Advance(c, |items[0]|, max), items[1..], b, max);
    }
  }

  /** `disk2` keeps every byte of `disk` that lies before cursor c. */
  ghost predicate SamePrefix(disk: Disk, disk2: Disk, c: Cursor) {
    && (forall n :: n < c.file ==> Segment(disk2, n) == Segment(disk, n))
    && 0 <= c.pos <= |Segment(disk, c.file)|
    && c.pos <= |Segment(disk2, c.file)|
    && Segment(disk2, c.file)[..c.pos] == Segment(disk, c.file)[..c.pos]
  }

  /** Changing only bytes at or after `to` leaves the records before `to` as they were. */
  lemma {:induction false} FramesBetweenKeepsPrefix(disk: Disk, disk2: Disk, from: Cursor, to: Cursor, max: int, items: seq<seq<byte>>)
    requires FramesBetween(disk, from, to, max, items)
    requires SamePrefix(disk, disk2, to)
    ensures FramesBetween(disk2, from, to, max, items)
    decreases |items|
  {
    if items != [] {
      var next := Advance(from, |items[0]|, max);
      FramesBetweenOrdered(disk, next, to, max, items[1..]);
      FramesBetweenKeepsPrefix(disk, disk2, next, to, max, items[1..]);
      if from.file == to.file {
        var s, t := Segment(disk, to.file), Segment(disk2, to.file);
        assert from.pos + FrameSize(|items[0]|) <= to.pos;
        DecodeFrameLocal(s, t, from.pos, to.pos);
      }
    }
  }

  /** The gap a write past the end of a file leaves: n zero bytes. */
  function ZeroBytes(n: nat): (z: seq<byte>)
    ensures |z| == n
  {
    if n == 0 then [] else ZeroBytes(n - 1) + [0]
  }

  /** `File.Write` at offset pos; writing past the end of the file fills the
      gap with zero bytes. */
  function Overwrite(s: seq<byte>, pos: nat, data: seq<byte>): seq<byte> {
    var head := if pos <= |s| then s[..pos] else s + ZeroBytes(pos - |s|);
    var tail := if pos + |data| < |s| then s[pos + |data|..] else [];
    head + data + tail
  }

  /** What a write leaves in the file: the bytes before pos stay, data
      replaces the bytes from pos on, the bytes after it stay, and the file
      grows only as far as the write reaches. */
  lemma OverwriteSpec(s: seq<byte>, pos: nat, data: seq<byte>)
    ensures var r := Overwrite(s, pos, data);
      && |r| == (if pos + |data| > |s| then pos + |data| else |s|)
      && (pos <= |s| ==> r[..pos] == s[..pos])
      && r[pos..pos + |data|] == data
      && (forall i :: pos + |data| <= i < |s| ==> r[i] == s[i])
  {
  }

  /** The segment files after writing the record of b at cursor c. */
  function WriteFrame(disk: Disk, c: Cursor, b: seq<byte>): Disk
    requires 0 <= c.pos && |b| < TwoTo31
  {
    disk[c.file := Overwrite(Segment(disk, c.file), c.pos, EncodeFrame(b))]
  }

  /** Opening the segment first does not change what a write leaves on disk. */
  lemma WriteFrameAfterOpen(disk: Disk, c: Cursor, b: seq<byte>)
    requires 0 <= c.pos && |b| < TwoTo31
    ensures WriteFrame(Opened(disk, c.file), c, b) == WriteFrame(disk, c, b)
  {
  }

  /** Writing the record of b at the end cursor `to` keeps the records
      before it, and b can be read back at `to`. */
  lemma WriteFrameKeepsRecords(disk: Disk, from: Cursor, to: Cursor, max: int, items: seq<seq<byte>>, b: seq<byte>,
                               disk2: Disk)
    requires FramesBetween(disk, from, to, max, items)
    requires 0 <= to.pos <= |Segment(disk, to.file)|
    requires |b| < TwoTo31 && disk2 == WriteFrame(disk, to, b)
    ensures FramesBetween(disk2, from, to, max, items)
    ensures to.pos <= |Segment(disk2, to.file)|
    ensures FrameAt(disk2, to) == Some(b)
  {
    var seg := Overwrite(Segment(disk, to.file), to.pos, EncodeFrame(b));
    OverwriteSpec(Segment(disk, to.file), to.pos, EncodeFrame(b));
    assert SamePrefix(disk, disk2, to);
    FramesBetweenKeepsPrefix(disk, disk2, from, to, max, items);
    DecodeEncodedFrame(seg, to.pos, b);
  }

  /** A record written where its segment ends makes the segment end right
      after it, and leaves every other segment as it was. */
  lemma WriteFrameAtEnd(disk: Disk, c: Cursor, b: seq<byte>, disk2: Disk)
    requires 0 <= c.pos == |Segment(disk, c.file)|
    requires |b| < TwoTo31 && disk2 == WriteFrame(disk, c, b)
    ensures |Segment(disk2, c.file)| == c.pos + FrameSize(|b|)
    ensures forall n :: n != c.file ==> Segment(disk2, n) == Segment(disk, n)
  {
    OverwriteSpec(Segment(disk, c.file), c.pos, EncodeFrame(b));
  }

  /** The cursor after a readable record stays within the bytes of its segment. */
  lemma NextWithinSegment(disk: Disk, c: Cursor, b: seq<byte>, max: int)
    requires FrameAt(disk, c) == Some(b)
    ensures var next := Advance(c, |b|, max); 0 <= next.pos <= |Segment(disk, next.file)|
  {
  }

  /** A record read at the end cursor extends the records between the cursors. */
  lemma {:induction false} ExtendFramesBetween(disk: Disk, from: Cursor, to: Cursor, max: int, items: seq<seq<byte>>, b: seq<byte>)
    requires FramesBetween(disk, from, to, max, items)
    requires FrameAt(disk, to) == Some(b)
    ensures FramesBetween(disk, from, Advance(to, |b|, max), max, items + [b])
    decreases |items|
  {
    var end := Advance(to, |b|, max);
    AdvanceMovesForward(to, |b|, max);
    if items == [] {
      assert items + [b] == [b];
      assert [b][1..] == [];
    } else {
      var next := Advance(from, |items[0]|, max);
      ExtendFramesBetween(disk, next, to, max, items[1..], b);
      FramesBetweenOrdered(disk, next, to, max, items[1..]);
      assert (items + [b])[0] == items[0];
      assert (items + [b])[1..] == items[1..] + [b];
    }
  }
}
