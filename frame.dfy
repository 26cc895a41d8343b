/** The record format of a segment file: a 4-byte big-endian two's-complement
    `int32` length followed by that many payload bytes. */
module Frame {
  import opened QueueTypes

  const TwoTo31: int := 0x8000_0000
  const TwoTo32: int := 0x1_0000_0000

  predicate IsInt32(n: int) {
    -TwoTo31 <= n < TwoTo31
  }

  /** The four bytes `binary.Write(w, binary.BigEndian, int32(n))` emits. */
  function EncodeInt32(n: int): (r: seq<byte>)
    requires IsInt32(n)
    ensures |r| == 4
  {
    var u := if n < 0 then n + TwoTo32 else n;
    [(u / 0x100_0000) as byte, (u / 0x1_0000 % 256) as byte,
     (u / 0x100 % 256) as byte, (u % 256) as byte]
  }

  /** The `int32` that `binary.Read(r, binary.BigEndian, &n)` yields from four bytes. */
  function DecodeInt32(s: seq<byte>): (n: int)
    requires |s| == 4
    ensures IsInt32(n)
  {
    var u := ((s[0] as int * 256 + s[1] as int) * 256 + s[2] as int) * 256 + s[3] as int;
    if u >= TwoTo31 then u - TwoTo32 else u
  }

  lemma {:induction false} DecodeEncodeInt32(n: int)
    requires IsInt32(n)
    ensures DecodeInt32(EncodeInt32(n)) == n
  {
    var u := if n < 0 then n + TwoTo32 else n;
    var q1, q2, q3 := u / 256, u / 0x1_0000, u / 0x100_0000;
    assert q2 == q1 / 256 && q3 == q2 / 256;
    assert q3 * 256 + q2 % 256 == q2;
    assert q2 * 256 + q1 % 256 == q1;
    assert q1 * 256 + u % 256 == u;
    var s := EncodeInt32(n);
    assert s[0] as int == q3 && s[1] as int == q2 % 256 && s[2] as int == q1 % 256 && s[3] as int == u % 256;
  }

  lemma {:induction false} EncodeDecodeInt32(s: seq<byte>)
    requires |s| == 4
    ensures EncodeInt32(DecodeInt32(s)) == s
  {
    var b0, b1, b2, b3 := s[0] as int, s[1] as int, s[2] as int, s[3] as int;
    var q2 := b0 * 256 + b1;
    var q1 := q2 * 256 + b2;
    var u := q1 * 256 + b3;
    assert u / 256 == q1 && u % 256 == b3;
    assert q1 / 256 == q2 && q1 % 256 == b2;
    assert q2 / 256 == b0 && q2 % 256 == b1;
    assert u / 0x1_0000 == q2 && u / 0x100_0000 == b0;
    var r := EncodeInt32(DecodeInt32(s));
    assert r[0] == s[0] && r[1] == s[1] && r[2] == s[2] && r[3] == s[3];
  }

  /** Bytes one record of an n-byte payload takes on disk, and so how far a
      cursor moves past it: the 4-byte length and the payload. */
  function FrameSize(n: int): int {
    4 + n
  }

  /** Two's-complement wrap-around of an integer into `int32`. */
  function Wrap32(x: int): (r: int)
    ensures IsInt32(r)
    ensures IsInt32(x) ==> r == x
    ensures (r - x) % TwoTo32 == 0
  {
    var u := x % TwoTo32;
    if u >= TwoTo31 then u - TwoTo32 else u
  }

  /** `int64(4 + dataLen)` as written in `Put` and `Get`: the sum is taken in
      `int32`, before the conversion, and so wraps. */
  function FrameSizeAsWritten(n: int): int
    requires IsInt32(n)
  {
    Wrap32(4 + n)
  }

  /** Below the wrap the written sum is the frame size. */
  lemma FrameSizeAsWrittenAgrees(n: int)
    requires 0 <= n < TwoTo31 - 4
    ensures FrameSizeAsWritten(n) == FrameSize(n)
  {
  }

  /** The largest payload `int32(len(b))` admits gives a negative frame size. */
  lemma FrameSizeAsWrittenWraps()
    ensures FrameSizeAsWritten(TwoTo31 - 1) == -(TwoTo31 - 3)
  {
  }

  /** The bytes the log writes for one payload (the `writeBuf` of `Put`).
      `int32(len(b))` is exact only below 2^31, so larger payloads are excluded. */
  function EncodeFrame(b: seq<byte>): (r: seq<byte>)
    requires |b| < TwoTo31
    ensures |r| == FrameSize(|b|)
    ensures DecodeInt32(r[..4]) == |b| && r[4..] == b
  {
    DecodeEncodeInt32(|b|);
    EncodeInt32(|b|) + b
  }

  /** Reads the record that starts at `pos` in segment bytes `s`: the length,
      then exactly that many bytes. A short read of either part yields None,
      and so does a negative length, on which the source's `make` panics. */
  function DecodeFrame(s: seq<byte>, pos: int): (r: Option<seq<byte>>)
    ensures r.Some? ==> 0 <= pos && pos + FrameSize(|r.value|) <= |s|
  {
    if pos < 0 || pos + 4 > |s| then None
    else
      var n := DecodeInt32(s[pos..pos + 4]);
      if n < 0 || pos + 4 + n > |s| then None
      else Some(s[pos + 4..pos + 4 + n])
  }

  /** Frame round trip: the bytes `EncodeFrame(b)` placed at `pos` decode to `b`. */
  lemma {:induction false} DecodeEncodedFrame(s: seq<byte>, pos: int, b: seq<byte>)
    requires |b| < TwoTo31
    requires 0 <= pos && pos + FrameSize(|b|) <= |s|
    requires s[pos..pos + FrameSize(|b|)] == EncodeFrame(b)
    ensures DecodeFrame(s, pos) == Some(b)
  {
    var e := EncodeFrame(b);
    assert s[pos..pos + 4] == e[..4];
    assert s[pos + 4..pos + 4 + |b|] == e[4..];
  }

  /** The converse: a record decodes only from the exact bytes the writer emits. */
  lemma {:induction false} DecodedFrameIsEncoded(s: seq<byte>, pos: int)
    requires DecodeFrame(s, pos).Some?
    ensures var b := DecodeFrame(s, pos).value;
      |b| < TwoTo31 && s[pos..pos + FrameSize(|b|)] == EncodeFrame(b)
  {
    var b := DecodeFrame(s, pos).value;
    var h := s[pos..pos + 4];
    EncodeDecodeInt32(h);
    var e := EncodeFrame(b);
    assert e == EncodeInt32(|b|) + b;
    assert s[pos..pos + FrameSize(|b|)] == s[pos..pos + 4] + s[pos + 4..pos + 4 + |b|];
    assert s[pos..pos + FrameSize(|b|)] == h + b;
  }

  /** A record is read from its own bytes only: two segments that agree on
      their first k bytes decode the same record at any `pos` whose frame ends
      by k. */
  lemma {:induction false} DecodeFrameLocal(s: seq<byte>, t: seq<byte>, pos: int, k: int)
    requires DecodeFrame(s, pos).Some?
    requires pos + FrameSize(|DecodeFrame(s, pos).value|) <= k <= |t|
    requires k <= |s| && t[..k] == s[..k]
    ensures DecodeFrame(t, pos) == DecodeFrame(s, pos)
  {
    var b := DecodeFrame(s, pos).value;
    DecodedFrameIsEncoded(s, pos);
    var m := pos + FrameSize(|b|);
    assert t[pos..m] == t[..k][pos..m];
    assert s[pos..m] == s[..k][pos..m];
    DecodeEncodedFrame(t, pos, b);
  }
}
