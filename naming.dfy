/** Text the log produces: the checkpoint line `size,readFileNum,readPos,
    writeFileNum,writePos` (`fmt.Fprintf` / `fmt.Fscanf` with `%d`) and the
    file names `<name>.diskqueue.<%06d>.dat` and `<name>.diskqueue.meta.dat`. */
module Naming {
  import opened QueueTypes

  predicate IsDigit(c: char) {
    '0' <= c <= '9'
  }

  predicate AllDigits(s: string) {
    forall i :: 0 <= i < |s| ==> IsDigit(s[i])
  }

  function DigitChar(d: int): char
    requires 0 <= d < 10
  {
    ('0' as int + d) as char
  }

  function DigitValue(c: char): int
    requires IsDigit(c)
  {
    c as int - '0' as int
  }

  /** The decimal digits of n, most significant first, without leading zeros. */
  function Digits(n: nat): (s: string)
    ensures |s| >= 1 && AllDigits(s)
  {
    if n < 10 then [DigitChar(n)] else Digits(n / 10) + [DigitChar(n % 10)]
  }

  /** The value of a string of decimal digits (leading zeros allowed). */
  function DigitsValue(s: string): nat
    requires AllDigits(s)
  {
    if s == [] then 0 else DigitsValue(s[..|s| - 1]) * 10 + DigitValue(s[|s| - 1])
  }

  function Zeros(k: nat): (s: string)
    ensures |s| == k && AllDigits(s)
  {
    seq(k, _ => '0')
  }

  /** `%d` */
  function FormatInt(n: int): string {
    if n < 0 then "-" + Digits(-n) else Digits(n)
  }

  /** `%06d`: zero padded to a width of six, a minus sign counting towards it. */
  function FormatPadded6(n: int): (s: string)
    ensures |s| >= 6
  {
    if n < 0 then "-" + PadZeros(Digits(-n), 5) else PadZeros(Digits(n), 6)
  }

  /** Zeros in front of ds up to the given width. */
  function PadZeros(ds: string, width: nat): (s: string)
    ensures |s| >= width && |s| >= |ds|
  {
    if |ds| >= width then ds else Zeros(width - |ds|) + ds
  }

  /** The length of the run of decimal digits that starts s. */
  function DigitRun(s: string): (k: nat)
    ensures k <= |s| && AllDigits(s[..k])
    ensures k < |s| ==> !IsDigit(s[k])
  {
    if s == [] || !IsDigit(s[0]) then 0
    else
      var k := 1 + DigitRun(s[1..]);
      assert s[..k] == [s[0]] + s[1..][..k - 1];
      k
  }

  /** One `%d` conversion of `fmt.Fscanf`: an optional sign, then a greedy run
      of at least one decimal digit. Gives the value and the unread rest. */
  function ScanInt(s: string): Option<(int, string)> {
    var signLen := if |s| > 0 && (s[0] == '-' || s[0] == '+') then 1 else 0;
    var body := s[signLen..];
    var k := DigitRun(body);
    if k == 0 then None
    else
      var v: int := DigitsValue(body[..k]);
      Some((if signLen == 1 && s[0] == '-' then -v else v, body[k..]))
  }

  lemma {:induction false} DigitsValueOfDigits(n: nat)
    ensures DigitsValue(Digits(n)) == n
  {
    if n >= 10 {
      var s := Digits(n);
      DigitsValueOfDigits(n / 10);
      assert s[..|s| - 1] == Digits(n / 10);
    }
  }

  lemma {:induction false} DigitsValueSkipsZeros(k: nat, ds: string)
    requires AllDigits(ds)
    ensures AllDigits(Zeros(k) + ds) && DigitsValue(Zeros(k) + ds) == DigitsValue(ds)
  {
    var s := Zeros(k) + ds;
    if ds == [] {
      assert s == Zeros(k);
      ZerosValue(k);
    } else {
      DigitsValueSkipsZeros(k, ds[..|ds| - 1]);
      assert s[..|s| - 1] == Zeros(k) + ds[..|ds| - 1];
    }
  }

  lemma {:induction false} ZerosValue(k: nat)
    ensures DigitsValue(Zeros(k)) == 0
  {
    if k > 0 {
      ZerosValue(k - 1);
      assert Zeros(k)[..k - 1] == Zeros(k - 1);
    }
  }

  lemma {:induction false} DigitRunStopsAt(ds: string, rest: string)
    requires AllDigits(ds)
    requires rest == [] || !IsDigit(rest[0])
    ensures DigitRun(ds + rest) == |ds|
  {
    if ds != [] {
      assert (ds + rest)[1..] == ds[1..] + rest;
      DigitRunStopsAt(ds[1..], rest);
    } else {
      assert ds + rest == rest;
    }
  }

  /** Scanning an optional minus sign and a digit string followed by a non-digit. */
  lemma {:induction false} ScanSignedDigits(neg: bool, ds: string, rest: string)
    requires AllDigits(ds) && |ds| >= 1
    requires rest == [] || !IsDigit(rest[0])
    ensures var s := (if neg then "-" else "") + ds + rest;
      ScanInt(s) == Some((if neg then -(DigitsValue(ds) as int) else DigitsValue(ds) as int, rest))
  {
    var s := (if neg then "-" else "") + ds + rest;
    var signLen := if neg then 1 else 0;
    assert s[signLen..] == ds + rest;
    DigitRunStopsAt(ds, rest);
    assert (ds + rest)[..|ds|] == ds;
    assert (ds + rest)[|ds|..] == rest;
  }

  /** `%d` printing then `%d` scanning gives back the number and stops before
      the next non-digit. */
  lemma {:induction false} ScanFormatInt(n: int, rest: string)
    requires rest == [] || !IsDigit(rest[0])
    ensures ScanInt(FormatInt(n) + rest) == Some((n, rest))
  {
    if n < 0 {
      DigitsValueOfDigits(-n);
      ScanSignedDigits(true, Digits(-n), rest);
    } else {
      DigitsValueOfDigits(n);
      ScanSignedDigits(false, Digits(n), rest);
      assert FormatInt(n) + rest == "" + Digits(n) + rest;
    }
  }

  /** Padding a digit string with zeros keeps it a digit string of the same value. */
  lemma PadZerosValue(ds: string, width: nat)
    requires AllDigits(ds) && |ds| >= 1
    ensures AllDigits(PadZeros(ds, width)) && |PadZeros(ds, width)| >= 1
    ensures DigitsValue(PadZeros(ds, width)) == DigitsValue(ds)
  {
    if |ds| < width {
      DigitsValueSkipsZeros(width - |ds|, ds);
    }
  }

  /** `%06d` output scans back to the number it printed. */
  lemma {:induction false} ScanFormatPadded6(n: int, rest: string)
    requires rest == [] || !IsDigit(rest[0])
    ensures ScanInt(FormatPadded6(n) + rest) == Some((n, rest))
  {
    var m := if n < 0 then -n else n;
    var padded := PadZeros(Digits(m), if n < 0 then 5 else 6);
    DigitsValueOfDigits(m);
    PadZerosValue(Digits(m), if n < 0 then 5 else 6);
    ScanSignedDigits(n < 0, padded, rest);
    assert FormatPadded6(n) + rest == (if n < 0 then "-" else "") + padded + rest;
  }

  /** The five fields `persistMetaData` writes and `retrieveMetaData` reads, in
      file order. */
  datatype Checkpoint = Checkpoint(size: int, readFileNum: int, readPos: int,
                                   writeFileNum: int, writePos: int)

  /** `fmt.Fprintf(f, "%d,%d,%d,%d,%d", ...)` */
  function FormatCheckpoint(c: Checkpoint): string {
    FieldThen(c.size, FieldThen(c.readFileNum, FieldThen(c.readPos,
      FieldThen(c.writeFileNum, FormatInt(c.writePos)))))
  }

  /** One `%d,` of the checkpoint format, then the rest of the line. */
  function FieldThen(n: int, rest: string): string {
    FormatInt(n) + "," + rest
  }

  /** A `%d` conversion followed by the literal `,` of the format. */
  function ScanIntComma(s: string): Option<(int, string)> {
    match ScanInt(s)
    case None => None
    case Some((v, rest)) => if |rest| > 0 && rest[0] == ',' then Some((v, rest[1..])) else None
  }

  /** `fmt.Fscanf(f, "%d,%d,%d,%d,%d", ...)`; input after the fifth number is left unread. */
  function ParseCheckpoint(s: string): Option<Checkpoint> {
    match ScanIntComma(s)
    case None => None
    case Some((size, s1)) =>
      match ScanIntComma(s1)
      case None => None
      case Some((readFileNum, s2)) =>
        match ScanIntComma(s2)
        case None => None
        case Some((readPos, s3)) =>
          match ScanIntComma(s3)
          case None => None
          case Some((writeFileNum, s4)) =>
            match ScanInt(s4)
            case None => None
            case Some((writePos, _)) => Some(Checkpoint(size, readFileNum, readPos, writeFileNum, writePos))
  }

  lemma {:induction false} ScanIntCommaFormat(n: int, rest: string)
    ensures ScanIntComma(FieldThen(n, rest)) == Some((n, rest))
  {
    var r := "," + rest;
    assert FieldThen(n, rest) == FormatInt(n) + r;
    ScanFormatInt(n, r);
    assert r[0] == ',' && r[1..] == rest;
  }

  /** The parse succeeds with the five values its conversions read in turn. */
  lemma ParseFields(s: string, c: Checkpoint, s1: string, s2: string, s3: string, s4: string)
    requires ScanIntComma(s) == Some((c.size, s1))
    requires ScanIntComma(s1) == Some((c.readFileNum, s2))
    requires ScanIntComma(s2) == Some((c.readPos, s3))
    requires ScanIntComma(s3) == Some((c.writeFileNum, s4))
    requires ScanInt(s4) == Some((c.writePos, []))
    ensures ParseCheckpoint(s) == Some(c)
  {
  }

  /** The checkpoint line parses back to the same five fields in the same order. */
  lemma {:induction false} CheckpointRoundTrip(c: Checkpoint)
    ensures ParseCheckpoint(FormatCheckpoint(c)) == Some(c)
  {
    var t4 := FormatInt(c.writePos);
    var t3 := FieldThen(c.writeFileNum, t4);
    var t2 := FieldThen(c.readPos, t3);
    var t1 := FieldThen(c.readFileNum, t2);
    ScanIntCommaFormat(c.size, t1);
    ScanIntCommaFormat(c.readFileNum, t2);
    ScanIntCommaFormat(c.readPos, t3);
    ScanIntCommaFormat(c.writeFileNum, t4);
    ScanFormatInt(c.writePos, []);
    assert t4 + [] == t4;
    ParseFields(FormatCheckpoint(c), c, t1, t2, t3, t4);
  }

  /** The directory part of `path.Join(dataPath, file)`. */
  function DirPrefix(dataPath: string): string {
    if dataPath == [] then [] else dataPath + "/"
  }

  /** The common part of every file name of queue `name`. */
  function QueuePrefix(dataPath: string, name: string): string {
    DirPrefix(dataPath) + name + ".diskqueue."
  }

  /** `fileName(fileNum)`: the segment file holding records of segment fileNum. */
  function SegmentFileName(dataPath: string, name: string, fileNum: int): string {
    QueuePrefix(dataPath, name) + FormatPadded6(fileNum) + ".dat"
  }

  /** `metaDataFileName()`: the checkpoint file. */
  function MetaDataFileName(dataPath: string, name: string): string {
    QueuePrefix(dataPath, name) + "meta.dat"
  }

  /** Two different segments never share a file. */
  lemma {:induction false} SegmentFileNamesDistinct(dataPath: string, name: string, m: int, n: int)
    requires m != n
    ensures SegmentFileName(dataPath, name, m) != SegmentFileName(dataPath, name, n)
  {
    var p := QueuePrefix(dataPath, name);
    var tm, tn := FormatPadded6(m) + ".dat", FormatPadded6(n) + ".dat";
    assert SegmentFileName(dataPath, name, m) == p + tm;
    assert SegmentFileName(dataPath, name, n) == p + tn;
    if p + tm == p + tn {
      assert tm == (p + tm)[|p|..] == (p + tn)[|p|..] == tn;
      ScanFormatPadded6(m, ".dat");
      ScanFormatPadded6(n, ".dat");
      assert false;
    }
  }

  /** No segment file is the checkpoint file. */
  lemma {:induction false} SegmentFileNameIsNotMetaData(dataPath: string, name: string, n: int)
    ensures SegmentFileName(dataPath, name, n) != MetaDataFileName(dataPath, name)
  {
    var p := QueuePrefix(dataPath, name);
    var t := FormatPadded6(n);
    assert SegmentFileName(dataPath, name, n) == p + (t + ".dat");
    assert MetaDataFileName(dataPath, name) == p + "meta.dat";
    ScanFormatPadded6(n, ".dat");
    assert (p + (t + ".dat"))[|p|] == t[0];
    assert (p + "meta.dat")[|p|] == 'm';
  }
}
