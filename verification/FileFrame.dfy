/** Binary file frames on the terminal socket (`terminal/file_frame.go`); ids are byte strings. */
module FileFrame {
  import opened Common

  const MAGIC: seq<Byte> := [76, 84, 70, 49]
  const UPLOAD: Byte := 1
  const DOWNLOAD: Byte := 2
  const MAX_ID: nat := 64

  // ---------------------------------------------------------------- big-endian numbers

  function Power256(k: nat): nat {
    if k == 0 then 1 else 256 * Power256(k - 1)
  }

  function BigEndian(n: nat, width: nat): (bytes: seq<Byte>)
    ensures |bytes| == width
  {
    if width == 0 then [] else BigEndian(n / 256, width - 1) + [n % 256]
  }

  function Value(bytes: seq<Byte>): (n: nat)
    ensures n < Power256(|bytes|)
  {
    if bytes == [] then 0 else 256 * Value(bytes[..|bytes| - 1]) + bytes[|bytes| - 1]
  }

  /** The only facts about division that the digits need. */
  lemma LastDigit(v: nat, b: Byte)
    ensures (256 * v + b) / 256 == v && (256 * v + b) % 256 == b
  {
  }

  lemma FewerDigits(n: nat, p: nat)
    requires n < 256 * p
    ensures n / 256 < p && n == 256 * (n / 256) + n % 256
  {
  }

  lemma ValueStep(front: seq<Byte>, last: Byte)
    ensures Value(front + [last]) == 256 * Value(front) + last
  {
    hide Power256;
    assert (front + [last])[..|front|] == front;
  }

  lemma {:induction false} ValueOfBigEndian(n: nat, width: nat)
    requires n < Power256(width)
    ensures Value(BigEndian(n, width)) == n
  {
    hide Value;
    if width == 0 {
      assert Value([]) == 0 by { ValueOfNothing(); }
    } else {
      FewerDigits(n, Power256(width - 1));
      ValueOfBigEndian(n / 256, width - 1);
      ValueStep(BigEndian(n / 256, width - 1), n % 256);
    }
  }

  lemma ValueOfNothing()
    ensures Value([]) == 0
  {
  }

  lemma {:induction false} BigEndianOfValue(bytes: seq<Byte>)
    ensures BigEndian(Value(bytes), |bytes|) == bytes
  {
    if bytes != [] {
      hide Value, Power256;
      var front, last := bytes[..|bytes| - 1], bytes[|bytes| - 1];
      assert bytes == front + [last];
      BigEndianOfValue(front);
      ValueStep(front, last);
      LastDigit(Value(front), last);
    }
  }

  lemma Widths()
    ensures Power256(2) == 65536 && Power256(8) == TWO64
  {
    assert Power256(4) == 256 * (256 * Power256(2));
    assert Power256(6) == 256 * (256 * Power256(4));
    assert Power256(8) == 256 * (256 * Power256(6));
  }

  // ---------------------------------------------------------------- frames

  datatype Upload = Upload(requestID: seq<Byte>, uploadID: seq<Byte>, offset: Uint64, payload: seq<Byte>)

  datatype Download = Download(requestID: seq<Byte>, sequence: Uint64, payload: seq<Byte>)

  predicate ValidId(id: seq<Byte>) {
    0 < |id| <= MAX_ID
  }

  /** The layout of an id and of the two kinds of frames. */
  function IdBytes(id: seq<Byte>): seq<Byte> {
    BigEndian(|id|, 2) + id
  }

  function UploadBytes(f: Upload): seq<Byte> {
    MAGIC + [UPLOAD] + (IdBytes(f.requestID) + (IdBytes(f.uploadID) + (BigEndian(f.offset, 8) + f.payload)))
  }

  function DownloadBytes(f: Download): seq<Byte> {
    MAGIC + [DOWNLOAD] + (IdBytes(f.requestID) + (BigEndian(f.sequence, 8) + f.payload))
  }

  // ---------------------------------------------------------------- parsing

  predicate IsFileFrame(bytes: seq<Byte>) {
    |bytes| >= 4 && bytes[..4] == MAGIC
  }

  function FrameHeader(bytes: seq<Byte>, kind: Byte): Option<seq<Byte>> {
    if |bytes| < 5 || bytes[..4] != MAGIC then None
    else if bytes[4] != kind then None
    else Some(bytes[5..])
  }

  function TakeId(bytes: seq<Byte>): Option<(seq<Byte>, seq<Byte>)> {
    if |bytes| < 2 then None
    else
      var size := Value(bytes[..2]);
      if size == 0 || size > MAX_ID || |bytes| < 2 + size then None
      else Some((bytes[2..2 + size], bytes[2 + size..]))
  }

  function TakeNumber(bytes: seq<Byte>): Option<(Uint64, seq<Byte>)> {
    if |bytes| < 8 then None
    else Widths(); Some((Value(bytes[..8]), bytes[8..]))
  }

  function ParseUpload(bytes: seq<Byte>): Option<Upload> {
    var header := FrameHeader(bytes, UPLOAD);
    if header.None? then None
    else
      var request := TakeId(header.value);
      if request.None? then None
      else
        var upload := TakeId(request.value.1);
        if upload.None? then None
        else
          var offset := TakeNumber(upload.value.1);
          if offset.None? then None
          else Some(Upload(request.value.0, upload.value.0, offset.value.0, offset.value.1))
  }

  function ParseDownload(bytes: seq<Byte>): Option<Download> {
    var header := FrameHeader(bytes, DOWNLOAD);
    if header.None? then None
    else
      var request := TakeId(header.value);
      if request.None? then None
      else
        var sequence := TakeNumber(request.value.1);
        if sequence.None? then None
        else Some(Download(request.value.0, sequence.value.0, sequence.value.1))
  }

  // ---------------------------------------------------------------- both ways

  lemma HeaderRoundTrip(kind: Byte, rest: seq<Byte>)
    ensures FrameHeader(MAGIC + [kind] + rest, kind) == Some(rest)
    ensures forall other: Byte :: other != kind ==> FrameHeader(MAGIC + [kind] + rest, other) == None
  {
    var bytes := MAGIC + [kind] + rest;
    assert bytes[..4] == MAGIC && bytes[4] == kind && bytes[5..] == rest;
  }

  lemma IdRoundTrip(id: seq<Byte>, rest: seq<Byte>)
    requires ValidId(id)
    ensures TakeId(IdBytes(id) + rest) == Some((id, rest))
  {
    Widths();
    ValueOfBigEndian(|id|, 2);
    var bytes := IdBytes(id) + rest;
    assert bytes[..2] == BigEndian(|id|, 2);
    assert bytes[2..2 + |id|] == id && bytes[2 + |id|..] == rest;
  }

  lemma NumberRoundTrip(n: Uint64, rest: seq<Byte>)
    ensures TakeNumber(BigEndian(n, 8) + rest) == Some((n, rest))
  {
    Widths();
    ValueOfBigEndian(n, 8);
    var bytes := BigEndian(n, 8) + rest;
    assert bytes[..8] == BigEndian(n, 8) && bytes[8..] == rest;
  }

  lemma TakeIdInverse(bytes: seq<Byte>)
    requires TakeId(bytes).Some?
    ensures ValidId(TakeId(bytes).value.0)
    ensures bytes == IdBytes(TakeId(bytes).value.0) + TakeId(bytes).value.1
  {
    BigEndianOfValue(bytes[..2]);
  }

  lemma TakeNumberInverse(bytes: seq<Byte>)
    requires TakeNumber(bytes).Some?
    ensures bytes == BigEndian(TakeNumber(bytes).value.0, 8) + TakeNumber(bytes).value.1
  {
    BigEndianOfValue(bytes[..8]);
  }

  lemma HeaderInverse(bytes: seq<Byte>, kind: Byte)
    requires FrameHeader(bytes, kind).Some?
    ensures bytes == MAGIC + [kind] + FrameHeader(bytes, kind).value
  {
    assert bytes == bytes[..4] + [bytes[4]] + bytes[5..];
  }

  /** Every valid upload frame is recovered from its bytes. */
  lemma UploadRoundTrip(f: Upload)
    requires ValidId(f.requestID) && ValidId(f.uploadID)
    ensures ParseUpload(UploadBytes(f)) == Some(f)
  {
    hide FrameHeader, TakeId, TakeNumber, BigEndian, IdBytes;
    var number := BigEndian(f.offset, 8) + f.payload;
    NumberRoundTrip(f.offset, f.payload);
    IdRoundTrip(f.uploadID, number);
    IdRoundTrip(f.requestID, IdBytes(f.uploadID) + number);
    HeaderRoundTrip(UPLOAD, IdBytes(f.requestID) + (IdBytes(f.uploadID) + number));
  }

  lemma DownloadRoundTrip(f: Download)
    requires ValidId(f.requestID)
    ensures ParseDownload(DownloadBytes(f)) == Some(f)
  {
    hide FrameHeader, TakeId, TakeNumber, BigEndian, IdBytes;
    var number := BigEndian(f.sequence, 8) + f.payload;
    NumberRoundTrip(f.sequence, f.payload);
    IdRoundTrip(f.requestID, number);
    HeaderRoundTrip(DOWNLOAD, IdBytes(f.requestID) + number);
  }

  /** Bytes that parse are the bytes of a valid frame and no other bytes parse to it. */
  lemma UploadReencodes(bytes: seq<Byte>)
    requires ParseUpload(bytes).Some?
    ensures var f := ParseUpload(bytes).value; ValidId(f.requestID) && ValidId(f.uploadID) && UploadBytes(f) == bytes
  {
    hide FrameHeader, TakeId, TakeNumber, BigEndian, IdBytes;
    HeaderInverse(bytes, UPLOAD);
    var rest := FrameHeader(bytes, UPLOAD).value;
    TakeIdInverse(rest);
    TakeIdInverse(TakeId(rest).value.1);
    TakeNumberInverse(TakeId(TakeId(rest).value.1).value.1);
  }

  lemma DownloadReencodes(bytes: seq<Byte>)
    requires ParseDownload(bytes).Some?
    ensures var f := ParseDownload(bytes).value; ValidId(f.requestID) && DownloadBytes(f) == bytes
  {
    hide FrameHeader, TakeId, TakeNumber, BigEndian, IdBytes;
    HeaderInverse(bytes, DOWNLOAD);
    var rest := FrameHeader(bytes, DOWNLOAD).value;
    TakeIdInverse(rest);
    TakeNumberInverse(TakeId(rest).value.1);
  }

  /** The two kinds never overlap, and what parses is never taken for terminal bytes. */
  lemma KindsAreDisjoint(bytes: seq<Byte>)
    ensures !(ParseUpload(bytes).Some? && ParseDownload(bytes).Some?)
    ensures ParseUpload(bytes).Some? || ParseDownload(bytes).Some? ==> IsFileFrame(bytes)
    ensures IsFileFrame(bytes) <==>
      |bytes| >= 4 && bytes[0] == 76 && bytes[1] == 84 && bytes[2] == 70 && bytes[3] == 49
  {
    hide TakeId, TakeNumber;
  }

  // ---------------------------------------------------------------- the layout, byte by byte

  lemma ValueOfTwo(b: seq<Byte>)
    requires |b| == 2
    ensures Value(b) == 256 * (b[0] as int) + b[1] as int
  {
    ValueOfNothing();
    hide Value;
    ValueStep([], b[0]);
    ValueStep([b[0]], b[1]);
    assert [] + [b[0]] == [b[0]] && [b[0]] + [b[1]] == b;
  }

  /** What eight bytes say, the most significant first. */
  ghost function MostSignificantFirst(b: seq<Byte>): int
    requires |b| == 8
  {
    0x100_0000_0000_0000 * (b[0] as int) + 0x1_0000_0000_0000 * (b[1] as int) + 0x100_0000_0000 * (b[2] as int)
    + 0x1_0000_0000 * (b[3] as int) + 0x100_0000 * (b[4] as int) + 0x1_0000 * (b[5] as int)
    + 0x100 * (b[6] as int) + b[7] as int
  }

  lemma ValueOfEight(b: seq<Byte>)
    requires |b| == 8
    ensures Value(b) == MostSignificantFirst(b)
  {
    hide Value;
    ValueOfTwo(b[..2]);
    assert forall k | 2 < k <= 8 :: b[..k] == b[..k - 1] + [b[k - 1]];
    ValueStep(b[..2], b[2]);
    ValueStep(b[..3], b[3]);
    ValueStep(b[..4], b[4]);
    ValueStep(b[..5], b[5]);
    ValueStep(b[..6], b[6]);
    ValueStep(b[..7], b[7]);
    assert b[..8] == b;
  }

  /** An id of `m` bytes is announced by its length, the high byte of which is zero. */
  lemma IdLayout(id: seq<Byte>)
    requires ValidId(id)
    ensures IdBytes(id) == [0, |id|] + id
  {
    Widths();
    ValueOfBigEndian(|id|, 2);
    ValueOfTwo(BigEndian(|id|, 2));
  }

  lemma NumberLayout(n: Uint64, b: seq<Byte>)
    requires b == BigEndian(n, 8)
    ensures n == MostSignificantFirst(b)
  {
    hide BigEndian;
    Widths();
    ValueOfBigEndian(n, 8);
    ValueOfEight(b);
  }

  /**
   * Where everything stands in an upload frame: "LTF1" and 1, the request and the upload id after their lengths in two
   * bytes, the offset in eight bytes with the most significant first, and the payload.
   */
  lemma UploadLayout(f: Upload)
    requires 0 < |f.requestID| <= 64 && 0 < |f.uploadID| <= 64
    ensures var (bytes, m, k) := (UploadBytes(f), |f.requestID|, |f.uploadID|);
      && |bytes| == 17 + m + k + |f.payload|
      && bytes[..7] == [76, 84, 70, 49, 1, 0, m] && bytes[7..7 + m] == f.requestID
      && bytes[7 + m..9 + m] == [0, k] && bytes[9 + m..9 + m + k] == f.uploadID
      && bytes[17 + m + k..] == f.payload
      && f.offset == MostSignificantFirst(bytes[9 + m + k..17 + m + k])
  {
    hide BigEndian, IdBytes;
    var bytes, m, k := UploadBytes(f), |f.requestID|, |f.uploadID|;
    IdLayout(f.requestID);
    IdLayout(f.uploadID);
    assert bytes == [76, 84, 70, 49, 1, 0, m] + f.requestID + [0, k] + f.uploadID + BigEndian(f.offset, 8) + f.payload;
    assert bytes[9 + m + k..17 + m + k] == BigEndian(f.offset, 8);
    NumberLayout(f.offset, bytes[9 + m + k..17 + m + k]);
  }

  /** The same for a download frame: kind 2, one id, and the sequence number. */
  lemma DownloadLayout(f: Download)
    requires 0 < |f.requestID| <= 64
    ensures var (bytes, m) := (DownloadBytes(f), |f.requestID|);
      && |bytes| == 15 + m + |f.payload|
      && bytes[..7] == [76, 84, 70, 49, 2, 0, m] && bytes[7..7 + m] == f.requestID
      && bytes[15 + m..] == f.payload
      && f.sequence == MostSignificantFirst(bytes[7 + m..15 + m])
  {
    hide BigEndian, IdBytes;
    var bytes, m := DownloadBytes(f), |f.requestID|;
    IdLayout(f.requestID);
    assert bytes == [76, 84, 70, 49, 2, 0, m] + f.requestID + BigEndian(f.sequence, 8) + f.payload;
    assert bytes[7 + m..15 + m] == BigEndian(f.sequence, 8);
    NumberLayout(f.sequence, bytes[7 + m..15 + m]);
  }

  // ---------------------------------------------------------------- the encoders

  datatype FrameError = InvalidFileFrame

  method AppendId(frame: seq<Byte>, id: seq<Byte>) returns (r: seq<Byte>)
    requires |id| < 65536
    ensures r == frame + IdBytes(id)
  {
    r := frame + BigEndian(|id|, 2);
    r := r + id;
  }

  /** Fails exactly on an invalid id; otherwise the result parses back to what was given. */
  method EncodeUpload(requestID: seq<Byte>, uploadID: seq<Byte>, offset: Uint64, payload: seq<Byte>)
    returns (r: Result<seq<Byte>, FrameError>)
    ensures r.Ok? <==> 0 < |requestID| <= 64 && 0 < |uploadID| <= 64
    ensures r.Ok? ==> ParseUpload(r.value) == Some(Upload(requestID, uploadID, offset, payload))
    ensures r.Ok? ==> r.value == UploadBytes(Upload(requestID, uploadID, offset, payload))
  {
    hide ParseUpload, BigEndian, IdBytes;
    if requestID == [] || |requestID| > MAX_ID {
      return Err(InvalidFileFrame);
    }
    if uploadID == [] || |uploadID| > MAX_ID {
      return Err(InvalidFileFrame);
    }
    var frame: seq<Byte> := MAGIC;
    frame := frame + [UPLOAD];
    frame := AppendId(frame, requestID);
    frame := AppendId(frame, uploadID);
    frame := frame + BigEndian(offset, 8);
    frame := frame + payload;
    var f := Upload(requestID, uploadID, offset, payload);
    assert frame == UploadBytes(f);
    UploadRoundTrip(f);
    return Ok(frame);
  }

  method EncodeDownload(requestID: seq<Byte>, sequence: Uint64, payload: seq<Byte>)
    returns (r: Result<seq<Byte>, FrameError>)
    ensures r.Ok? <==> 0 < |requestID| <= 64
    ensures r.Ok? ==> ParseDownload(r.value) == Some(Download(requestID, sequence, payload))
    ensures r.Ok? ==> r.value == DownloadBytes(Download(requestID, sequence, payload))
  {
    hide ParseDownload, BigEndian, IdBytes;
    if requestID == [] || |requestID| > MAX_ID {
      return Err(InvalidFileFrame);
    }
    var frame: seq<Byte> := MAGIC;
    frame := frame + [DOWNLOAD];
    frame := AppendId(frame, requestID);
    frame := frame + BigEndian(sequence, 8);
    frame := frame + payload;
    var f := Download(requestID, sequence, payload);
    assert frame == DownloadBytes(f);
    DownloadRoundTrip(f);
    return Ok(frame);
  }
}
