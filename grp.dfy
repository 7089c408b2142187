/** The GRP container: the 6-byte file header, `frameCount` 8-byte frame records, and the decode of
    every frame's grid of palette indices into its `Frame` object. */
module Grp {
  import opened LittleEndian
  import opened ByteBuffer
  import opened FrameDecoder
  import opened Rle

  /** Size of the file header: frame count, group width, group height, two bytes each. */
  const HeaderSize := 6
  /** Size of one frame record. */
  const RecordSize := 8

  /** The fields of one frame record, as the C# object initialiser sets them. */
  datatype FrameHeader = FrameHeader(offsetX: byte, offsetY: byte, frameWidth: byte, frameHeight: byte, dataOffset: nat)

  /** The file header and the frame records that follow it. */
  datatype GrpHeader = GrpHeader(frameCount: int16, groupWidth: int16, groupHeight: int16, frames: seq<FrameHeader>)

  /** Frame record `i`: four single bytes, then the 32-bit data offset, low byte first. */
  function RecordAt(bytes: seq<byte>, i: nat): (h: FrameHeader)
    requires HeaderSize + RecordSize * (i + 1) <= |bytes|
    ensures h.offsetX == bytes[6 + 8 * i] && h.offsetY == bytes[7 + 8 * i]
    ensures h.frameWidth == bytes[8 + 8 * i] && h.frameHeight == bytes[9 + 8 * i]
    ensures h.dataOffset == ToLong(bytes[10 + 8 * i], bytes[11 + 8 * i], bytes[12 + 8 * i], bytes[13 + 8 * i])
    ensures h.dataOffset < 0x1_0000_0000
  {
    var o := HeaderSize + RecordSize * i;
    FrameHeader(bytes[o], bytes[o + 1], bytes[o + 2], bytes[o + 3],
      ToLong(bytes[o + 4], bytes[o + 5], bytes[o + 6], bytes[o + 7]))
  }

  /** The header parse. It faults at the end of the buffer when the buffer is shorter than the file
      header or than the records it announces, and on a negative frame count, which `new Frame[n]`
      refuses before any record is read. */
  function ParseGrpHeader(bytes: seq<byte>): (r: Result<GrpHeader>)
    ensures r.Ok? <==> (HeaderSize <= |bytes| && 0 <= ToShort(bytes[0], bytes[1]) &&
      HeaderSize + RecordSize * ToShort(bytes[0], bytes[1]) <= |bytes|)
    ensures r.Ok? ==> (
      r.value.frameCount == ToShort(bytes[0], bytes[1]) == |r.value.frames| &&
      r.value.groupWidth == ToShort(bytes[2], bytes[3]) &&
      r.value.groupHeight == ToShort(bytes[4], bytes[5]) &&
      forall i :: 0 <= i < |r.value.frames| ==>
        r.value.frames[i].offsetX == bytes[6 + 8 * i] &&
        r.value.frames[i].offsetY == bytes[7 + 8 * i] &&
        r.value.frames[i].frameWidth == bytes[8 + 8 * i] &&
        r.value.frames[i].frameHeight == bytes[9 + 8 * i] &&
        r.value.frames[i].dataOffset == ToLong(bytes[10 + 8 * i], bytes[11 + 8 * i], bytes[12 + 8 * i], bytes[13 + 8 * i]))
    ensures r.Err? && HeaderSize <= |bytes| && ToShort(bytes[0], bytes[1]) < 0 ==>
      r.error == NegativeFrameCount(ToShort(bytes[0], bytes[1]))
    ensures r.Err? && (|bytes| < HeaderSize || 0 <= ToShort(bytes[0], bytes[1])) ==>
      r.error == OutOfRange(|bytes|)
  {
    if |bytes| < HeaderSize then Err(OutOfRange(|bytes|))
    else
      var frameCount := ToShort(bytes[0], bytes[1]);
      if frameCount < 0 then Err(NegativeFrameCount(frameCount))
      else if |bytes| < HeaderSize + RecordSize * frameCount then Err(OutOfRange(|bytes|))
      else
        var frames := seq(frameCount, i requires 0 <= i < frameCount => RecordAt(bytes, i));
        assert forall i :: 0 <= i < frameCount ==> frames[i] == RecordAt(bytes, i);
        Ok(GrpHeader(frameCount, ToShort(bytes[2], bytes[3]), ToShort(bytes[4], bytes[5]), frames))
  }

  /** The eight bytes of a frame record. */
  function EncodeRecord(h: FrameHeader): (bytes: seq<byte>)
    requires h.dataOffset < 0x1_0000_0000
    ensures |bytes| == RecordSize
  {
    var (a, b, c, d) := LongBytes(h.dataOffset);
    [h.offsetX, h.offsetY, h.frameWidth, h.frameHeight, a, b, c, d]
  }

  predicate Storable(hs: seq<FrameHeader>)
  {
    forall i :: 0 <= i < |hs| ==> hs[i].dataOffset < 0x1_0000_0000
  }

  /** The frame records one after the other. */
  function EncodeRecords(hs: seq<FrameHeader>): (bytes: seq<byte>)
    requires Storable(hs)
    ensures |bytes| == RecordSize * |hs|
  {
    if hs == [] then [] else EncodeRecords(hs[..|hs| - 1]) + EncodeRecord(hs[|hs| - 1])
  }

  /** Record `i` of the encoding sits at bytes `8i .. 8i + 7`. */
  lemma {:induction false} RecordsAt(hs: seq<FrameHeader>, i: nat, k: nat)
    requires Storable(hs) && i < |hs| && k < RecordSize
    ensures EncodeRecords(hs)[RecordSize * i + k] == EncodeRecord(hs[i])[k]
    decreases |hs|
  {
    var last := |hs| - 1;
    if i < last {
      RecordsAt(hs[..last], i, k);
    }
  }

  /** A GRP file header with the given group size and frame records, the frame count first. */
  function EncodeGrpHeader(groupWidth: int16, groupHeight: int16, hs: seq<FrameHeader>): (bytes: seq<byte>)
    requires |hs| < 0x8000 && Storable(hs)
    ensures |bytes| == HeaderSize + RecordSize * |hs|
  {
    var (c0, c1) := ShortBytes(|hs|);
    var (w0, w1) := ShortBytes(groupWidth);
    var (h0, h1) := ShortBytes(groupHeight);
    [c0, c1, w0, w1, h0, h1] + EncodeRecords(hs)
  }

  /** The header parse reads back every header it can store, whatever follows it in the file. */
  lemma ParseEncodedGrpHeader(groupWidth: int16, groupHeight: int16, hs: seq<FrameHeader>, rest: seq<byte>)
    requires |hs| < 0x8000 && Storable(hs)
    ensures ParseGrpHeader(EncodeGrpHeader(groupWidth, groupHeight, hs) + rest) ==
      Ok(GrpHeader(|hs|, groupWidth, groupHeight, hs))
  {
    var bytes := EncodeGrpHeader(groupWidth, groupHeight, hs) + rest;
    ShortRoundTrip(|hs|);
    ShortRoundTrip(groupWidth);
    ShortRoundTrip(groupHeight);
    assert bytes[..HeaderSize] == [ShortBytes(|hs|).0, ShortBytes(|hs|).1, ShortBytes(groupWidth).0,
      ShortBytes(groupWidth).1, ShortBytes(groupHeight).0, ShortBytes(groupHeight).1];
    var parsed := ParseGrpHeader(bytes);
    assert parsed.Ok?;
    forall i | 0 <= i < |hs|
      ensures parsed.value.frames[i] == hs[i]
    {
      var o := HeaderSize + RecordSize * i;
      forall k | 0 <= k < RecordSize
        ensures bytes[o + k] == EncodeRecord(hs[i])[k]
      {
        RecordsAt(hs, i, k);
      }
      var e := EncodeRecord(hs[i]);
      LongRoundTrip(hs[i].dataOffset);
      assert ToLong(e[4], e[5], e[6], e[7]) == hs[i].dataOffset;
      assert RecordAt(bytes, i) == FrameHeader(e[0], e[1], e[2], e[3], ToLong(e[4], e[5], e[6], e[7]));
    }
    assert parsed.value.frames == hs;
  }

  /** The decode of every frame's grid, in the order of the records. */
  function FrameResults(bytes: seq<byte>, hs: seq<FrameHeader>): (r: seq<Result<seq<seq<byte>>>>)
    ensures |r| == |hs|
  {
    seq(|hs|, i requires 0 <= i < |hs| => FrameGrid(bytes, hs[i].dataOffset, hs[i].frameWidth, hs[i].frameHeight))
  }

  /** A decoded file: its header and one grid per frame. */
  datatype GrpImage = GrpImage(header: GrpHeader, grids: seq<seq<seq<byte>>>)

  /** The whole decode: every record is read before any frame is decoded, and frames are decoded in
      order, so the first fault is in the header, or else in the first frame that faults. Each
      frame comes out as `frameHeight` rows of `frameWidth` palette indices. */
  function DecodeGrp(bytes: seq<byte>): (r: Result<GrpImage>)
    ensures ParseGrpHeader(bytes).Err? ==> r == Err(ParseGrpHeader(bytes).error)
    ensures r.Ok? ==> (
      ParseGrpHeader(bytes) == Ok(r.value.header) &&
      |r.value.grids| == |r.value.header.frames| &&
      forall i :: 0 <= i < |r.value.grids| ==>
        |r.value.grids[i]| == r.value.header.frames[i].frameHeight &&
        forall row :: 0 <= row < |r.value.grids[i]| ==> |r.value.grids[i][row]| == r.value.header.frames[i].frameWidth)
  {
    match ParseGrpHeader(bytes)
    case Err(e) => Err(e)
    case Ok(header) =>
      match Collect(FrameResults(bytes, header.frames))
      case Err(e) => Err(e)
      case Ok(grids) =>
        assert forall i :: 0 <= i < |grids| ==> FrameResults(bytes, header.frames)[i] == Ok(grids[i]);
        Ok(GrpImage(header, grids))
  }

  /** A frame of the file, C#'s `Frame`: the record's fields, set when the record is read, and the
      grid of palette indices, absent (C#'s `null`) until the frame is decoded. */
  class Frame {
    const offsetX: byte
    const offsetY: byte
    const frameWidth: byte
    const frameHeight: byte
    const dataOffset: nat
    var frameData: Option<seq<seq<byte>>>

    function Header(): FrameHeader
    {
      FrameHeader(offsetX, offsetY, frameWidth, frameHeight, dataOffset)
    }

    constructor (h: FrameHeader)
      ensures Header() == h && frameData == None
    {
      offsetX, offsetY, frameWidth, frameHeight := h.offsetX, h.offsetY, h.frameWidth, h.frameHeight;
      dataOffset := h.dataOffset;
      frameData := None;
    }
  }

  /** The record fields of each frame. */
  function Headers(frames: seq<Frame>): (hs: seq<FrameHeader>)
    ensures |hs| == |frames| && forall i :: 0 <= i < |frames| ==> hs[i] == frames[i].Header()
  {
    seq(|frames|, i requires 0 <= i < |frames| => frames[i].Header())
  }

  /** The parsed file: header fields and the frames, each with its grid filled in. */
  datatype GrpFile = GrpFile(frameCount: int16, groupWidth: int16, groupHeight: int16, frames: seq<Frame>)

  /** The C# header loop: one fresh `Frame` per record, stored into `frames[i]`. */
  method ReadFrameHeaders(bytes: seq<byte>, frameCount: nat) returns (r: Result<seq<Frame>>)
    requires HeaderSize <= |bytes|
    ensures HeaderSize + RecordSize * frameCount <= |bytes| ==> r.Ok?
    ensures r.Err? ==> HeaderSize + RecordSize * frameCount > |bytes| && r.error == OutOfRange(|bytes|)
    ensures r.Ok? ==> (
      |r.value| == frameCount && HeaderSize + RecordSize * frameCount <= |bytes| &&
      forall i :: 0 <= i < frameCount ==>
        fresh(r.value[i]) && r.value[i].Header() == RecordAt(bytes, i) && r.value[i].frameData == None)
    ensures r.Ok? ==> forall i, j :: 0 <= i < j < frameCount ==> r.value[i] != r.value[j]
  {
    var frames := new Frame?[frameCount];
    for i := 0 to frameCount
      invariant HeaderSize + RecordSize * i <= |bytes|
      invariant forall t :: 0 <= t < i ==>
        frames[t] != null && fresh(frames[t]) && frames[t].Header() == RecordAt(bytes, t) && frames[t].frameData == None
      invariant forall t, u :: 0 <= t < u < i ==> frames[t] != frames[u]
    {
      var offset := RecordSize * i;
      if HeaderSize + offset + RecordSize > |bytes| {
        return Err(OutOfRange(|bytes|));
      }
      var header := new Frame(FrameHeader(bytes[6 + offset], bytes[7 + offset], bytes[8 + offset], bytes[9 + offset],
        ToLong(bytes[10 + offset], bytes[11 + offset], bytes[12 + offset], bytes[13 + offset])));
      frames[i] := header;
    }
    var result: seq<Frame> := [];
    for i := 0 to frameCount
      invariant |result| == i
      invariant forall t :: 0 <= t < i ==> frames[t] != null && result[t] == frames[t]
    {
      result := result + [frames[i]];
    }
    return Ok(result);
  }

  /** One step of the C# `foreach (var frame in frames)`: decode the frame's grid from its own
      record fields and assign it to `FrameData`. */
  method DecodeFrame(bytes: seq<byte>, frame: Frame) returns (r: Result<seq<seq<byte>>>)
    modifies frame
    ensures r == FrameGrid(bytes, frame.dataOffset, frame.frameWidth, frame.frameHeight)
    ensures frame.frameData == if r.Ok? then Some(r.value) else old(frame.frameData)
  {
    r := DecodeFrameData(bytes, frame.dataOffset, frame.frameWidth, frame.frameHeight);
    if r.Ok? {
      frame.frameData := Some(r.value);
    }
  }

  /** The C# `foreach (var frame in frames)`: every frame's grid, in order, until one faults. */
  method DecodeAllFrames(bytes: seq<byte>, frames: seq<Frame>) returns (r: Result<()>)
    requires forall i, j :: 0 <= i < j < |frames| ==> frames[i] != frames[j]
    modifies frames
    ensures match Collect(FrameResults(bytes, Headers(frames)))
      case Err(e) => r == Err(e)
      case Ok(grids) => r.Ok? && forall i :: 0 <= i < |frames| ==> frames[i].frameData == Some(grids[i])
  {
    ghost var headers := Headers(frames);
    ghost var results := FrameResults(bytes, headers);
    ghost var grids: seq<seq<seq<byte>>> := [];
    for n := 0 to |frames|
      invariant Collect(results[..n]) == Ok(grids)
      invariant forall i :: 0 <= i < n ==> frames[i].frameData == Some(grids[i])
    {
      var frameData := DecodeFrame(bytes, frames[n]);
      assert results[n] == frameData;
      if frameData.Err? {
        CollectStops(results, n, grids);
        return Err(frameData.error);
      }
      CollectNext(results, n, grids);
      grids := grids + [frameData.value];
    }
    assert results[..|frames|] == results;
    return Ok(());
  }


  /** The GRP body of the C# converter: the file header, the frame records, then every frame's
      grid, with the same first fault as `DecodeGrp`. */
  method ParseGrp(bytes: seq<byte>) returns (r: Result<GrpFile>)
    ensures match DecodeGrp(bytes)
      case Err(e) => r == Err(e)
      case Ok(image) =>
        r.Ok? &&
        r.value.frameCount == image.header.frameCount &&
        r.value.groupWidth == image.header.groupWidth &&
        r.value.groupHeight == image.header.groupHeight &&
        |r.value.frames| == |image.grids| &&
        forall i :: 0 <= i < |image.grids| ==>
          fresh(r.value.frames[i]) &&
          r.value.frames[i].Header() == image.header.frames[i] &&
          r.value.frames[i].frameData == Some(image.grids[i])
  {
    if |bytes| < HeaderSize {
      return Err(OutOfRange(|bytes|));
    }
    var frameCount := ToShort(bytes[0], bytes[1]);
    var groupWidth := ToShort(bytes[2], bytes[3]);
    var groupHeight := ToShort(bytes[4], bytes[5]);
    if frameCount < 0 {
      return Err(NegativeFrameCount(frameCount));
    }
    var frames := ReadFrameHeaders(bytes, frameCount);
    if frames.Err? {
      return Err(frames.error);
    }
    ghost var header := ParseGrpHeader(bytes).value;
    assert forall i :: 0 <= i < frameCount ==> frames.value[i].Header() == header.frames[i];
    assert Headers(frames.value) == header.frames;
    var decoded := DecodeAllFrames(bytes, frames.value);
    if decoded.Err? {
      return Err(decoded.error);
    }
    return Ok(GrpFile(frameCount, groupWidth, groupHeight, frames.value));
  }

  /** The file of the transparent-frame example: one record for a 4 x 2 frame at offset 14, the
      line offsets 4 and 4, and at offset 18 the single control byte 0x84. */
  const TransparentFile: seq<byte> := [1, 0, 4, 0, 4, 0, 0, 0, 4, 2, 14, 0, 0, 0, 4, 0, 4, 0, 0x84]

  /** The file of the raw-frame example: one record for a 2 x 1 frame at offset 14, the line offset
      2, and at offset 16 the palette indices 5 and 9. */
  const RawFile: seq<byte> := [1, 0, 2, 0, 1, 0, 0, 0, 2, 1, 14, 0, 0, 0, 2, 0, 5, 9]

  /** The header of a file announcing one frame record. */
  lemma OneRecordHeader(bytes: seq<byte>)
    requires |bytes| >= HeaderSize + RecordSize && bytes[0] == 1 && bytes[1] == 0
    ensures ParseGrpHeader(bytes) ==
      Ok(GrpHeader(1, ToShort(bytes[2], bytes[3]), ToShort(bytes[4], bytes[5]), [RecordAt(bytes, 0)]))
  {
    var header := ParseGrpHeader(bytes);
    assert ToShort(1, 0) == 1 && header.Ok?;
    assert header.value.frames == [RecordAt(bytes, 0)];
  }

  lemma TransparentHeader()
    ensures ParseGrpHeader(TransparentFile) == Ok(GrpHeader(1, 4, 4, [FrameHeader(0, 0, 4, 2, 14)]))
  {
    OneRecordHeader(TransparentFile);
    assert RecordAt(TransparentFile, 0) == FrameHeader(0, 0, 4, 2, 14);
    assert ToShort(4, 0) == 4;
  }

  lemma RawHeader()
    ensures ParseGrpHeader(RawFile) == Ok(GrpHeader(1, 2, 1, [FrameHeader(0, 0, 2, 1, 14)]))
  {
    OneRecordHeader(RawFile);
    assert RecordAt(RawFile, 0) == FrameHeader(0, 0, 2, 1, 14);
    assert ToShort(2, 0) == 2 && ToShort(1, 0) == 1;
  }

  /** Both rows of the transparent example point at the run 0x84, which fills the row with index 0. */
  lemma TransparentGrid()
    ensures FrameGrid(TransparentFile, 14, 4, 2) == Ok([[0, 0, 0, 0], [0, 0, 0, 0]])
  {
    var bytes, row: seq<byte> := TransparentFile, [0, 0, 0, 0];
    var table := LineOffsetTable(bytes, 14, 2).value;
    assert table[0] == ToShort(4, 0) == 4 && table[1] == 4;
    assert Compressed(table, 4) by {
      assert table[1] - table[0] < 4;
    }
    assert RleLine(bytes, 18, 4) == Ok(row) by {
      assert ReadByte(bytes, 18) == Ok(0x84);
      assert Fill(0, Min(0x84 - TransparentOp, 4 - 0)) == row;
      assert [] + row == row;
      assert RleStep(bytes, 18, Cursor(0, []), 4) == Ok(Cursor(1, row));
    }
    CollectAllOk(RowResults(bytes, 14, 4, table, true), [row, row]);
  }

  /** A one-frame file whose two rows share one run-length row: a transparent run of four. */
  lemma TransparentFrameExample()
    ensures DecodeGrp(TransparentFile) ==
      Ok(GrpImage(GrpHeader(1, 4, 4, [FrameHeader(0, 0, 4, 2, 14)]), [[[0, 0, 0, 0], [0, 0, 0, 0]]]))
  {
    var frame := FrameHeader(0, 0, 4, 2, 14);
    TransparentHeader();
    TransparentGrid();
    CollectAllOk(FrameResults(TransparentFile, [frame]), [[[0, 0, 0, 0], [0, 0, 0, 0]]]);
  }

  /** The single row of the raw example is the two bytes at offset 16, copied. */
  lemma RawGrid()
    ensures FrameGrid(RawFile, 14, 2, 1) == Ok([[5, 9]])
  {
    var bytes, row: seq<byte> := RawFile, [5, 9];
    var table := LineOffsetTable(bytes, 14, 1).value;
    assert table[0] == ToShort(2, 0) == 2;
    assert !Compressed(table, 2);
    assert bytes[16..18] == row;
    CollectAllOk(RowResults(bytes, 14, 2, table, false), [row]);
  }

  /** A one-frame file with a single raw row of two palette indices. */
  lemma RawFrameExample()
    ensures DecodeGrp(RawFile) == Ok(GrpImage(GrpHeader(1, 2, 1, [FrameHeader(0, 0, 2, 1, 14)]), [[[5, 9]]]))
  {
    var frame := FrameHeader(0, 0, 2, 1, 14);
    RawHeader();
    RawGrid();
    CollectAllOk(FrameResults(RawFile, [frame]), [[[5, 9]]]);
  }
}
