/** Decoding one GRP frame: its table of line offsets, the heuristic that decides whether its rows
    are run-length encoded, and the grid of `height` rows of `width` palette indices. */
module FrameDecoder {
  import opened LittleEndian
  import opened ByteBuffer
  import opened Rle

  /** The table of `height` signed 16-bit line offsets stored at `dataOffset`, read two bytes at a time. */
  function LineOffsetTable(bytes: seq<byte>, dataOffset: nat, height: nat): (r: Result<seq<int16>>)
    ensures r.Ok? <==> height == 0 || dataOffset + 2 * height <= |bytes|
    ensures r.Ok? ==> (|r.value| == height &&
      forall i :: 0 <= i < height ==> r.value[i] == ToShort(bytes[dataOffset + 2 * i], bytes[dataOffset + 2 * i + 1]))
  {
    match ReadRange(bytes, dataOffset, 2 * height)
    case Err(e) => Err(e)
    case Ok(raw) => Ok(seq(height, i requires 0 <= i < height => ToShort(raw[2 * i], raw[2 * i + 1])))
  }

  /** The frame counts as compressed when some row starts fewer than `width` bytes after the row
      before it, which raw rows of `width` bytes each cannot do. */
  predicate Compressed(lineOffsets: seq<int16>, width: int)
  {
    exists i :: 1 <= i < |lineOffsets| && lineOffsets[i] - lineOffsets[i - 1] < width
  }

  /** Reading one more offset can only turn the heuristic on, and does so exactly when the newest
      pair of rows is closer than `width`: once set, the flag is never reset. */
  lemma CompressedExtend(lineOffsets: seq<int16>, i: nat, width: int)
    requires i < |lineOffsets|
    ensures Compressed(lineOffsets[..i + 1], width)
        <==> Compressed(lineOffsets[..i], width) || (i > 0 && lineOffsets[i] - lineOffsets[i - 1] < width)
  {
    var longer, shorter := lineOffsets[..i + 1], lineOffsets[..i];
    assert forall t :: 0 <= t < i ==> longer[t] == shorter[t] == lineOffsets[t];
    if Compressed(longer, width) && !(i > 0 && lineOffsets[i] - lineOffsets[i - 1] < width) {
      var t :| 1 <= t < |longer| && longer[t] - longer[t - 1] < width;
      assert t < i;
    }
  }

  /** The C# loop that reads the line offsets into `lineOffsets` and, until it is set, updates the
      `compressed` flag from each new pair of rows. */
  method ReadLineOffsets(bytes: seq<byte>, dataOffset: nat, width: byte, height: byte)
    returns (r: Result<(seq<int16>, bool)>)
    ensures match LineOffsetTable(bytes, dataOffset, height)
      case Err(e) => r == Err(e)
      case Ok(table) => r == Ok((table, Compressed(table, width)))
  {
    var lineOffsets := new int16[height];
    var compressed := false;
    for i := 0 to height
      invariant dataOffset + 2 * i <= |bytes| || i == 0
      invariant forall t :: 0 <= t < i ==>
        lineOffsets[t] == ToShort(bytes[dataOffset + 2 * t], bytes[dataOffset + 2 * t + 1])
      invariant compressed == Compressed(lineOffsets[..i], width)
    {
      var offset := dataOffset + 2 * i;
      if offset >= |bytes| {
        return Err(OutOfRange(offset));
      }
      if offset + 1 >= |bytes| {
        return Err(OutOfRange(offset + 1));
      }
      lineOffsets[i] := ToShort(bytes[offset], bytes[offset + 1]);
      CompressedExtend(lineOffsets[..], i, width);
      assert lineOffsets[..][..i + 1] == lineOffsets[..i + 1] && lineOffsets[..][..i] == lineOffsets[..i];
      if !compressed && i > 0 {
        compressed := lineOffsets[i] - lineOffsets[i - 1] < width;
      }
    }
    assert lineOffsets[..] == lineOffsets[..height];
    assert LineOffsetTable(bytes, dataOffset, height).Ok?;
    assert lineOffsets[..] == LineOffsetTable(bytes, dataOffset, height).value;
    return Ok((lineOffsets[..], compressed));
  }

  /** The C# copy of an uncompressed row: `width` bytes read one by one from `base` on. */
  method CopyRawLine(bytes: seq<byte>, base: int, width: byte) returns (r: Result<seq<byte>>)
    ensures r == ReadRange(bytes, base, width)
  {
    var lineData := new byte[width];
    var j := 0;
    while j < lineData.Length
      invariant 0 <= j <= lineData.Length
      invariant ReadRange(bytes, base, j).Ok?
      invariant lineData[..j] == ReadRange(bytes, base, j).value
    {
      var index := base + j;
      if !(0 <= index < |bytes|) {
        return Err(OutOfRange(index));
      }
      lineData[j] := bytes[index];
      j := j + 1;
    }
    assert lineData[..] == lineData[..j];
    return Ok(lineData[..]);
  }

  /** One row starting at absolute offset `base`: a byte copy, or the run-length decoder. */
  function DecodeRow(bytes: seq<byte>, base: int, width: byte, compressed: bool): (r: Result<seq<byte>>)
    ensures r.Ok? ==> |r.value| == width
  {
    if compressed then RleLine(bytes, base, width) else ReadRange(bytes, base, width)
  }

  /** The decode of every row, row `i` starting at `dataOffset + lineOffsets[i]`. */
  function RowResults(bytes: seq<byte>, dataOffset: nat, width: byte, lineOffsets: seq<int16>, compressed: bool)
    : (r: seq<Result<seq<byte>>>)
    ensures |r| == |lineOffsets|
  {
    seq(|lineOffsets|, i requires 0 <= i < |lineOffsets| => DecodeRow(bytes, dataOffset + lineOffsets[i], width, compressed))
  }

  /** The frame's grid: the line-offset table, the heuristic on it, then every row. */
  function FrameGrid(bytes: seq<byte>, dataOffset: nat, width: byte, height: byte): (r: Result<seq<seq<byte>>>)
    ensures r.Ok? ==> (|r.value| == height && forall i :: 0 <= i < height ==> |r.value[i]| == width)
  {
    match LineOffsetTable(bytes, dataOffset, height)
    case Err(e) => Err(e)
    case Ok(table) => Collect(RowResults(bytes, dataOffset, width, table, Compressed(table, width)))
  }

  /** Once its line-offset table is read, a frame's grid is the collection of its rows. */
  lemma FrameGridOfTable(bytes: seq<byte>, dataOffset: nat, width: byte, height: byte, lineOffsets: seq<int16>)
    requires LineOffsetTable(bytes, dataOffset, height) == Ok(lineOffsets)
    ensures FrameGrid(bytes, dataOffset, width, height)
         == Collect(RowResults(bytes, dataOffset, width, lineOffsets, Compressed(lineOffsets, width)))
  {
  }

  /** A frame of at most one row is never treated as compressed. */
  lemma ShortFrameIsRaw(lineOffsets: seq<int16>, width: int)
    requires |lineOffsets| <= 1
    ensures !Compressed(lineOffsets, width)
  {
  }

  /** Rows copied raw hold the bytes from their line offset on. */
  lemma RawRowsAreCopies(bytes: seq<byte>, dataOffset: nat, width: byte, lineOffsets: seq<int16>, grid: seq<seq<byte>>)
    requires Collect(RowResults(bytes, dataOffset, width, lineOffsets, false)) == Ok(grid)
    ensures |grid| == |lineOffsets| && forall i :: 0 <= i < |grid| ==> |grid[i]| == width
    ensures forall i, j :: 0 <= i < |grid| && 0 <= j < |grid[i]| ==>
      0 <= dataOffset + lineOffsets[i] + j < |bytes| && grid[i][j] == bytes[dataOffset + lineOffsets[i] + j]
  {
    var rows := RowResults(bytes, dataOffset, width, lineOffsets, false);
    forall i | 0 <= i < |lineOffsets|
      ensures rows[i] == ReadRange(bytes, dataOffset + lineOffsets[i], width) == Ok(grid[i])
    {
    }
  }

  /** An uncompressed frame is a plain byte copy: index `j` of row `i` is the byte at
      `dataOffset + lineOffsets[i] + j`. */
  lemma RawFrameIsByteCopy(bytes: seq<byte>, dataOffset: nat, width: byte, height: byte,
                           lineOffsets: seq<int16>, grid: seq<seq<byte>>)
    requires LineOffsetTable(bytes, dataOffset, height) == Ok(lineOffsets) && !Compressed(lineOffsets, width)
    requires FrameGrid(bytes, dataOffset, width, height) == Ok(grid)
    ensures |grid| == height
    ensures forall i, j :: 0 <= i < |grid| && 0 <= j < |grid[i]| ==>
      0 <= dataOffset + lineOffsets[i] + j < |bytes| && grid[i][j] == bytes[dataOffset + lineOffsets[i] + j]
  {
    FrameGridOfTable(bytes, dataOffset, width, height, lineOffsets);
    RawRowsAreCopies(bytes, dataOffset, width, lineOffsets, grid);
  }

  /** The C# choice between the raw copy and the run-length decoder for one row. */
  method DecodeLine(bytes: seq<byte>, base: int, width: byte, compressed: bool) returns (r: Result<seq<byte>>)
    ensures r == DecodeRow(bytes, base, width, compressed)
  {
    if !compressed {
      r := CopyRawLine(bytes, base, width);
    } else {
      r := DecodeRleLine(bytes, base, width);
    }
  }

  /** The C# loop over the rows of one frame: one `lineData` per row, copied raw or run-length
      decoded, stored into `frameData`. */
  method DecodeFrameRows(bytes: seq<byte>, dataOffset: nat, width: byte, lineOffsets: seq<int16>, compressed: bool)
    returns (r: Result<seq<seq<byte>>>)
    ensures r == Collect(RowResults(bytes, dataOffset, width, lineOffsets, compressed))
  {
    ghost var rows := RowResults(bytes, dataOffset, width, lineOffsets, compressed);
    var frameData := new seq<byte>[|lineOffsets|];
    for i := 0 to |lineOffsets|
      invariant Collect(rows[..i]) == Ok(frameData[..i])
    {
      var lineData := DecodeLine(bytes, dataOffset + lineOffsets[i], width, compressed);
      assert rows[i] == lineData;
      if lineData.Err? {
        CollectStops(rows, i, frameData[..i]);
        return Err(lineData.error);
      }
      CollectNext(rows, i, frameData[..i]);
      frameData[i] := lineData.value;
      assert frameData[..i + 1] == frameData[..i] + [lineData.value];
    }
    assert rows[..|lineOffsets|] == rows && frameData[..|lineOffsets|] == frameData[..];
    return Ok(frameData[..]);
  }

  /** The C# body of `foreach (var frame in frames)`: the line-offset loop, then the row loop. */
  method DecodeFrameData(bytes: seq<byte>, dataOffset: nat, width: byte, height: byte)
    returns (r: Result<seq<seq<byte>>>)
    ensures r == FrameGrid(bytes, dataOffset, width, height)
  {
    var table := ReadLineOffsets(bytes, dataOffset, width, height);
    if table.Err? {
      return Err(table.error);
    }
    r := DecodeFrameRows(bytes, dataOffset, width, table.value.0, table.value.1);
  }
}
