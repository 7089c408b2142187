/** The run-length decoder for one row of a compressed GRP frame: a control byte per run, and
    three kinds of run (transparent, repeat, literal), every run cut short at the row's end. */
module Rle {
  import opened LittleEndian
  import opened ByteBuffer

  /** Control bytes from here up start a transparent run of `op - TransparentOp` zeros. */
  const TransparentOp := 0x80
  /** Control bytes from here below `TransparentOp` start a repeat run of `op - RepeatOp` copies of the next byte;
      control bytes below it start a literal run of `op` bytes. */
  const RepeatOp := 0x40

  /** The decoder's progress through one row: `consumed` is the C# `currentIndex` (bytes read from
      the row's start) and `line` is `lineData[..bytesParsed]` (the bytes written so far). */
  datatype Cursor = Cursor(consumed: nat, line: seq<byte>)

  function Min(a: int, b: int): int
  {
    if a < b then a else b
  }

  /** `n` copies of `v`. */
  function Fill(v: byte, n: nat): (r: seq<byte>)
    ensures |r| == n && forall j :: 0 <= j < n ==> r[j] == v
  {
    seq(n, _ => v)
  }

  /** One pass of the decode loop: read the control byte at `base + c.consumed` and execute its run,
      writing no further than `width`. */
  function RleStep(bytes: seq<byte>, base: int, c: Cursor, width: nat): (r: Result<Cursor>)
    requires |c.line| < width
    // the step succeeds exactly when every byte it must read lies in the buffer
    ensures r.Ok? <==>
      (var k := base + c.consumed;
       0 <= k < |bytes| &&
       (RepeatOp <= bytes[k] < TransparentOp ==> k + 1 < |bytes|) &&
       (bytes[k] < RepeatOp ==> k + 1 + Min(bytes[k], width - |c.line|) <= |bytes|))
    // every step consumes its control byte and never writes past the row's end
    ensures r.Ok? ==> c.consumed < r.value.consumed && c.line <= r.value.line && |r.value.line| <= width
  {
    var k := base + c.consumed;
    var room := width - |c.line|;
    match ReadByte(bytes, k)
    case Err(e) => Err(e)
    case Ok(op) =>
      if op >= TransparentOp then
        Ok(Cursor(c.consumed + 1, c.line + Fill(0, Min(op - TransparentOp, room))))
      else if op >= RepeatOp then
        match ReadByte(bytes, k + 1)
        case Err(e) => Err(e)
        case Ok(paletteIndex) => Ok(Cursor(c.consumed + 2, c.line + Fill(paletteIndex, Min(op - RepeatOp, room))))
      else
        match ReadRange(bytes, k + 1, Min(op, room))
        case Err(e) => Err(e)
        case Ok(literal) => Ok(Cursor(c.consumed + 1 + |literal|, c.line + literal))
  }

  /** What each kind of control byte does, when its reads succeed. */
  lemma RunSemantics(bytes: seq<byte>, base: int, c: Cursor, width: nat)
    requires |c.line| < width
    // transparent run: only the control byte is consumed; zeros are written, as many as fit
    ensures var r := RleStep(bytes, base, c, width);
      r.Ok? && bytes[base + c.consumed] >= TransparentOp ==>
      r.value.consumed == c.consumed + 1 &&
      r.value.line == c.line + Fill(0, Min(bytes[base + c.consumed] - TransparentOp, width - |c.line|))
    // repeat run: the palette index is consumed even when the run is empty, then copied as many times as fit
    ensures var r := RleStep(bytes, base, c, width);
      r.Ok? && RepeatOp <= bytes[base + c.consumed] < TransparentOp ==>
      r.value.consumed == c.consumed + 2 &&
      r.value.line == c.line + Fill(bytes[base + c.consumed + 1], Min(bytes[base + c.consumed] - RepeatOp, width - |c.line|))
    // literal run: one input byte is consumed per byte written, so a run cut at the row's end leaves the rest unread
    ensures var r := RleStep(bytes, base, c, width);
      r.Ok? && bytes[base + c.consumed] < RepeatOp ==>
      var written := |r.value.line| - |c.line|;
      written == Min(bytes[base + c.consumed], width - |c.line|) &&
      r.value.consumed == c.consumed + 1 + written &&
      r.value.line == c.line + bytes[base + c.consumed + 1..base + c.consumed + 1 + written]
  {
  }

  /** Steps until the row holds `width` bytes, or until a read faults. Every step consumes at least
      one byte that lies inside the buffer, which bounds the number of steps. */
  function RleRow(bytes: seq<byte>, base: int, c: Cursor, width: nat): (r: Result<Cursor>)
    requires |c.line| <= width
    ensures r.Ok? ==> |r.value.line| == width && c.line <= r.value.line && c.consumed <= r.value.consumed
    decreases |bytes| - base - c.consumed
  {
    if |c.line| == width then Ok(c)
    else
      match RleStep(bytes, base, c, width)
      case Err(e) => Err(e)
      case Ok(next) => RleRow(bytes, base, next, width)
  }

  /** The decoded row starting at absolute offset `base`. */
  function RleLine(bytes: seq<byte>, base: int, width: nat): (r: Result<seq<byte>>)
    ensures r.Ok? ==> |r.value| == width
  {
    match RleRow(bytes, base, Cursor(0, []), width)
    case Err(e) => Err(e)
    case Ok(c) => Ok(c.line)
  }

  /** One of the C# inner `for` loops of a transparent or repeat run: writes up to `m` copies of
      `value` into `lineData` from `bytesParsed` on, breaking off when the row is full. */
  method WriteRun(lineData: array<byte>, bytesParsed: nat, value: byte, m: nat) returns (filled: nat)
    requires bytesParsed <= lineData.Length
    modifies lineData
    ensures filled == bytesParsed + Min(m, lineData.Length - bytesParsed)
    ensures lineData[..filled] == old(lineData[..bytesParsed]) + Fill(value, filled - bytesParsed)
  {
    filled := bytesParsed;
    var j := 0;
    while j < m
      invariant 0 <= j <= m
      invariant filled == bytesParsed + j <= lineData.Length
      invariant lineData[..filled] == old(lineData[..bytesParsed]) + Fill(value, j)
    {
      if filled >= lineData.Length {
        break;
      }
      lineData[filled] := value;
      filled := filled + 1;
      j := j + 1;
    }
  }

  /** The C# inner `for` loop of a literal run: copies up to `m` bytes read from `bytes[src]` on into
      `lineData` from `bytesParsed` on, one read per byte written, breaking off when the row is full;
      a read outside the buffer faults. */
  method CopyLiteral(bytes: seq<byte>, src: int, lineData: array<byte>, bytesParsed: nat, m: nat)
    returns (r: Result<nat>)
    requires bytesParsed <= lineData.Length
    modifies lineData
    ensures var n := Min(m, lineData.Length - bytesParsed);
      match ReadRange(bytes, src, n)
      case Err(e) => r == Err(e)
      case Ok(literal) => r == Ok(n) && lineData[..bytesParsed + n] == old(lineData[..bytesParsed]) + literal
  {
    var filled, j := bytesParsed, 0;
    while j < m
      invariant 0 <= j <= m
      invariant filled == bytesParsed + j <= lineData.Length
      invariant ReadRange(bytes, src, j).Ok?
      invariant lineData[..filled] == old(lineData[..bytesParsed]) + ReadRange(bytes, src, j).value
    {
      if filled >= lineData.Length {
        break;
      }
      var index := src + j;
      if !(0 <= index < |bytes|) {
        return Err(OutOfRange(index));
      }
      lineData[filled] := bytes[index];
      filled := filled + 1;
      j := j + 1;
    }
    return Ok(j);
  }

  /** The body of the C# row loop: reads the control byte at `offset + currentIndex` and runs it
      into `lineData` from `bytesParsed` on; gives the new `bytesParsed` and `currentIndex`. */
  method RunControlByte(bytes: seq<byte>, offset: int, lineData: array<byte>, bytesParsed: nat, currentIndex: nat)
    returns (r: Result<(nat, nat)>)
    requires bytesParsed < lineData.Length
    modifies lineData
    ensures match RleStep(bytes, offset, Cursor(currentIndex, old(lineData[..bytesParsed])), lineData.Length)
      case Err(e) => r == Err(e)
      case Ok(after) =>
        r == Ok((|after.line|, after.consumed)) && |after.line| <= lineData.Length &&
        lineData[..|after.line|] == after.line
  {
    var k := offset + currentIndex;
    if !(0 <= k < |bytes|) {
      return Err(OutOfRange(k));
    }
    var compSect := bytes[k];
    if compSect >= TransparentOp {
      var filled := WriteRun(lineData, bytesParsed, 0, compSect - TransparentOp);
      return Ok((filled, currentIndex + 1));
    } else if compSect >= RepeatOp {
      if !(0 <= k + 1 < |bytes|) {
        return Err(OutOfRange(k + 1));
      }
      var paletteIndex := bytes[k + 1];
      var filled := WriteRun(lineData, bytesParsed, paletteIndex, compSect - RepeatOp);
      return Ok((filled, currentIndex + 2));
    } else {
      var copied := CopyLiteral(bytes, k + 1, lineData, bytesParsed, compSect);
      if copied.Err? {
        return Err(copied.error);
      }
      return Ok((bytesParsed + copied.value, currentIndex + 1 + copied.value));
    }
  }

  /** The C# row loop: fills a fresh `lineData` of `width` bytes in place, driven by the cursors
      `bytesParsed` (output) and `currentIndex` (input). */
  method DecodeRleLine(bytes: seq<byte>, offset: int, width: nat) returns (r: Result<seq<byte>>)
    ensures r == RleLine(bytes, offset, width)
  {
    var lineData := new byte[width];
    var bytesParsed, currentIndex := 0, 0;
    while bytesParsed < lineData.Length
      invariant 0 <= bytesParsed <= lineData.Length
      invariant RleRow(bytes, offset, Cursor(currentIndex, lineData[..bytesParsed]), width)
             == RleRow(bytes, offset, Cursor(0, []), width)
      decreases |bytes| - offset - currentIndex
    {
      ghost var before := Cursor(currentIndex, lineData[..bytesParsed]);
      var step := RunControlByte(bytes, offset, lineData, bytesParsed, currentIndex);
      if step.Err? {
        return Err(step.error);
      }
      bytesParsed, currentIndex := step.value.0, step.value.1;
      assert RleStep(bytes, offset, before, width) == Ok(Cursor(currentIndex, lineData[..bytesParsed]));
    }
    assert lineData[..] == lineData[..bytesParsed];
    return Ok(lineData[..]);
  }

  /** The length of a transparent run, which must fit in its control byte. */
  type TransparentCount = n: nat | n < 0x100 - TransparentOp
  /** The length of a repeat run, which must fit in its control byte. */
  type RepeatCount = n: nat | n < TransparentOp - RepeatOp
  /** The bytes of a literal run, whose length is its control byte. */
  type LiteralData = s: seq<byte> | |s| < RepeatOp

  /** A run as an encoder lays it out: the intended row content of one control byte. */
  datatype Run = Transparent(zeros: TransparentCount) | Repeat(count: RepeatCount, paletteIndex: byte) | Literal(data: LiteralData)

  /** The bytes of one run: its control byte, then its palette index or its literal bytes. */
  function EncodeRun(run: Run): (s: seq<byte>)
  {
    match run
    case Transparent(n) => [TransparentOp + n]
    case Repeat(n, v) => [RepeatOp + n, v]
    case Literal(data) => [|data|] + data
  }

  function EncodeRuns(runs: seq<Run>): seq<byte>
  {
    if runs == [] then [] else EncodeRun(runs[0]) + EncodeRuns(runs[1..])
  }

  /** The palette indices a run stands for. */
  function Expand(run: Run): seq<byte>
  {
    match run
    case Transparent(n) => Fill(0, n)
    case Repeat(n, v) => Fill(v, n)
    case Literal(data) => data
  }

  function ExpandRuns(runs: seq<Run>): seq<byte>
  {
    if runs == [] then [] else Expand(runs[0]) + ExpandRuns(runs[1..])
  }

  /** One encoded run found at the cursor is decoded to what it stands for, cut at the row's end;
      when it fits, exactly its encoding is consumed. */
  lemma StepOfEncodedRun(bytes: seq<byte>, base: int, c: Cursor, width: nat, run: Run)
    requires |c.line| < width
    requires 0 <= base + c.consumed && base + c.consumed + |EncodeRun(run)| <= |bytes|
    requires bytes[base + c.consumed..base + c.consumed + |EncodeRun(run)|] == EncodeRun(run)
    ensures RleStep(bytes, base, c, width).Ok?
    ensures RleStep(bytes, base, c, width).value.line
         == c.line + Expand(run)[..Min(|Expand(run)|, width - |c.line|)]
    ensures |Expand(run)| <= width - |c.line| ==>
      RleStep(bytes, base, c, width).value.consumed == c.consumed + |EncodeRun(run)|
  {
    var k := base + c.consumed;
    var enc := EncodeRun(run);
    assert bytes[k] == enc[0];
    match run {
      case Transparent(n) =>
        assert Fill(0, Min(n, width - |c.line|)) == Fill(0, n)[..Min(n, width - |c.line|)];
      case Repeat(n, v) =>
        assert bytes[k + 1] == enc[1];
        assert Fill(v, Min(n, width - |c.line|)) == Fill(v, n)[..Min(n, width - |c.line|)];
      case Literal(data) =>
        var n := Min(|data|, width - |c.line|);
        forall j | 0 <= j < n
          ensures bytes[k + 1 + j] == data[j]
        {
          assert bytes[k + 1 + j] == bytes[k..k + |enc|][1 + j] == enc[1 + j];
        }
        assert bytes[k + 1..k + 1 + n] == data[..n];
    }
  }

  lemma ConcatAssoc(a: seq<byte>, b: seq<byte>, d: seq<byte>)
    ensures a + (b + d) == (a + b) + d
  {
  }

  /** A window of `bytes` that holds `a + b` holds `a` and then `b`. */
  lemma SplitWindow(bytes: seq<byte>, lo: nat, a: seq<byte>, b: seq<byte>)
    requires lo + |a| + |b| <= |bytes| && bytes[lo..lo + |a| + |b|] == a + b
    ensures bytes[lo..lo + |a|] == a && bytes[lo + |a|..lo + |a| + |b|] == b
  {
    assert bytes[lo..lo + |a|] == bytes[lo..lo + |a| + |b|][..|a|];
    assert bytes[lo + |a|..lo + |a| + |b|] == bytes[lo..lo + |a| + |b|][|a|..];
  }

  /** The row after one encoded run: when the run fits, decoding carries on just past its encoding
      with the run's indices appended; otherwise the row ends inside the run. */
  lemma RowOfEncodedRun(bytes: seq<byte>, base: int, c: Cursor, width: nat, run: Run)
    requires |c.line| < width
    requires 0 <= base + c.consumed && base + c.consumed + |EncodeRun(run)| <= |bytes|
    requires bytes[base + c.consumed..base + c.consumed + |EncodeRun(run)|] == EncodeRun(run)
    ensures |c.line| + |Expand(run)| <= width ==>
      RleRow(bytes, base, c, width)
      == RleRow(bytes, base, Cursor(c.consumed + |EncodeRun(run)|, c.line + Expand(run)), width)
    ensures |c.line| + |Expand(run)| > width ==>
      RleRow(bytes, base, c, width).Ok? &&
      RleRow(bytes, base, c, width).value.line == (c.line + Expand(run))[..width]
  {
    StepOfEncodedRun(bytes, base, c, width, run);
    var next := RleStep(bytes, base, c, width).value;
    if |c.line| + |Expand(run)| <= width {
      assert Expand(run)[..|Expand(run)|] == Expand(run);
      assert next == Cursor(c.consumed + |EncodeRun(run)|, c.line + Expand(run));
    } else {
      assert next.line == (c.line + Expand(run))[..width];
    }
  }

  /** Runs whose encodings are found in `bytes` one after the other from index `lo` on. */
  predicate EncodedAt(bytes: seq<byte>, lo: int, runs: seq<Run>)
    decreases |runs|
  {
    0 <= lo <= |bytes| &&
    (runs != [] ==>
      var n := |EncodeRun(runs[0])|;
      lo + n <= |bytes| && bytes[lo..lo + n] == EncodeRun(runs[0]) && EncodedAt(bytes, lo + n, runs[1..]))
  }

  /** The encoding of the runs, placed after any bytes `pre`, holds each run's encoding in turn. */
  lemma {:induction false} EncodingFoundAt(pre: seq<byte>, runs: seq<Run>)
    ensures EncodedAt(pre + EncodeRuns(runs), |pre|, runs)
    decreases |runs|
  {
    if runs != [] {
      var first := EncodeRun(runs[0]);
      var bytes := pre + EncodeRuns(runs);
      assert bytes == (pre + first) + EncodeRuns(runs[1..]);
      EncodingFoundAt(pre + first, runs[1..]);
      assert bytes[|pre|..|pre| + |first|] == first;
    }
  }

  /** When the first of the encoded runs does not fit, the row ends inside it. */
  lemma RowEndsInFirstRun(bytes: seq<byte>, base: int, c: Cursor, width: nat, runs: seq<Run>)
    requires runs != [] && EncodedAt(bytes, base + c.consumed, runs)
    requires |c.line| < width < |c.line| + |Expand(runs[0])|
    ensures RleRow(bytes, base, c, width).Ok?
    ensures RleRow(bytes, base, c, width).value.line == (c.line + ExpandRuns(runs))[..width]
  {
    RowOfEncodedRun(bytes, base, c, width, runs[0]);
    assert (c.line + ExpandRuns(runs))[..width] == (c.line + Expand(runs[0]))[..width];
  }

  /** When an encoded run fits, decoding goes on from just past its encoding. */
  lemma RunFits(bytes: seq<byte>, base: int, c: Cursor, width: nat, run: Run) returns (next: Cursor)
    requires |c.line| + |Expand(run)| <= width && |c.line| < width
    requires 0 <= base + c.consumed && base + c.consumed + |EncodeRun(run)| <= |bytes|
    requires bytes[base + c.consumed..base + c.consumed + |EncodeRun(run)|] == EncodeRun(run)
    ensures next == Cursor(c.consumed + |EncodeRun(run)|, c.line + Expand(run))
    ensures RleRow(bytes, base, c, width) == RleRow(bytes, base, next, width)
  {
    next := Cursor(c.consumed + |EncodeRun(run)|, c.line + Expand(run));
    RowOfEncodedRun(bytes, base, c, width, run);
  }

  /** Where encoded runs are found, the first run's encoding is found, and the others' right after it. */
  lemma EncodedTail(bytes: seq<byte>, lo: int, runs: seq<Run>)
    requires runs != [] && EncodedAt(bytes, lo, runs)
    ensures 0 <= lo && lo + |EncodeRun(runs[0])| <= |bytes|
    ensures bytes[lo..lo + |EncodeRun(runs[0])|] == EncodeRun(runs[0])
    ensures EncodedAt(bytes, lo + |EncodeRun(runs[0])|, runs[1..])
  {
  }

  /** Past the first of the encoded runs: its encoding is found at the cursor, the others' right
      after it, and the runs stand for its indices followed by the others'. */
  lemma PastFirstRun(bytes: seq<byte>, base: int, c: Cursor, runs: seq<Run>) returns (next: Cursor)
    requires runs != [] && EncodedAt(bytes, base + c.consumed, runs)
    ensures next == Cursor(c.consumed + |EncodeRun(runs[0])|, c.line + Expand(runs[0]))
    ensures 0 <= base + c.consumed && base + c.consumed + |EncodeRun(runs[0])| <= |bytes|
    ensures bytes[base + c.consumed..base + c.consumed + |EncodeRun(runs[0])|] == EncodeRun(runs[0])
    ensures EncodedAt(bytes, base + next.consumed, runs[1..])
    ensures c.line + ExpandRuns(runs) == next.line + ExpandRuns(runs[1..])
  {
    next := Cursor(c.consumed + |EncodeRun(runs[0])|, c.line + Expand(runs[0]));
    EncodedTail(bytes, base + c.consumed, runs);
    assert base + next.consumed == base + c.consumed + |EncodeRun(runs[0])|;
    ConcatAssoc(c.line, Expand(runs[0]), ExpandRuns(runs[1..]));
  }

  /** Decoding encoded runs found at the cursor yields what they stand for, cut at the row's end;
      no read goes past the encoded bytes, so a longer-than-needed encoding never faults. */
  lemma {:induction false} DecodeEncodedRuns(bytes: seq<byte>, base: int, c: Cursor, width: nat, runs: seq<Run>)
    requires EncodedAt(bytes, base + c.consumed, runs)
    requires |c.line| <= width <= |c.line| + |ExpandRuns(runs)|
    ensures RleRow(bytes, base, c, width).Ok?
    ensures RleRow(bytes, base, c, width).value.line == (c.line + ExpandRuns(runs))[..width]
    decreases |runs|
  {
    if |c.line| == width {
      assert (c.line + ExpandRuns(runs))[..width] == c.line;
    } else if |c.line| + |Expand(runs[0])| <= width {
      var next := PastFirstRun(bytes, base, c, runs);
      var fits := RunFits(bytes, base, c, width, runs[0]);
      assert fits == next;
      DecodeEncodedRuns(bytes, base, next, width, runs[1..]);
      assert RleRow(bytes, base, c, width) == RleRow(bytes, base, next, width);
    } else {
      RowEndsInFirstRun(bytes, base, c, width, runs);
    }
  }

  /** Round trip: a row encoded as runs decodes to the indices the runs stand for, and a width
      shorter than the runs truncates the row there without reading past the encoding. */
  lemma RleLineOfEncodedRuns(runs: seq<Run>, width: nat)
    requires width <= |ExpandRuns(runs)|
    ensures RleLine(EncodeRuns(runs), 0, width) == Ok(ExpandRuns(runs)[..width])
  {
    var bytes := EncodeRuns(runs);
    assert bytes[0..|bytes|] == bytes;
    EncodingFoundAt([], runs);
    assert [] + bytes == bytes;
    DecodeEncodedRuns(bytes, 0, Cursor(0, []), width, runs);
    assert [] + ExpandRuns(runs) == ExpandRuns(runs);
  }
}
