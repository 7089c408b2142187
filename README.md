# Kirke GRP and PAL decoders in Dafny

Kirke converts two StarCraft asset formats to JSON. This project models the decoding half of that
converter in Dafny:

- **GRP sprite container.** A 6-byte header (frame count, group width, group height) is followed by
  one 8-byte record per frame. Each record holds the offsets, the frame size and a 32-bit
  `DataOffset`. At `DataOffset` sits a table of signed 16-bit line offsets, one per row. A heuristic
  on that table decides whether the frame's rows are run-length encoded. Each row of `FrameWidth`
  palette indices is then copied raw or decoded. The run-length decoder has three kinds of control
  byte: a transparent run, a repeat run and a literal run. Every run is cut short at the row's end.
- **PAL palette.** A flat run of bytes is read three at a time as red, green and blue.

Every C# array access that faults (an index outside the buffer, or a negative array size) becomes an
`Err` value. For an index fault, the value names the first out-of-range index that the C# code would
touch, in the order the C# reads. Each imperative piece of the C# appears as a Dafny method with its
loops, arrays and `Frame` objects. Each method is proved equal to a pure specification function, and
the properties are proved about those functions.

Modules:

- `LittleEndian`: `ToShort` and `ToLong`.
- `ByteBuffer`: bounds-checked reads, and collecting results that stop at the first fault.
- `Rle`: the row state machine.
- `FrameDecoder`: the line-offset table, the heuristic and the grid.
- `Grp`: the records, the `Frame` class and the whole file.
- `Pal`: the palette parser.

## Model

| member | source | states |
|---|---|---|
| LittleEndian.ToShort | Main.cs:320-324 | the value is `first + 256*second` read as a signed 16-bit number; it is negative exactly when `second >= 0x80` |
| LittleEndian.ShortRoundTrip | Main.cs:320-324 | every `short` value is read back from the two bytes that store it |
| LittleEndian.ShortBytesRoundTrip | Main.cs:320-324 | `ToShort` is one-to-one: the two bytes are recovered from its result |
| LittleEndian.ToLong | Main.cs:326-333 | the three shift-and-add steps give `a + 2^8 b + 2^16 c + 2^24 d`, which lies in `[0, 2^32)` |
| LittleEndian.LongRoundTrip | Main.cs:326-333 | every value below 2^32 is read back from its four little-endian bytes |
| LittleEndian.LongBytesRoundTrip | Main.cs:326-333 | `ToLong` is one-to-one on its four bytes |
| ByteBuffer.ReadRange | Main.cs:233-235 | `n` reads from `lo` on succeed exactly when the window lies in the buffer; the result is that window, byte for byte |
| ByteBuffer.ReadRangeIsSequential | Main.cs:233-235 | the closed form equals the reads done one at a time, including which index faults first |
| ByteBuffer.Collect | Main.cs:228-284 | when a loop of steps finishes, it has one value per step, each step's own value |
| ByteBuffer.CollectFirstError | Main.cs:228-284 | a loop of steps fails exactly when some step fails, and then with the error of the first step that fails |
| Grp.RecordAt | Main.cs:199-208 | record `i` takes `OffsetX`, `OffsetY`, `FrameWidth` and `FrameHeight` from bytes `6+8i .. 9+8i`, and `DataOffset` as `ToLong` of bytes `10+8i .. 13+8i` (below 2^32) |
| Grp.ParseGrpHeader | Main.cs:193-210 | succeeds exactly when the 6 header bytes and `frameCount` records lie in the buffer and the count is not negative; it then gives `frameCount` records with the fields of `RecordAt`; a negative count faults as such, and a short buffer faults at its length |
| Grp.ParseEncodedGrpHeader | Main.cs:193-210 | a header built from any group size and any storable records parses back to exactly those values, whatever bytes follow it |
| Grp.Frame.constructor | Main.cs:202-208 | a new `Frame` holds the record's fields and no grid yet |
| Grp.ReadFrameHeaders | Main.cs:197-210 | the record loop yields `frameCount` fresh, distinct `Frame` objects, frame `i` holding record `i`, or faults at the buffer's end exactly when the records overrun it |
| Rle.RleStep | Main.cs:245-280 | one control byte succeeds exactly when every byte it must read is in the buffer; it always consumes the control byte and never writes past the row's end |
| Rle.RunSemantics | Main.cs:245-280 | `op >= 0x80` consumes one byte and writes `op - 0x80` zeros; `0x40 <= op < 0x80` consumes the palette index even for an empty run and writes that many copies; `op < 0x40` consumes one literal byte per byte written, so a cut literal leaves the rest unread; each run is cut at the row's end |
| Rle.RleRow | Main.cs:242-281 | the row loop ends with exactly `width` bytes written, extending what was already written; every step consumes a byte inside the buffer, which bounds the loop |
| Rle.RleLine | Main.cs:240-281 | a decoded run-length row has exactly `width` indices |
| Rle.WriteRun | Main.cs:248-255 | the transparent and repeat loops write `min(m, room)` copies of the value after what was written and stop at the row's end |
| Rle.CopyLiteral | Main.cs:272-279 | the literal loop copies `min(m, room)` bytes from the source, or faults at the first source index outside the buffer |
| Rle.RunControlByte | Main.cs:245-280 | one pass of the row loop over the array `lineData` gives the new cursors and row contents of `RleStep`, or its fault |
| Rle.DecodeRleLine | Main.cs:240-281 | the in-place row loop over `lineData` returns exactly `RleLine` |
| Rle.StepOfEncodedRun | Main.cs:245-280 | an encoded run at the cursor decodes to the indices it stands for, cut at the row's end, and consumes exactly its encoding when it fits |
| Rle.DecodeEncodedRuns | Main.cs:240-281 | runs encoded one after another at the cursor decode to their indices, cut at `width`, and the decode never reads past the encoding |
| Rle.RleLineOfEncodedRuns | Main.cs:240-281 | round trip: a row encoded as runs decodes to the indices the runs stand for, cut at the row's width |
| FrameDecoder.LineOffsetTable | Main.cs:215-221 | reading `height` offsets succeeds exactly when `2*height` bytes from `DataOffset` lie in the buffer; offset `i` is `ToShort` of bytes `DataOffset+2i` and `DataOffset+2i+1` |
| FrameDecoder.CompressedExtend | Main.cs:216-225 | reading one more offset sets the heuristic exactly when the newest pair of rows is closer than `FrameWidth`, and a set flag stays set |
| FrameDecoder.ShortFrameIsRaw | Main.cs:216-225 | a frame of at most one row is never treated as compressed |
| FrameDecoder.ReadLineOffsets | Main.cs:215-226 | the offset loop over the array `lineOffsets` returns the offset table and the flag `Compressed(table, width)`, or the table's first fault |
| FrameDecoder.CopyRawLine | Main.cs:230-236 | the raw copy loop into `lineData` returns exactly the `width`-byte window at the row's offset, or its first fault |
| FrameDecoder.DecodeRow | Main.cs:230-282 | a decoded row has exactly `FrameWidth` indices, on both paths |
| FrameDecoder.FrameGrid | Main.cs:214-284 | a decoded frame has exactly `FrameHeight` rows of exactly `FrameWidth` indices |
| FrameDecoder.RawRowsAreCopies | Main.cs:231-236 | rows copied raw are `width` long, and index `j` of row `i` is the in-range byte `DataOffset + lineOffsets[i] + j` |
| FrameDecoder.RawFrameIsByteCopy | Main.cs:231-236 | in an uncompressed frame, row `i` index `j` is the byte at `DataOffset + lineOffsets[i] + j`, which lies in the buffer |
| FrameDecoder.DecodeLine | Main.cs:231-282 | the choice between raw copy and run-length decode returns exactly `DecodeRow` |
| FrameDecoder.DecodeFrameRows | Main.cs:228-284 | the row loop filling `frameData` returns the rows of `RowResults` collected in order, stopping at the first faulting row |
| FrameDecoder.DecodeFrameData | Main.cs:214-284 | the offset loop followed by the row loop returns exactly `FrameGrid` |
| Grp.DecodeGrp | Main.cs:193-286 | a header fault is the file's fault; a decoded file has the parsed header and one grid per record, with `frameHeight` rows of `frameWidth` indices |
| Grp.DecodeFrame | Main.cs:213-285 | decoding one frame returns `FrameGrid` of its own record fields, and sets `FrameData` to the grid when it succeeds |
| Grp.DecodeAllFrames | Main.cs:212-286 | the `foreach` over distinct frames fails with the first frame's fault, or else sets each frame's `FrameData` to its grid |
| Grp.ParseGrp | Main.cs:190-288 | the whole GRP decode returns the fault of `DecodeGrp`, or else the header fields and fresh frames carrying the records and grids of `DecodeGrp` |
| Grp.TransparentFrameExample | Main.cs:193-286 | a one-frame file with offsets `[4, 4]` is compressed, and its two rows share the run `0x84`, giving two rows of four zeros |
| Grp.RawFrameExample | Main.cs:193-286 | a one-frame, one-row file is copied raw: `[[5, 9]]` |
| Pal.PaletteOf | Main.cs:160-164 | a length that is a multiple of three gives one colour per three bytes |
| Pal.PaletteOfAt | Main.cs:160-164 | colour `k` is `(bytes[3k], bytes[3k+1], bytes[3k+2])`, in file order |
| Pal.PaletteOfFlatten | Main.cs:160-164 | storing a palette and parsing it gives the palette back |
| Pal.FlattenPaletteOf | Main.cs:160-164 | parsing loses nothing: storing the parsed palette gives the bytes back |
| Pal.ParsePalette | Main.cs:159-164 | the parse succeeds exactly when the length is a multiple of three, giving `length/3` colours whose stored form is the input; otherwise it faults at index `length` |
| Pal.ParsePal | Main.cs:159-164 | the post-incrementing loop over the array `colours` returns exactly `ParsePalette` |
| Pal.TrailingByteFaults | Main.cs:159-164 | a ten-byte palette makes the loop fault at index 10, where the whole-triples parse gives three colours |
| Pal.ParseWholeTriples | Main.cs:159-164 | dropping the trailing bytes gives `length/3` colours, colour `k` made of bytes `3k .. 3k+2` |
| Pal.WholeTriplesExtendParse | Main.cs:159-164 | wherever the loop succeeds, the whole-triples parse gives the same palette |

## Left out

- The command line (`Main`), file reading and writing, and output paths (Main.cs:116-152, 158, 190-191) are I/O. The decoders take the file's bytes as a parameter.
- The JSON and text output (`ToJsonString`, `ToString`, `ConvertToJson`, and the text half of `ConvertPalToJson`) is presentation only and is not modelled.
- .NET exceptions are values here. `OutOfRange(k)` stands for any index fault, including those at negative indices; it records the index but not which array faulted. `NegativeFrameCount(c)` stands for the fault of `new Frame[c]`.
- Grp.Frame: the record fields are `const`, because nothing assigns them after the object initialiser. Only `frameData` (C#'s `FrameData`, absent until decoded) is updated in place.
- Grp.ReadFrameHeaders: it fills a `Frame?` array as the C# does, then returns the frames as a sequence. The C# keeps the array.
- Grp.DecodeAllFrames: it requires the frames to be distinct objects, which `ReadFrameHeaders` guarantees.
- The format is often described with unsigned 16-bit header fields and line offsets. The code reads them as C# `short`s, and the model follows the code: a count of `0x8000` or more is negative and faults at `new Frame[...]`, and a line offset of `0x8000` or more points before `DataOffset`.
- The description also says that a palette's trailing one or two bytes are ignored. The code instead reads past the buffer and faults. `Pal.ParsePalette` and `Pal.ParsePal` follow the code (see Findings).

## Findings

| source | as written | input that shows it | evidently intended | confidence | as-written member | corrected member |
|---|---|---|---|---|---|---|
| Main.cs:159-164 | the loop `while (i < l)` reads three bytes per colour, so it reads `bytes[l]` when `l` is not a multiple of three | a 10-byte palette: the fourth pass reads `bytes[10]` and faults | read `l / 3` colours and ignore the trailing bytes, as the array size `l / 3` suggests | high; not executed | Pal.ParsePalette, Pal.TrailingByteFaults | Pal.ParseWholeTriples |
