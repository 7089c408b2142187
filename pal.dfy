/** The PAL palette parser: a flat run of bytes read three at a time as red, green, blue. */
module Pal {
  import opened LittleEndian
  import opened ByteBuffer

  /** One palette entry, C#'s `Colour(r, g, b)`. */
  datatype Colour = Colour(r: byte, g: byte, b: byte)

  /** The colours spelt by a byte count that is a multiple of three, in file order. */
  function PaletteOf(bytes: seq<byte>): (p: seq<Colour>)
    requires |bytes| % 3 == 0
    ensures |p| == |bytes| / 3
    decreases |bytes|
  {
    if bytes == [] then []
    else
      var n := |bytes| - 3;
      PaletteOf(bytes[..n]) + [Colour(bytes[n], bytes[n + 1], bytes[n + 2])]
  }

  /** Colour `k` is made of bytes `3k`, `3k + 1` and `3k + 2`. */
  lemma {:induction false} PaletteOfAt(bytes: seq<byte>)
    requires |bytes| % 3 == 0
    ensures forall k :: 0 <= k < |bytes| / 3 ==>
      PaletteOf(bytes)[k] == Colour(bytes[3 * k], bytes[3 * k + 1], bytes[3 * k + 2])
    decreases |bytes|
  {
    if bytes != [] {
      var n := |bytes| - 3;
      PaletteOfAt(bytes[..n]);
    }
  }

  /** The bytes that store a palette: each colour as red, green, blue. */
  function Flatten(palette: seq<Colour>): (bytes: seq<byte>)
    ensures |bytes| == 3 * |palette|
  {
    if palette == [] then []
    else
      var last := palette[|palette| - 1];
      Flatten(palette[..|palette| - 1]) + [last.r, last.g, last.b]
  }

  /** Parsing the stored form of a palette gives the palette back. */
  lemma {:induction false} PaletteOfFlatten(palette: seq<Colour>)
    ensures PaletteOf(Flatten(palette)) == palette
  {
    if palette != [] {
      var front := palette[..|palette| - 1];
      PaletteOfFlatten(front);
      var bytes := Flatten(palette);
      assert bytes[..|bytes| - 3] == Flatten(front);
      assert palette == front + [palette[|palette| - 1]];
    }
  }

  /** Storing a parsed palette gives the original bytes back: parsing loses nothing. */
  lemma {:induction false} FlattenPaletteOf(bytes: seq<byte>)
    requires |bytes| % 3 == 0
    ensures Flatten(PaletteOf(bytes)) == bytes
    decreases |bytes|
  {
    if bytes != [] {
      var n := |bytes| - 3;
      FlattenPaletteOf(bytes[..n]);
      var palette := PaletteOf(bytes);
      assert palette[..|palette| - 1] == PaletteOf(bytes[..n]);
      assert bytes == bytes[..n] + [bytes[n], bytes[n + 1], bytes[n + 2]];
    }
  }

  /** The whole parse: the palette when the length is a multiple of three; otherwise the last,
      incomplete triple reads one index past the end of the buffer, which is the length. */
  function ParsePalette(bytes: seq<byte>): (r: Result<seq<Colour>>)
    ensures r.Ok? <==> |bytes| % 3 == 0
    ensures r.Ok? ==> |r.value| == |bytes| / 3 && Flatten(r.value) == bytes
    ensures r.Err? ==> r.error == OutOfRange(|bytes|)
  {
    if |bytes| % 3 == 0 then
      FlattenPaletteOf(bytes);
      Ok(PaletteOf(bytes))
    else Err(OutOfRange(|bytes|))
  }

  /** The C# loop that fills `colours[i / 3]` from `bytes[i++]` three times per step. */
  method ParsePal(bytes: seq<byte>) returns (r: Result<seq<Colour>>)
    ensures r == ParsePalette(bytes)
  {
    var i, l := 0, |bytes|;
    var colours := new Colour[l / 3];
    while i < l
      invariant 0 <= i <= l && i % 3 == 0
      invariant colours[..i / 3] == PaletteOf(bytes[..i])
    {
      if i + 1 >= l {
        return Err(OutOfRange(i + 1));
      }
      if i + 2 >= l {
        return Err(OutOfRange(i + 2));
      }
      colours[i / 3] := Colour(bytes[i], bytes[i + 1], bytes[i + 2]);
      assert bytes[..i + 3][..i] == bytes[..i];
      assert colours[..(i + 3) / 3] == colours[..i / 3] + [colours[i / 3]];
      i := i + 3;
    }
    assert bytes[..i] == bytes && colours[..i / 3] == colours[..];
    return Ok(colours[..]);
  }

  /** The palette of the whole triples, dropping the one or two bytes after the last one: what the
      palette format calls for when the length is not a multiple of three. */
  function ParseWholeTriples(bytes: seq<byte>): (p: seq<Colour>)
    ensures |p| == |bytes| / 3
    ensures forall k :: 0 <= k < |p| ==> p[k] == Colour(bytes[3 * k], bytes[3 * k + 1], bytes[3 * k + 2])
  {
    var whole := bytes[..3 * (|bytes| / 3)];
    PaletteOfAt(whole);
    PaletteOf(whole)
  }

  /** The whole-triples parse agrees with the loop wherever the loop succeeds. */
  lemma WholeTriplesExtendParse(bytes: seq<byte>)
    requires ParsePalette(bytes).Ok?
    ensures ParseWholeTriples(bytes) == ParsePalette(bytes).value
  {
    assert bytes[..3 * (|bytes| / 3)] == bytes;
  }

  /** A ten-byte palette: the loop faults reading index 10, where three colours were meant. */
  lemma TrailingByteFaults()
    ensures ParsePalette(seq(10, _ => 0)) == Err(OutOfRange(10))
    ensures ParseWholeTriples(seq(10, _ => 0)) == [Colour(0, 0, 0), Colour(0, 0, 0), Colour(0, 0, 0)]
  {
  }
}
