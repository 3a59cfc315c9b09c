/**
 * What readPSF makes of the bytes writePSF produces. The header and every
 * glyph read back as written, whatever unicode table follows them; since the
 * writer emits no table, its output alone is a font readPSF rejects unless
 * the font is empty.
 */
module RoundTrip {
  import opened Arith
  import opened Bytes
  import opened Wrappers
  import opened Font
  import opened Rows
  import opened Table
  import opened Decoder
  import opened Encoder

  /**
   * A font the writer can write and the reader can read back: one glyph per
   * slot, each of height * width pixels that are 0 or 1, and every header
   * field within four bytes.
   */
  predicate Writable(f: FontImage)
  {
    && |f.glyphs| == f.length
    && (forall i :: 0 <= i < |f.glyphs| ==> |f.glyphs[i]| == f.height * f.width && Binary(f.glyphs[i]))
    && (forall k :: 0 <= k < |HeaderFields(f)| ==> HeaderFields(f)[k] < U32_LIMIT)
  }

  /** A writable font is written. */
  lemma WritableEncodes(f: FontImage)
    requires Writable(f)
    ensures Encode(f, true).Ok?
  {
    EncodeOk(f, true);
  }

  /** The header readPSF should find: headerSize 32 and charSize height * rowSize. */
  function WrittenHeader(f: FontImage): Header
  {
    Header(f.version, HEADER_SIZE, f.flags, f.length, CharSize(f.height, f.width), f.height, f.width)
  }

  /** The rows of a pixel list, `width` pixels each. */
  function RowsOf(g: seq<nat>, width: nat, n: nat): (r: seq<seq<nat>>)
    ensures |r| == n
  {
    seq(n, y requires 0 <= y < n => RowBits(g, width, y))
  }

  lemma SliceLeft<T>(a: seq<T>, c: seq<T>, lo: nat, hi: nat)
    requires lo <= hi <= |a|
    ensures (a + c)[lo..hi] == a[lo..hi]
  {
  }

  lemma SliceWithin<T>(s: seq<T>, a: nat, b: nat, lo: nat, hi: nat)
    requires a <= b <= |s| && lo <= hi <= b - a
    ensures s[a..b][lo..hi] == s[a + lo..a + hi]
  {
    var u, v := s[a..b][lo..hi], s[a + lo..a + hi];
    assert |u| == |v|;
    forall k | 0 <= k < |u| ensures u[k] == v[k] {
      assert u[k] == s[a..b][lo + k] == s[a + lo + k];
    }
  }

  /** Row y of n rows of `width` pixels holds `width` pixels, 0 or 1 when the glyph's are. */
  lemma RowBitsShape(g: seq<nat>, width: nat, n: nat, y: nat)
    requires |g| == n * width && y < n
    ensures |RowBits(g, width, y)| == width
    ensures Binary(g) ==> Binary(RowBits(g, width, y))
  {
    MulMonotone(width, y + 1, n);
    assert width * (y + 1) == width * y + width;
    if Binary(g) {
      RowBitsBinary(g, width, y);
    }
  }

  /** Pixel x of row y is pixel y * width + x of the list. */
  lemma RowsOfAt(g: seq<nat>, width: nat, n: nat, y: nat, x: nat)
    requires |g| == n * width && y < n && x < width
    ensures y * width + x < |g| && x < |RowsOf(g, width, n)[y]|
    ensures RowsOf(g, width, n)[y][x] == g[y * width + x]
  {
    RowBitsShape(g, width, n, y);
    GridIndex(y, x, width, n);
  }

  /** Index k of a grid of n rows of width cells is cell k % width of row k / width. */
  lemma GridSplit(k: nat, width: nat, n: nat)
    requires k < n * width
    ensures width > 0 && k / width < n && k % width < width
    ensures k == (k / width) * width + k % width
  {
    if width == 0 {
      assert false;
    }
    DivBelow(k, n, width);
  }

  /** Cutting a pixel list into rows and laying them end to end gives it back. */
  lemma ConcatRowsOf(g: seq<nat>, width: nat, n: nat)
    requires |g| == n * width
    ensures Concat(RowsOf(g, width, n)) == g
  {
    var rows := RowsOf(g, width, n);
    forall y | 0 <= y < n ensures |rows[y]| == width {
      RowBitsShape(g, width, n, y);
    }
    ConcatLength(rows, width);
    var c := Concat(rows);
    forall k | 0 <= k < |g| ensures c[k] == g[k] {
      GridSplit(k, width, n);
      var y, x := k / width, k % width;
      ConcatAt(rows, width, y, x);
      RowsOfAt(g, width, n, y, x);
    }
  }

  /** Header field k of the written bytes reads back, whatever follows them. */
  lemma FieldReadBack(f: FontImage, t: seq<Byte>, k: nat)
    requires Encode(f, true).Ok? && k < 8
    ensures U32At(Encode(f, true).value + t, 4 * k) == HeaderFields(f)[k]
  {
    var e := Encode(f, true).value;
    EncodeLayout(f);
    SliceLeft(e, t, 4 * k, 4 * k + 4);
  }

  /** The written bytes start with the PSF2 magic number and so are not taken for PSF1. */
  lemma EncodedMagic(f: FontImage, t: seq<Byte>)
    requires Encode(f, true).Ok?
    ensures var b := Encode(f, true).value + t;
      && Psf2Bytes(b) && !Psf1Bytes(b)
      && FromLE(PySlice(b, 0, 2)) != PSF1_MAGIC_NUMBER && FromLE(PySlice(b, 0, 4)) == PSF2_MAGIC_NUMBER
  {
    var b := Encode(f, true).value + t;
    FieldReadBack(f, t, 0);
    Psf2Prefix(b);
    Psf1Prefix(b);
    assert b[..2] == b[..4][..2];
  }

  /** The header of the written bytes reads back field by field, whatever follows it. */
  lemma EncodedHeader(f: FontImage, t: seq<Byte>)
    requires Encode(f, true).Ok?
    ensures var b := Encode(f, true).value + t;
      && Psf2Bytes(b) && !Psf1Bytes(b)
      && FromLE(PySlice(b, 0, 2)) != PSF1_MAGIC_NUMBER && FromLE(PySlice(b, 0, 4)) == PSF2_MAGIC_NUMBER
      && ParseHeader(b) == WrittenHeader(f)
  {
    EncodedMagic(f, t);
    FieldReadBack(f, t, 1);
    FieldReadBack(f, t, 2);
    FieldReadBack(f, t, 3);
    FieldReadBack(f, t, 4);
    FieldReadBack(f, t, 5);
    FieldReadBack(f, t, 6);
    FieldReadBack(f, t, 7);
    WriterRowSizeAgrees(f.width);
  }

  /**
   * Block y (of rs bytes) inside block i (of c bytes) of what follows the
   * header is the stretch of the file from HEADER_SIZE + c * i + rs * y to
   * HEADER_SIZE + c * i + rs * (y + 1), whatever is appended.
   */
  lemma BlockInBlock(e: seq<Byte>, t: seq<Byte>, c: nat, i: nat, rs: nat, y: nat)
    requires HEADER_SIZE <= |e| && c * i + c <= |e| - HEADER_SIZE && rs * y + rs <= c
    ensures PySlice(e + t, HEADER_SIZE + c * i + rs * y, HEADER_SIZE + c * i + rs * (y + 1)) ==
      Block(Block(e[HEADER_SIZE..], c, i), rs, y)
  {
    assert rs * (y + 1) == rs * y + rs;
    NestedSlice(e, t, c * i, c, rs * y, rs);
  }

  /** The same, with the offsets of the outer and inner block given. */
  lemma NestedSlice(e: seq<Byte>, t: seq<Byte>, ci: nat, c: nat, ry: nat, rs: nat)
    requires HEADER_SIZE + ci + c <= |e| && ry + rs <= c
    ensures PySlice(e + t, HEADER_SIZE + ci + ry, HEADER_SIZE + ci + ry + rs) ==
      e[HEADER_SIZE..][ci..ci + c][ry..ry + rs]
  {
    var body := e[HEADER_SIZE..];
    SliceWithin(body, ci, ci + c, ry, ry + rs);
    SliceWithin(e, HEADER_SIZE, |e|, ci + ry, ci + ry + rs);
    SliceLeft(e, t, HEADER_SIZE + ci + ry, HEADER_SIZE + ci + ry + rs);
  }

  /** Within the glyph bytes, row y of glyph i is the packed row y of that glyph. */
  lemma RowInBody(body: seq<Byte>, glyphs: seq<seq<nat>>, height: nat, width: nat, rowSize: nat,
                  c: nat, i: nat, y: nat)
    requires width <= 8 * rowSize && c == height * rowSize && i < |glyphs| && y < height
    requires GlyphsBytes(glyphs, height, width, rowSize) == Some(body)
    ensures c * i + c <= |body| && rowSize * y + rowSize <= c
    ensures PackRow(RowBits(glyphs[i], width, y), rowSize, width).Some?
    ensures Block(Block(body, c, i), rowSize, y) == PackRow(RowBits(glyphs[i], width, y), rowSize, width).value
  {
    GlyphsBytesAt(glyphs, height, width, rowSize, c);
    RowsBytesAt(glyphs[i], width, rowSize, height);
  }

  /** Row y of glyph i comes from exactly the bytes the writer packed it into. */
  lemma RowInFile(f: FontImage, t: seq<Byte>, i: nat, y: nat)
    requires Encode(f, true).Ok? && i < |f.glyphs| && y < f.height
    ensures f.width <= 8 * RowBytes(f.width)
    ensures PackRow(RowBits(f.glyphs[i], f.width, y), RowBytes(f.width), f.width).Some?
    ensures var h, rowSize := WrittenHeader(f), RowBytes(f.width);
      PySlice(Encode(f, true).value + t, RowStart(h, rowSize, i, y), RowStart(h, rowSize, i, y + 1)) ==
      PackRow(RowBits(f.glyphs[i], f.width, y), rowSize, f.width).value
  {
    var e := Encode(f, true).value;
    var rowSize, c := RowBytes(f.width), CharSize(f.height, f.width);
    WriterRowSizeAgrees(f.width);
    EncodeLayout(f);
    RowInBody(e[HEADER_SIZE..], f.glyphs, f.height, f.width, rowSize, c, i, y);
    BlockInBlock(e, t, c, i, rowSize, y);
  }

  /** Row y of glyph i reads back as the row the writer took from the glyph. */
  lemma RowReadBack(f: FontImage, t: seq<Byte>, i: nat, y: nat)
    requires Encode(f, true).Ok? && i < |f.glyphs| && y < f.height
    requires |f.glyphs[i]| == f.height * f.width && Binary(f.glyphs[i])
    ensures f.width <= 8 * RowBytes(f.width)
    ensures DecodeRow(Encode(f, true).value + t, WrittenHeader(f), RowBytes(f.width), i, y) ==
      RowBits(f.glyphs[i], f.width, y)
  {
    RowInFile(f, t, i, y);
    RowBitsShape(f.glyphs[i], f.width, f.height, y);
    PackThenUnpack(RowBits(f.glyphs[i], f.width, y), RowBytes(f.width));
  }

  /** Glyph i reads back as written. */
  lemma GlyphReadBack(f: FontImage, t: seq<Byte>, i: nat)
    requires Encode(f, true).Ok? && i < |f.glyphs| && f.height > 0
    requires |f.glyphs[i]| == f.height * f.width && Binary(f.glyphs[i])
    ensures SizesValid(WrittenHeader(f))
    ensures Glyph(Encode(f, true).value + t, WrittenHeader(f), i) == f.glyphs[i]
  {
    var b, h := Encode(f, true).value + t, WrittenHeader(f);
    var rows := RowList(b, h, RowSize(h), i, f.height);
    forall y | 0 <= y < f.height ensures rows[y] == RowsOf(f.glyphs[i], f.width, f.height)[y] {
      RowReadBack(f, t, i, y);
    }
    assert rows == RowsOf(f.glyphs[i], f.width, f.height);
    ConcatRowsOf(f.glyphs[i], f.width, f.height);
  }

  /**
   * Every glyph writePSF writes, readPSF reads back unchanged, whatever
   * unicode table is appended after the glyphs.
   */
  lemma EncodedGlyphs(f: FontImage, t: seq<Byte>)
    requires Writable(f) && f.height > 0
    ensures Encode(f, true).Ok?
    ensures var b := Encode(f, true).value + t;
      SizesValid(ParseHeader(b)) && Glyphs(b, ParseHeader(b)) == f.glyphs
  {
    WritableEncodes(f);
    EncodedHeader(f, t);
    var b, h := Encode(f, true).value + t, WrittenHeader(f);
    forall i | 0 <= i < f.length ensures Glyphs(b, h)[i] == f.glyphs[i] {
      GlyphReadBack(f, t, i);
    }
  }

  /**
   * The written bytes followed by a unicode table that walks cleanly read
   * back as the font written: same header fields, same glyphs, with the
   * character map the table describes.
   */
  lemma ReadBackWritten(f: FontImage, t: seq<Byte>)
    requires Writable(f) && f.height > 0 && HasUnicode(f.flags)
    requires Encode(f, true).Ok? && WalkFont(Encode(f, true).value + t, WrittenHeader(f)).Ok?
    ensures Decode(Encode(f, true).value + t) ==
      Ok(f.(charSize := CharSize(f.height, f.width),
            charMap := WalkFont(Encode(f, true).value + t, WrittenHeader(f)).value.charMap))
  {
    EncodedHeader(f, t);
    EncodedGlyphs(f, t);
  }

  /** Past the last glyph of the written bytes there is no table: any entry runs off the end. */
  lemma WalkWrittenFont(f: FontImage)
    requires Writable(f) && Encode(f, true).Ok?
    ensures WalkFont(Encode(f, true).value, WrittenHeader(f)) ==
      if f.length == 0 then Ok(Walked(map[], HEADER_SIZE)) else Err(TruncatedTable)
  {
    var b := Encode(f, true).value;
    EncodeLength(f);
    assert TableStart(WrittenHeader(f)) == |b|;
    if f.length == 0 {
      assert |b| == HEADER_SIZE;
    } else {
      assert ScanRun(b, |b|) == None;
    }
  }

  /**
   * Without the table the writer leaves out, readPSF rejects what writePSF
   * writes: a zero height divides by zero, a clear unicode flag is refused,
   * and any glyph makes the table walk run off the end; only an empty font
   * with the flag set reads back.
   */
  lemma WrittenFontUnreadable(f: FontImage)
    requires Writable(f)
    ensures Encode(f, true).Ok?
    ensures var d := Decode(Encode(f, true).value);
      && (f.height == 0 ==> d == Err(ZeroHeight))
      && (f.height > 0 && !HasUnicode(f.flags) ==> d == Err(NoUnicodeTable))
      && (f.height > 0 && HasUnicode(f.flags) && f.length > 0 ==> d == Err(TruncatedTable))
      && (f.height > 0 && HasUnicode(f.flags) && f.length == 0 ==>
            d == Ok(f.(charSize := CharSize(f.height, f.width), charMap := map[])))
  {
    WritableEncodes(f);
    var b := Encode(f, true).value;
    assert b + [] == b;
    EncodedHeader(f, []);
    if f.height > 0 && HasUnicode(f.flags) {
      WalkWrittenFont(f);
      if f.length == 0 {
        assert Glyphs(b, WrittenHeader(f)) == [] == f.glyphs;
      }
    }
  }

  /**
   * Every font readPSF returns can be written: one 0/1 glyph of
   * height * width pixels per slot, and every header value read from four
   * bytes, so below 2^32.
   */
  lemma DecodedWritable(b: seq<Byte>)
    requires Decode(b).Ok?
    ensures Writable(Decode(b).value)
  {
    var f, h := Decode(b).value, ParseHeader(b);
    DecodeHeader(b);
    DecodeGlyphs(b);
    assert f.charSize == U32At(b, 20) < U32_LIMIT;
    WritableOfFields(f);
  }

  /** A font with one 0/1 glyph of height * width pixels per slot and header values below 2^32 is writable. */
  lemma WritableOfFields(f: FontImage)
    requires |f.glyphs| == f.length && GlyphsFit(f.glyphs, f.height, f.width, f.length)
    requires forall i :: 0 <= i < |f.glyphs| ==> Binary(f.glyphs[i])
    requires f.version < U32_LIMIT && f.flags < U32_LIMIT && f.length < U32_LIMIT
    requires f.height < U32_LIMIT && f.width < U32_LIMIT && CharSize(f.height, f.width) < U32_LIMIT
    ensures Writable(f)
  {
    WriterRowSizeAgrees(f.width);
    Pow2FourBytes();
  }

  /**
   * Writing a font read and reading the result again gives back its header
   * fields and every glyph, whatever bytes follow the written ones.
   */
  lemma GlyphIdempotence(b: seq<Byte>, t: seq<Byte>)
    requires Decode(b).Ok?
    ensures Encode(Decode(b).value, true).Ok?
    ensures var f, h := Decode(b).value, ParseHeader(b);
      var b2 := Encode(f, true).value + t;
      var h2 := ParseHeader(b2);
      && h2.version == h.version && h2.flags == h.flags && h2.length == h.length
      && h2.charSize == h.charSize && h2.height == h.height && h2.width == h.width
      && SizesValid(h2) && Glyphs(b2, h2) == f.glyphs
  {
    DecodedWritable(b);
    DecodeHeader(b);
    EncodedGlyphs(Decode(b).value, t);
    EncodedHeader(Decode(b).value, t);
  }
}
