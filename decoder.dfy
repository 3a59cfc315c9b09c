/**
 * `readPSF`: PSF2 bytes to a `Psf` font. `Decode` is the specification, a
 * function of the bytes; `ReadPsf` walks the bytes with the loops and the
 * `ptr` cursor of the source and is proved to build exactly `Decode`'s font.
 */
module Decoder {
  import opened Arith
  import opened Bytes
  import opened Wrappers
  import opened Font
  import opened Rows
  import opened Table
  import Utf8

  /** The seven header fields after the magic number, in file order. */
  datatype Header = Header(
    version: nat,
    headerSize: nat,
    flags: nat,
    length: nat,
    charSize: nat,
    height: nat,
    width: nat)

  /** `int.from_bytes(binary[off:off + 4], 'little')`. */
  function U32At(b: seq<Byte>, off: nat): (r: nat)
    ensures r < U32_LIMIT
  {
    var s := PySlice(b, off, off + 4);
    Pow2Monotone(8 * |s|, 32);
    Pow2FourBytes();
    FromLE(s)
  }

  /** The header fields at byte offsets 4, 8, ..., 28. */
  function ParseHeader(b: seq<Byte>): Header
  {
    Header(U32At(b, 4), U32At(b, 8), U32At(b, 12), U32At(b, 16), U32At(b, 20), U32At(b, 24), U32At(b, 28))
  }

  /** The header passes the charSize check and `charSize // height` does not divide by zero. */
  predicate SizesValid(h: Header)
  {
    h.charSize == CharSize(h.height, h.width) && h.height > 0
  }

  /** `rowSize = charSize // height`. */
  function RowSize(h: Header): (r: nat)
    requires SizesValid(h)
    ensures r == RowBytes(h.width) && h.width <= 8 * r
  {
    RowSizeFromCharSize(h.height, h.width);
    RowBytesFits(h.width);
    h.charSize / h.height
  }

  /** Where row y of glyph i starts: `headerSize + charSize * i + rowSize * y`. */
  function RowStart(h: Header, rowSize: nat, i: nat, y: nat): nat
  {
    h.headerSize + h.charSize * i + rowSize * y
  }

  /** Row y of glyph i: the bytes from its start to the next row's start, unpacked. */
  function DecodeRow(b: seq<Byte>, h: Header, rowSize: nat, i: nat, y: nat): (r: seq<nat>)
    requires h.width <= 8 * rowSize
  {
    UnpackRow(PySlice(b, RowStart(h, rowSize, i, y), RowStart(h, rowSize, i, y + 1)), rowSize, h.width)
  }

  /** Rows 0 to n - 1 of glyph i. */
  function RowList(b: seq<Byte>, h: Header, rowSize: nat, i: nat, n: nat): (r: seq<seq<nat>>)
    requires h.width <= 8 * rowSize
    ensures |r| == n && forall y :: 0 <= y < n ==> |r[y]| == h.width && Binary(r[y])
  {
    seq(n, y requires 0 <= y < n => DecodeRow(b, h, rowSize, i, y))
  }

  /** The first n rows of glyph i, concatenated top to bottom. */
  function GlyphRows(b: seq<Byte>, h: Header, rowSize: nat, i: nat, n: nat): (r: seq<nat>)
    requires h.width <= 8 * rowSize
    ensures |r| == n * h.width && Binary(r)
  {
    var rows := RowList(b, h, rowSize, i, n);
    ConcatLength(rows, h.width);
    ConcatBinary(rows);
    Concat(rows)
  }

  /** Glyph i: all `height` rows. */
  function Glyph(b: seq<Byte>, h: Header, i: nat): seq<nat>
    requires SizesValid(h)
  {
    GlyphRows(b, h, RowSize(h), i, h.height)
  }

  /** All `length` glyphs. */
  function Glyphs(b: seq<Byte>, h: Header): seq<seq<nat>>
    requires SizesValid(h)
  {
    seq(h.length, i requires 0 <= i < h.length => Glyph(b, h, i))
  }

  /** `unicodeStart = headerSize + charSize * length`: the table follows the last glyph. */
  function TableStart(h: Header): nat
  {
    h.headerSize + h.charSize * h.length
  }

  /** The unicode table walk of the whole font: `length` entries from TableStart. */
  function WalkFont(b: seq<Byte>, h: Header): Result<Walked, Error>
  {
    WalkTable(b, TableStart(h), 0, h.length, map[])
  }

  /** What readPSF returns for the bytes b, or the error it raises. */
  function Decode(b: seq<Byte>): Result<FontImage, Error>
  {
    if FromLE(PySlice(b, 0, 2)) == PSF1_MAGIC_NUMBER then Err(Psf1Unsupported)
    else if FromLE(PySlice(b, 0, 4)) != PSF2_MAGIC_NUMBER then Err(BadMagic)
    else
      var h := ParseHeader(b);
      if h.charSize != CharSize(h.height, h.width) then Err(BadCharSize)
      else if h.height == 0 then Err(ZeroHeight)
      else if !HasUnicode(h.flags) then Err(NoUnicodeTable)
      else
        match WalkFont(b, h)
        case Err(e) => Err(e)
        case Ok(w) => Ok(FontImage(h.version, h.flags, h.charSize, h.height, h.width, h.length, Glyphs(b, h), w.charMap))
  }

  /** The pixel loops of readPSF for glyph i0: each row's bytes, big-endian, shifted past the padding, read MSB first. */
  method ReadGlyph(binary: seq<Byte>, h: Header, rowSize: nat, i0: nat) returns (pixels: seq<nat>)
    requires h.width <= 8 * rowSize
    ensures pixels == GlyphRows(binary, h, rowSize, i0, h.height)
    ensures SizesValid(h) && rowSize == RowSize(h) ==> pixels == Glyph(binary, h, i0)
  {
    pixels := [];
    for y := 0 to h.height
      invariant pixels == GlyphRows(binary, h, rowSize, i0, y)
    {
      var rowBytes := PySlice(binary, RowStart(h, rowSize, i0, y), RowStart(h, rowSize, i0, y + 1));
      var rowInt := FromBE(rowBytes);
      rowInt := Shr(rowInt, 8 * rowSize - h.width);
      var row := ReadRow(rowInt, h.width);
      GlyphRowsStep(binary, h, rowSize, i0, y);
      pixels := pixels + row;
    }
  }

  /** The innermost pixel loop: bit i1 of the row value for i1 from width - 1 down to 0. */
  method ReadRow(rowInt: nat, width: nat) returns (pixels: seq<nat>)
    ensures pixels == RowPixels(rowInt, width)
  {
    pixels := [];
    ghost var row := RowPixels(rowInt, width);
    for i1 := width downto 0
      invariant pixels == row[..width - i1]
    {
      assert row[..width - i1] == row[..width - i1 - 1] + [Bit(rowInt, i1)];
      pixels := pixels + [Bit(rowInt, i1)];
    }
    assert row[..width] == row;
  }

  /** One run of the unicode table: its bytes, the PSF2_SEQ or PSF2_SEP that ends it, and the position after that. */
  datatype Run = Run(data: seq<Byte>, byte: Byte, next: nat)

  /**
   * The innermost table loop of readPSF: bytes from ptr are collected until
   * PSF2_SEQ or PSF2_SEP; reading past the end of the bytes fails.
   */
  method ReadRun(binary: seq<Byte>, ptr: nat) returns (r: Result<Run, Error>)
    ensures match ScanRun(binary, ptr)
            case None => r == Err(TruncatedTable)
            case Some(q) => r == Ok(Run(binary[ptr..q], binary[q], q + 1))
  {
    var p := ptr;
    if p >= |binary| {
      return Err(TruncatedTable);
    }
    var byte := binary[p];
    p := p + 1;
    var data: seq<Byte> := [];
    while !(byte == PSF2_SEQ || byte == PSF2_SEP)
      invariant ptr < p <= |binary| && byte == binary[p - 1]
      invariant data == binary[ptr..p - 1]
      invariant ScanRun(binary, ptr) == ScanRun(binary, p - 1)
      decreases |binary| - p
    {
      data := data + [byte];
      if p >= |binary| {
        return Err(TruncatedTable);
      }
      byte := binary[p];
      p := p + 1;
    }
    return Ok(Run(data, byte, p));
  }

  /** `for char in chars: font.charMap[char] = i`. */
  method AssignChars(font: Psf, chars: seq<char>, i: nat)
    modifies font`charMap
    ensures font.charMap == MapChars(old(font.charMap), chars, i)
  {
    ghost var m0 := font.charMap;
    for k := 0 to |chars|
      invariant MapChars(font.charMap, chars[k..], i) == MapChars(m0, chars, i)
    {
      assert chars[k..][1..] == chars[k + 1..];
      font.charMap := font.charMap[chars[k] := i];
    }
  }

  /**
   * The runs of entry i: each run that is UTF-8 maps its characters to glyph
   * i (one that is not is skipped with a warning), until the PSF2_SEP that
   * ends the entry. Returns the position after that separator.
   */
  method ReadEntry(binary: seq<Byte>, font: Psf, ptr: nat, i: nat) returns (r: Result<nat, Error>)
    modifies font`charMap
    ensures match WalkEntry(binary, ptr, i, old(font.charMap))
            case Err(e) => r == Err(e)
            case Ok(w) => r == Ok(w.ptr) && font.charMap == w.charMap
  {
    ghost var entry := WalkEntry(binary, ptr, i, font.charMap);
    var p := ptr;
    var byte: int := -1;
    while byte != PSF2_SEP
      invariant byte == -1 || byte == PSF2_SEQ || byte == PSF2_SEP
      invariant byte != PSF2_SEP ==> WalkEntry(binary, p, i, font.charMap) == entry
      invariant byte == PSF2_SEP ==> entry == Ok(Walked(font.charMap, p))
      invariant byte != -1 ==> ptr < p
      decreases |binary| - p
    {
      var run := ReadRun(binary, p);
      if run.Err? {
        return Err(run.error);
      }
      p, byte := run.value.next, run.value.byte;
      var chars := Utf8.Decode(run.value.data);
      if chars.Some? {
        AssignChars(font, chars.value, i);
      }
      // otherwise the run is not UTF-8: readPSF warns and skips it
    }
    return Ok(p);
  }

  /** The unicode table loop of readPSF: entries 0 to length - 1 from unicodeStart. */
  method ReadTable(binary: seq<Byte>, font: Psf, unicodeStart: nat, length: nat) returns (r: Outcome<Error>)
    modifies font`charMap
    ensures match WalkTable(binary, unicodeStart, 0, length, old(font.charMap))
            case Err(e) => r == Fail(e)
            case Ok(w) => r == Pass && font.charMap == w.charMap
  {
    ghost var walk := WalkTable(binary, unicodeStart, 0, length, font.charMap);
    var ptr: nat := unicodeStart;
    for i := 0 to length
      invariant WalkTable(binary, ptr, i, length, font.charMap) == walk
    {
      var next := ReadEntry(binary, font, ptr, i);
      if next.Err? {
        return Fail(next.error);
      }
      ptr := next.value;
    }
    return Pass;
  }

  /** The glyph loop of readPSF: every glyph's pixels, added to the font in order. */
  method ReadGlyphs(binary: seq<Byte>, h: Header, rowSize: nat, font: Psf)
    requires SizesValid(h) && rowSize == RowSize(h)
    requires font.Image() == FontImage(h.version, h.flags, h.charSize, h.height, h.width, h.length, [], map[])
    modifies font`glyphs
    ensures font.Image() == FontImage(h.version, h.flags, h.charSize, h.height, h.width, h.length, Glyphs(binary, h), map[])
    ensures font.Valid()
  {
    for i0 := 0 to h.length
      invariant font.glyphs == GlyphsBelow(binary, h, i0)
      invariant font.Valid()
    {
      var pixels := ReadGlyph(binary, h, rowSize, i0);
      GlyphsBelowStep(binary, h, i0);
      var added := font.AddGlyph(pixels);
      // the glyph has height * width pixels and fewer than length glyphs are present
      assert added == Pass;
    }
    GlyphsBelowAll(binary, h);
  }

  /** Glyphs 0 to n - 1. */
  function GlyphsBelow(b: seq<Byte>, h: Header, n: nat): (r: seq<seq<nat>>)
    requires SizesValid(h) && n <= h.length
  {
    Glyphs(b, h)[..n]
  }

  /** Glyph n follows glyphs 0 to n - 1, and it has height * width pixels. */
  lemma GlyphsBelowStep(b: seq<Byte>, h: Header, n: nat)
    requires SizesValid(h) && n < h.length
    ensures GlyphsBelow(b, h, n + 1) == GlyphsBelow(b, h, n) + [Glyph(b, h, n)]
    ensures |GlyphsBelow(b, h, n)| == n && |Glyph(b, h, n)| == h.height * h.width
  {
    var all := Glyphs(b, h);
    assert all[..n + 1] == all[..n] + [all[n]];
  }

  /** All glyphs below length are all the glyphs. */
  lemma GlyphsBelowAll(b: seq<Byte>, h: Header)
    requires SizesValid(h)
    ensures GlyphsBelow(b, h, h.length) == Glyphs(b, h)
  {
    assert Glyphs(b, h)[..h.length] == Glyphs(b, h);
  }

  /** `readPSF(binary)`: the font the bytes describe, or the error readPSF raises. */
  method ReadPsf(binary: seq<Byte>) returns (r: Result<Psf, Error>)
    ensures r.Err? ==> Decode(binary) == Err(r.error)
    ensures r.Ok? ==> fresh(r.value) && Decode(binary) == Ok(r.value.Image()) && r.value.Valid()
  {
    if FromLE(PySlice(binary, 0, 2)) == PSF1_MAGIC_NUMBER {
      return Err(Psf1Unsupported);
    } else if FromLE(PySlice(binary, 0, 4)) == PSF2_MAGIC_NUMBER {
      var version := U32At(binary, 4);
      var headerSize := U32At(binary, 8);
      var flags := U32At(binary, 12);
      var length := U32At(binary, 16);
      var charSize := U32At(binary, 20);
      var height := U32At(binary, 24);
      var width := U32At(binary, 28);
      var font := new Psf(version, flags, height, width, length);
      if charSize != font.charSize {
        return Err(BadCharSize);
      }
      if height == 0 {
        // `charSize // height` raises ZeroDivisionError
        return Err(ZeroHeight);
      }
      var h := Header(version, headerSize, flags, length, charSize, height, width);
      assert h == ParseHeader(binary) && SizesValid(h);
      var rowSize := RowSize(h);
      ReadGlyphs(binary, h, rowSize, font);
      if HasUnicode(flags) {
        var unicodeStart := TableStart(h);
        var walked := ReadTable(binary, font, unicodeStart, length);
        if walked.Fail? {
          return Err(walked.error);
        }
      } else {
        return Err(NoUnicodeTable);
      }
      return Ok(font);
    } else {
      return Err(BadMagic);
    }
  }

  /** The PSF1 magic number as it sits in a file: 0x0435, little-endian. */
  predicate Psf1Bytes(b: seq<Byte>)
  {
    |b| >= 2 && b[..2] == [0x35, 0x04]
  }

  /** The PSF2 magic number as it sits in a file: 0x864AB572, little-endian. */
  predicate Psf2Bytes(b: seq<Byte>)
  {
    |b| >= 4 && b[..4] == [0x72, 0xB5, 0x4A, 0x86]
  }

  /** Bytes 0 and 1 read as 0x0435 exactly when they are 35 04; a shorter buffer reads as less. */
  lemma Psf1Prefix(b: seq<Byte>)
    ensures FromLE(PySlice(b, 0, 2)) == PSF1_MAGIC_NUMBER <==> Psf1Bytes(b)
  {
    var s := PySlice(b, 0, 2);
    Pow2Byte(0);
    Pow2Byte(1);
    if |b| >= 2 {
      assert s == b[..2];
      if FromLE(s) == PSF1_MAGIC_NUMBER {
        ToFromLE(s);
        assert s == ToLE(0x0435, 2);
      }
      if Psf1Bytes(b) {
        assert FromLE(s) == 0x35 + 256 * FromLE([0x04]);
      }
    } else {
      Pow2Monotone(8 * |s|, 8);
    }
  }

  /** Bytes 0 to 3 read as 0x864AB572 exactly when they are 72 B5 4A 86; a shorter buffer reads as less. */
  lemma Psf2Prefix(b: seq<Byte>)
    ensures FromLE(PySlice(b, 0, 4)) == PSF2_MAGIC_NUMBER <==> Psf2Bytes(b)
  {
    var s := PySlice(b, 0, 4);
    if |b| >= 4 {
      assert s == b[..4];
      FromLEFour(s);
    } else {
      Pow2Byte(0);
      Pow2Byte(1);
      Pow2Byte(2);
      Pow2Monotone(8 * |s|, 24);
    }
  }

  /** Four bytes read little-endian. */
  lemma FromLEFour(s: seq<Byte>)
    requires |s| == 4
    ensures FromLE(s) == s[0] as int + 256 * s[1] as int + 65536 * s[2] as int + 16777216 * s[3] as int
  {
    assert FromLE(s[3..]) == s[3] + 256 * FromLE(s[4..]);
    assert FromLE(s[2..]) == s[2] + 256 * FromLE(s[3..]);
    assert FromLE(s[1..]) == s[1] + 256 * FromLE(s[2..]);
  }

  /**
   * The magic number decides the first two outcomes: a PSF1 prefix is
   * rejected as unsupported, a buffer with neither prefix as a bad magic
   * number, and every font read starts with the PSF2 prefix.
   */
  lemma DecodeMagic(b: seq<Byte>)
    ensures Decode(b) == Err(Psf1Unsupported) <==> Psf1Bytes(b)
    ensures Decode(b) == Err(BadMagic) <==> !Psf1Bytes(b) && !Psf2Bytes(b)
    ensures Decode(b).Ok? ==> Psf2Bytes(b)
  {
    Psf1Prefix(b);
    Psf2Prefix(b);
    DecodeErrorKinds(b);
  }

  /** readPSF fails only on the magic number, the header sizes, a missing table or a truncated table; addGlyph never fails in it. */
  lemma DecodeErrorKinds(b: seq<Byte>)
    ensures Decode(b).Err? ==> Decode(b).error in {Psf1Unsupported, BadMagic, BadCharSize, ZeroHeight, NoUnicodeTable, TruncatedTable}
    ensures Psf2Bytes(b) && Decode(b).Err? ==> Decode(b).error != BadMagic && Decode(b).error != Psf1Unsupported
  {
    if Decode(b).Err? {
      var h := ParseHeader(b);
      DecodeErr(b);
      if WalkFont(b, h).Err? {
        WalkTableError(b, TableStart(h), 0, h.length, map[]);
      }
      if Psf2Bytes(b) {
        Psf1Prefix(b);
        Psf2Prefix(b);
      }
    }
  }

  /**
   * Which test of readPSF a read stops at, in the source's order: the PSF1
   * magic, the PSF2 magic, charSize, a zero height (the division), the
   * unicode flag, then the table walk; each error exactly when every earlier
   * test passed and its own failed.
   */
  lemma DecodeErr(b: seq<Byte>)
    ensures var h, p1, p2 := ParseHeader(b), FromLE(PySlice(b, 0, 2)) == PSF1_MAGIC_NUMBER, FromLE(PySlice(b, 0, 4)) == PSF2_MAGIC_NUMBER;
      && (Decode(b) == Err(Psf1Unsupported) <==> p1)
      && (Decode(b) == Err(BadMagic) <==> !p1 && !p2)
      && (Decode(b) == Err(BadCharSize) <==> !p1 && p2 && h.charSize != CharSize(h.height, h.width))
      && (Decode(b) == Err(ZeroHeight) <==> !p1 && p2 && h.charSize == CharSize(h.height, h.width) && h.height == 0)
      && (Decode(b) == Err(NoUnicodeTable) <==> !p1 && p2 && SizesValid(h) && !HasUnicode(h.flags))
      && (Decode(b) == Err(TruncatedTable) <==> !p1 && p2 && SizesValid(h) && HasUnicode(h.flags) && WalkFont(b, h).Err?)
      && (Decode(b).Ok? <==> !p1 && p2 && SizesValid(h) && HasUnicode(h.flags) && WalkFont(b, h).Ok?)
  {
    var h := ParseHeader(b);
    if WalkFont(b, h).Err? {
      WalkTableError(b, TableStart(h), 0, h.length, map[]);
    }
  }

  /**
   * A read fails on a truncated table exactly when the header and flag tests
   * pass, there is at least one glyph, and fewer than `length` PSF2_SEP bytes
   * lie from the table start `headerSize + charSize * length` to the end of
   * the file (none at all when the table start is past the end).
   */
  lemma DecodeTruncated(b: seq<Byte>)
    ensures var h, p1, p2 := ParseHeader(b), FromLE(PySlice(b, 0, 2)) == PSF1_MAGIC_NUMBER, FromLE(PySlice(b, 0, 4)) == PSF2_MAGIC_NUMBER;
      Decode(b) == Err(TruncatedTable) <==>
        && !p1 && p2 && SizesValid(h) && HasUnicode(h.flags) && h.length > 0
        && (TableStart(h) > |b| || multiset(b[TableStart(h)..])[PSF2_SEP] < h.length)
  {
    var h := ParseHeader(b);
    DecodeErr(b);
    if TableStart(h) <= |b| {
      WalkTableFound(b, TableStart(h), 0, h.length, map[]);
    } else if h.length > 0 {
      WalkTablePastEnd(b, TableStart(h), 0, h.length, map[]);
    }
  }

  /** A PSF2 header claiming height 8, width 8 and charSize 2 (8 is right) is rejected for its charSize. */
  lemma BadCharSizeExample(b: seq<Byte>)
    requires Psf2Bytes(b)
    requires ParseHeader(b).height == 8 && ParseHeader(b).width == 8 && ParseHeader(b).charSize == 2
    ensures Decode(b) == Err(BadCharSize)
  {
    Psf1Prefix(b);
    Psf2Prefix(b);
    assert CharSize(8, 8) == 8;
  }

  /** A font read has the header's fields, a charSize that matches its shape, a nonzero height and the unicode flag. */
  lemma DecodeHeader(b: seq<Byte>)
    requires Decode(b).Ok?
    ensures var f, h := Decode(b).value, ParseHeader(b);
      && f.version == h.version && f.flags == h.flags && f.length == h.length
      && f.charSize == h.charSize && f.height == h.height && f.width == h.width
      && f.charSize == CharSize(f.height, f.width) && f.height > 0 && HasUnicode(f.flags)
      && f.version < U32_LIMIT && f.flags < U32_LIMIT && f.length < U32_LIMIT
      && f.height < U32_LIMIT && f.width < U32_LIMIT
  {
    DecodeOk(b);
  }

  /** A font read holds exactly `length` glyphs, each of height * width pixels that are 0 or 1. */
  lemma DecodeGlyphs(b: seq<Byte>)
    requires Decode(b).Ok?
    ensures var f := Decode(b).value;
      && |f.glyphs| == f.length
      && GlyphsFit(f.glyphs, f.height, f.width, f.length)
      && forall i :: 0 <= i < |f.glyphs| ==> Binary(f.glyphs[i])
  {
    DecodeOk(b);
  }

  /** One more row of glyph i is appended after the rows before it. */
  lemma GlyphRowsStep(b: seq<Byte>, h: Header, rowSize: nat, i: nat, y: nat)
    requires h.width <= 8 * rowSize
    ensures GlyphRows(b, h, rowSize, i, y + 1) == GlyphRows(b, h, rowSize, i, y) + DecodeRow(b, h, rowSize, i, y)
  {
    var rows := RowList(b, h, rowSize, i, y + 1);
    assert rows[..y] == RowList(b, h, rowSize, i, y);
    assert rows[y] == DecodeRow(b, h, rowSize, i, y);
  }

  /** Pixel x of row y sits at index y * width + x of the glyph's pixel list. */
  lemma GlyphRowsAt(b: seq<Byte>, h: Header, rowSize: nat, i: nat, n: nat, y: nat, x: nat)
    requires h.width <= 8 * rowSize && y < n && x < h.width
    ensures 0 <= y * h.width + x < n * h.width
    ensures GlyphRows(b, h, rowSize, i, n)[y * h.width + x] == DecodeRow(b, h, rowSize, i, y)[x]
  {
    var rows := RowList(b, h, rowSize, i, n);
    MulMonotone(h.width, 0, y);
    ConcatAt(rows, h.width, y, x);
    assert GlyphRows(b, h, rowSize, i, n) == Concat(rows);
    assert rows[y] == DecodeRow(b, h, rowSize, i, y);
  }

  /** Pixel x of a decoded row is bit 7 - x % 8 of byte x / 8 of the row, when the whole row is present. */
  lemma DecodeRowPixel(b: seq<Byte>, h: Header, rowSize: nat, i: nat, y: nat, x: nat)
    requires h.width <= 8 * rowSize && x < h.width
    requires RowStart(h, rowSize, i, y + 1) <= |b|
    ensures RowStart(h, rowSize, i, y) + x / 8 < |b|
    ensures DecodeRow(b, h, rowSize, i, y)[x] == Bit(b[RowStart(h, rowSize, i, y) + x / 8], 7 - x % 8)
  {
    var lo, hi := RowStart(h, rowSize, i, y), RowStart(h, rowSize, i, y + 1);
    assert hi == lo + rowSize;
    var row := PySlice(b, lo, hi);
    assert |row| == rowSize;
    UnpackRowPixel(row, h.width, x);
    assert row[x / 8] == b[lo + x / 8];
  }

  /**
   * Pixel (x, y) of the glyph at headerSize + charSize * i is bit 7 - x % 8
   * of byte x / 8 of its row y, the row starting at headerSize + charSize * i
   * + rowSize * y: most significant bit first, rows padded to whole bytes.
   */
  lemma GlyphPixel(b: seq<Byte>, h: Header, rowSize: nat, i: nat, y: nat, x: nat)
    requires h.width <= 8 * rowSize && y < h.height && x < h.width
    requires RowStart(h, rowSize, i, y + 1) <= |b|
    ensures 0 <= y * h.width + x < h.height * h.width
    ensures RowStart(h, rowSize, i, y) + x / 8 < |b|
    ensures GlyphRows(b, h, rowSize, i, h.height)[y * h.width + x] == Bit(b[RowStart(h, rowSize, i, y) + x / 8], 7 - x % 8)
  {
    GlyphRowsAt(b, h, rowSize, i, h.height, y, x);
    DecodeRowPixel(b, h, rowSize, i, y, x);
  }

  /** What a successful read is made of: the header's fields, its glyphs and its table walk. */
  lemma DecodeOk(b: seq<Byte>)
    requires Decode(b).Ok?
    ensures var h := ParseHeader(b);
      && FromLE(PySlice(b, 0, 2)) != PSF1_MAGIC_NUMBER && FromLE(PySlice(b, 0, 4)) == PSF2_MAGIC_NUMBER
      && SizesValid(h) && HasUnicode(h.flags) && WalkFont(b, h).Ok?
      && Decode(b).value == FontImage(h.version, h.flags, h.charSize, h.height, h.width, h.length, Glyphs(b, h), WalkFont(b, h).value.charMap)
  {
  }

  /**
   * The character map of a font read comes from a walk that consumes exactly
   * `length` PSF2_SEP bytes from the table start and ends just after one;
   * every character maps to a glyph that exists.
   */
  lemma DecodeCharMap(b: seq<Byte>)
    requires Decode(b).Ok?
    ensures var f, h := Decode(b).value, ParseHeader(b);
      && WalkFont(b, h).Ok?
      && var w := WalkFont(b, h).value;
      && f.charMap == w.charMap
      && (forall c :: c in f.charMap ==> f.charMap[c] < f.length)
      && (f.length > 0 ==>
            TableStart(h) < w.ptr <= |b| && b[w.ptr - 1] == PSF2_SEP
            && multiset(b[TableStart(h)..w.ptr])[PSF2_SEP] == f.length)
  {
    var h := ParseHeader(b);
    DecodeOk(b);
    WalkFontBounds(b, h);
  }

  /** A whole-table walk consumes `length` PSF2_SEP bytes from the table start and maps only to glyphs below `length`. */
  lemma WalkFontBounds(b: seq<Byte>, h: Header)
    requires WalkFont(b, h).Ok?
    ensures var w := WalkFont(b, h).value;
      && (forall c :: c in w.charMap ==> w.charMap[c] < h.length)
      && (h.length > 0 ==>
            TableStart(h) < w.ptr <= |b| && b[w.ptr - 1] == PSF2_SEP
            && multiset(b[TableStart(h)..w.ptr])[PSF2_SEP] == h.length)
  {
    WalkTableKeys(b, TableStart(h), 0, h.length, map[]);
    WalkTableEnd(b, TableStart(h), 0, h.length, map[]);
  }

  /**
   * Pixel (x, y) of glyph i of a font read, when the file holds that whole
   * row, is bit 7 - x % 8 of byte headerSize + charSize * i + rowSize * y
   * + x / 8: most significant bit first, rows padded to whole bytes.
   */
  lemma DecodePixel(b: seq<Byte>, i: nat, y: nat, x: nat)
    requires Decode(b).Ok?
    requires var h := ParseHeader(b); i < h.length && y < h.height && x < h.width
    requires var h := ParseHeader(b); RowStart(h, RowBytes(h.width), i, y + 1) <= |b|
    ensures var g, h := Decode(b).value.glyphs, ParseHeader(b);
      && i < |g| && 0 <= y * h.width + x < |g[i]|
      && RowStart(h, RowBytes(h.width), i, y) + x / 8 < |b|
      && g[i][y * h.width + x] == Bit(b[RowStart(h, RowBytes(h.width), i, y) + x / 8], 7 - x % 8)
  {
    var h := ParseHeader(b);
    DecodeOk(b);
    var g := Glyphs(b, h);
    assert g[i] == Glyph(b, h, i);
    PixelOfGlyph(g[i], b, h, i, y, x);
  }

  /** The bit rule of GlyphPixel for a glyph given as the decoded rows of glyph i. */
  lemma PixelOfGlyph(g: seq<nat>, b: seq<Byte>, h: Header, i: nat, y: nat, x: nat)
    requires SizesValid(h) && y < h.height && x < h.width
    requires g == GlyphRows(b, h, RowBytes(h.width), i, h.height)
    requires RowStart(h, RowBytes(h.width), i, y + 1) <= |b|
    ensures 0 <= y * h.width + x < |g|
    ensures RowStart(h, RowBytes(h.width), i, y) + x / 8 < |b|
    ensures g[y * h.width + x] == Bit(b[RowStart(h, RowBytes(h.width), i, y) + x / 8], 7 - x % 8)
  {
    RowBytesFits(h.width);
    MulMonotone(h.width, 0, y);
    GlyphPixel(b, h, RowBytes(h.width), i, y, x);
  }

  /**
   * Which glyph each character of a font read names: cut the table at
   * headerSize + charSize * length into its `length` entries and their runs
   * as the walk does; a character is in the map exactly when some entry
   * holds it in a run that decodes, and it maps to j exactly when entry j is
   * the last entry holding it.
   */
  lemma DecodeCharMapLast(b: seq<Byte>)
    requires Decode(b).Ok?
    ensures TableRuns(b, TableStart(ParseHeader(b)), 0, ParseHeader(b).length).Some?
    ensures var f, es := Decode(b).value, TableRuns(b, TableStart(ParseHeader(b)), 0, ParseHeader(b).length).value.entries;
      && |es| == f.length
      && (forall c :: c in f.charMap <==> exists j: nat :: LastHolder(es, j, c))
      && (forall c, j: nat :: c in f.charMap && f.charMap[c] == j <==> LastHolder(es, j, c))
  {
    var h := ParseHeader(b);
    DecodeOk(b);
    WalkTableRuns(b, TableStart(h), 0, h.length, map[]);
    var es := TableRuns(b, TableStart(h), 0, h.length).value.entries;
    MapEntriesSpec(map[], es, 0);
  }
}
