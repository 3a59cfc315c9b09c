/**
 * `writePSF`: a font to PSF2 bytes. `Encode` is the specification, a function
 * of the font's fields; `WritePsf` grows the output with the loops of the
 * source and is proved to produce exactly `Encode`'s bytes.
 *
 * Two places differ from the source text, which cannot run as written:
 * charSize is written as a 4-byte little-endian field like the others (the
 * source appends the bare integer, a TypeError), and each row is packed most
 * significant pixel first and shifted left over the padding bits (the source
 * discards both of its shifts). `PackRowAsWritten` keeps the packing as
 * written, beside the lemma that shows what it produces.
 */
module Encoder {
  import opened Arith
  import opened Bytes
  import opened Wrappers
  import opened Font
  import opened Rows

  /** `font.width // 8 + (1 if font.width % 8 else 0)`: the writer's row size. */
  function WriterRowSize(width: nat): nat
  {
    width / 8 + if width % 8 != 0 then 1 else 0
  }

  /** The writer's row size is the reader's and the constructor's: the fewest bytes that hold a row. */
  lemma WriterRowSizeAgrees(width: nat)
    ensures WriterRowSize(width) == RowBytes(width)
    ensures width <= 8 * WriterRowSize(width)
  {
    RowBytesFits(width);
  }

  /** `x.to_bytes(4, 'little')` for a value that fits. */
  function U32Bytes(x: nat): (r: seq<Byte>)
    requires x < U32_LIMIT
    ensures |r| == 4
  {
    Pow2FourBytes();
    ToLE(x, 4)
  }


  /** Appending one piece of output to the output so far; None once either raised OverflowError. */
  function Append(acc: Option<seq<Byte>>, piece: Option<seq<Byte>>): Option<seq<Byte>>
  {
    if acc.Some? && piece.Some? then Some(acc.value + piece.value) else None
  }

  /** `binary += piece` for every piece in order, starting from `b''`. */
  function Joined(pieces: seq<Option<seq<Byte>>>): Option<seq<Byte>>
  {
    if pieces == [] then Some([]) else Append(Joined(pieces[..|pieces| - 1]), pieces[|pieces| - 1])
  }

  /** Joining the first k + 1 pieces appends piece k to the first k joined. */
  lemma JoinedPrefix(pieces: seq<Option<seq<Byte>>>, k: nat)
    requires k < |pieces|
    ensures Joined(pieces[..k + 1]) == Append(Joined(pieces[..k]), pieces[k])
  {
    assert pieces[..k + 1][..k] == pieces[..k];
  }

  /** The output is written exactly when no piece overflows. */
  lemma {:induction false} JoinedSome(pieces: seq<Option<seq<Byte>>>)
    ensures Joined(pieces).Some? <==> forall k :: 0 <= k < |pieces| ==> pieces[k].Some?
    decreases |pieces|
  {
    if pieces != [] {
      var init := pieces[..|pieces| - 1];
      JoinedSome(init);
      assert forall k :: 0 <= k < |init| ==> init[k] == pieces[k];
    }
  }

  /** Bytes c * j to c * j + c of s: block j when s is cut into blocks of c bytes. */
  function Block(s: seq<Byte>, c: nat, j: nat): (r: seq<Byte>)
    requires c * j + c <= |s|
    ensures |r| == c
  {
    s[c * j..c * j + c]
  }

  /** In n blocks of c bytes followed by more bytes, block j < n is unchanged. */
  lemma BlockLeft(e: seq<Byte>, g: seq<Byte>, c: nat, n: nat, j: nat)
    requires |e| == c * n && j < n
    ensures c * j + c <= |e| && Block(e + g, c, j) == Block(e, c, j)
  {
    MulMonotone(c, j + 1, n);
    assert c * (j + 1) == c * j + c;
  }

  /** After n blocks of c bytes, block n is the block appended. */
  lemma BlockRight(e: seq<Byte>, g: seq<Byte>, c: nat, n: nat)
    requires |e| == c * n && |g| == c
    ensures |e + g| == c * (n + 1) && Block(e + g, c, n) == g
  {
    assert c * (n + 1) == c * n + c;
  }

  /**
   * Pieces of c bytes each join into c bytes per piece, and piece j is
   * block j of the result.
   */
  lemma {:induction false} JoinedAt(pieces: seq<Option<seq<Byte>>>, c: nat)
    requires Joined(pieces).Some?
    requires forall k :: 0 <= k < |pieces| && pieces[k].Some? ==> |pieces[k].value| == c
    ensures |Joined(pieces).value| == c * |pieces|
    ensures forall j :: 0 <= j < |pieces| ==>
      pieces[j].Some? && c * j + c <= |Joined(pieces).value| && Block(Joined(pieces).value, c, j) == pieces[j].value
    decreases |pieces|
  {
    if pieces != [] {
      var n := |pieces| - 1;
      var init := pieces[..n];
      assert forall k :: 0 <= k < |init| ==> init[k] == pieces[k];
      JoinedAt(init, c);
      var e, last := Joined(init).value, pieces[n].value;
      BlockRight(e, last, c, n);
      forall j | 0 <= j < n
        ensures c * j + c <= |e + last| && Block(e + last, c, j) == pieces[j].value
      {
        BlockLeft(e, last, c, n, j);
      }
    }
  }

  /** `x.to_bytes(4, 'little')`, or None where Python raises OverflowError. */
  function U32Field(x: nat): Option<seq<Byte>>
  {
    if x < U32_LIMIT then Some(U32Bytes(x)) else None
  }

  /** The four-byte encodings of the values, in order. */
  function FieldPieces(xs: seq<nat>): (r: seq<Option<seq<Byte>>>)
    ensures |r| == |xs|
  {
    seq(|xs|, k requires 0 <= k < |xs| => U32Field(xs[k]))
  }

  /** Each value as `to_bytes(4, 'little')`, concatenated; None if one raises OverflowError. */
  function U32Fields(xs: seq<nat>): Option<seq<Byte>>
  {
    Joined(FieldPieces(xs))
  }

  /** The values are written exactly when every one of them is below 2^32. */
  lemma U32FieldsSome(xs: seq<nat>)
    ensures U32Fields(xs).Some? <==> forall k :: 0 <= k < |xs| ==> xs[k] < U32_LIMIT
  {
    var pieces := FieldPieces(xs);
    JoinedSome(pieces);
    assert forall k :: 0 <= k < |xs| ==> (pieces[k].Some? <==> xs[k] < U32_LIMIT);
  }

  /** Written values take four bytes each, and field k reads back from bytes 4k to 4k + 3. */
  lemma U32FieldsAt(xs: seq<nat>)
    requires U32Fields(xs).Some?
    ensures |U32Fields(xs).value| == 4 * |xs|
    ensures forall k :: 0 <= k < |xs| ==> 4 * k + 4 <= |U32Fields(xs).value| && FromLE(Block(U32Fields(xs).value, 4, k)) == xs[k]
  {
    var pieces := FieldPieces(xs);
    JoinedAt(pieces, 4);
    Pow2FourBytes();
    forall k | 0 <= k < |xs| ensures 4 * k + 4 <= |U32Fields(xs).value| && FromLE(Block(U32Fields(xs).value, 4, k)) == xs[k] {
      assert pieces[k].Some?;
      FromToLE(xs[k], 4);
    }
  }

  /** The header values in file order: magic, version, headerSize 32, flags, length, charSize, height, width. */
  function HeaderFields(f: FontImage): seq<nat>
  {
    [PSF2_MAGIC_NUMBER, f.version, HEADER_SIZE, f.flags, f.length,
     f.height * WriterRowSize(f.width), f.height, f.width]
  }

  /** `glyph[font.width * y : font.width * (y + 1)]`: the pixels of row y. */
  function RowBits(glyph: seq<nat>, width: nat, y: nat): seq<nat>
  {
    PySlice(glyph, width * y, width * (y + 1))
  }


  /** Row y of a glyph packed into rowSize bytes, for each of the first n rows. */
  function RowPieces(glyph: seq<nat>, width: nat, rowSize: nat, n: nat): (r: seq<Option<seq<Byte>>>)
    requires width <= 8 * rowSize
    ensures |r| == n
  {
    seq(n, y requires 0 <= y < n => PackRow(RowBits(glyph, width, y), rowSize, width))
  }

  /** The first n rows of a glyph, each packed into rowSize bytes; None if one raises OverflowError. */
  function RowsBytes(glyph: seq<nat>, width: nat, rowSize: nat, n: nat): Option<seq<Byte>>
    requires width <= 8 * rowSize
  {
    Joined(RowPieces(glyph, width, rowSize, n))
  }

  /** Each glyph's rows. */
  function GlyphPieces(glyphs: seq<seq<nat>>, height: nat, width: nat, rowSize: nat): (r: seq<Option<seq<Byte>>>)
    requires width <= 8 * rowSize
    ensures |r| == |glyphs|
  {
    seq(|glyphs|, i requires 0 <= i < |glyphs| => RowsBytes(glyphs[i], width, rowSize, height))
  }

  /** Every glyph's rows in order; None if a row raises OverflowError. */
  function GlyphsBytes(glyphs: seq<seq<nat>>, height: nat, width: nat, rowSize: nat): Option<seq<Byte>>
    requires width <= 8 * rowSize
  {
    Joined(GlyphPieces(glyphs, height, width, rowSize))
  }

  /** What writePSF returns for the font f, or the error it raises. */
  function Encode(f: FontImage, psf2: bool): Result<seq<Byte>, Error>
  {
    if !psf2 then Err(Psf1ExportUnsupported)
    else
      WriterRowSizeAgrees(f.width);
      match U32Fields(HeaderFields(f))
      case None => Err(ValueTooLarge)
      case Some(header) =>
        match GlyphsBytes(f.glyphs, f.height, f.width, WriterRowSize(f.width))
        case None => Err(ValueTooLarge)
        case Some(body) => Ok(header + body)
  }

  /** A glyph's rows are written exactly when every row packs without overflow. */
  lemma RowsBytesSome(glyph: seq<nat>, width: nat, rowSize: nat, n: nat)
    requires width <= 8 * rowSize
    ensures RowsBytes(glyph, width, rowSize, n).Some? <==>
      forall y :: 0 <= y < n ==> PackRow(RowBits(glyph, width, y), rowSize, width).Some?
  {
    var pieces := RowPieces(glyph, width, rowSize, n);
    assert forall y :: 0 <= y < n ==> pieces[y] == PackRow(RowBits(glyph, width, y), rowSize, width);
    JoinedSome(pieces);
  }

  /** Written rows take rowSize bytes each, row y at bytes rowSize * y onwards. */
  lemma RowsBytesAt(glyph: seq<nat>, width: nat, rowSize: nat, n: nat)
    requires width <= 8 * rowSize && RowsBytes(glyph, width, rowSize, n).Some?
    ensures var rows := RowsBytes(glyph, width, rowSize, n).value;
      && |rows| == rowSize * n
      && forall y :: 0 <= y < n ==>
           && PackRow(RowBits(glyph, width, y), rowSize, width).Some?
           && rowSize * y + rowSize <= |rows|
           && Block(rows, rowSize, y) == PackRow(RowBits(glyph, width, y), rowSize, width).value
  {
    var pieces := RowPieces(glyph, width, rowSize, n);
    assert forall y :: 0 <= y < n ==> pieces[y] == PackRow(RowBits(glyph, width, y), rowSize, width);
    JoinedAt(pieces, rowSize);
  }

  /** The glyphs are written exactly when each glyph's rows are. */
  lemma GlyphsBytesSome(glyphs: seq<seq<nat>>, height: nat, width: nat, rowSize: nat)
    requires width <= 8 * rowSize
    ensures GlyphsBytes(glyphs, height, width, rowSize).Some? <==>
      forall i :: 0 <= i < |glyphs| ==> RowsBytes(glyphs[i], width, rowSize, height).Some?
  {
    var pieces := GlyphPieces(glyphs, height, width, rowSize);
    assert forall i :: 0 <= i < |glyphs| ==> pieces[i] == RowsBytes(glyphs[i], width, rowSize, height);
    JoinedSome(pieces);
  }

  /** Written glyphs take c = height * rowSize bytes each, glyph i at bytes c * i onwards. */
  lemma GlyphsBytesAt(glyphs: seq<seq<nat>>, height: nat, width: nat, rowSize: nat, c: nat)
    requires width <= 8 * rowSize && c == height * rowSize && GlyphsBytes(glyphs, height, width, rowSize).Some?
    ensures var body := GlyphsBytes(glyphs, height, width, rowSize).value;
      && |body| == c * |glyphs|
      && forall i :: 0 <= i < |glyphs| ==>
           && RowsBytes(glyphs[i], width, rowSize, height).Some?
           && c * i + c <= |body|
           && Block(body, c, i) == RowsBytes(glyphs[i], width, rowSize, height).value
  {
    var pieces := GlyphPieces(glyphs, height, width, rowSize);
    assert forall i :: 0 <= i < |glyphs| ==> pieces[i] == RowsBytes(glyphs[i], width, rowSize, height);
    JoinedSome(pieces);
    forall i | 0 <= i < |glyphs| ensures |pieces[i].value| == c {
      RowsBytesAt(glyphs[i], width, rowSize, height);
    }
    JoinedAt(pieces, c);
  }

  /** A row cut from a glyph of 0/1 pixels holds at most `width` pixels, all 0 or 1. */
  lemma RowBitsBinary(glyph: seq<nat>, width: nat, y: nat)
    requires Binary(glyph)
    ensures Binary(RowBits(glyph, width, y)) && |RowBits(glyph, width, y)| <= width
  {
    var row := RowBits(glyph, width, y);
    assert width * (y + 1) == width * y + width;
    forall k | 0 <= k < |row| ensures row[k] <= 1 {
      assert row[k] == glyph[width * y + k];
    }
  }

  /**
   * writePSF succeeds exactly when PSF2 output is asked for, every header
   * field fits in four bytes and every row fits its rowSize bytes, which
   * glyphs of 0/1 pixels always do.
   */
  lemma EncodeOk(f: FontImage, psf2: bool)
    ensures Encode(f, psf2).Ok? <==>
      && psf2
      && (forall k :: 0 <= k < |HeaderFields(f)| ==> HeaderFields(f)[k] < U32_LIMIT)
      && (forall i, y :: 0 <= i < |f.glyphs| && 0 <= y < f.height ==>
            PackRow(RowBits(f.glyphs[i], f.width, y), RowBytes(f.width), f.width).Some?)
    ensures Encode(f, psf2).Err? ==> Encode(f, psf2).error in {Psf1ExportUnsupported, ValueTooLarge}
    ensures Encode(f, psf2) == Err(Psf1ExportUnsupported) <==> !psf2
    ensures psf2 && (forall i :: 0 <= i < |f.glyphs| ==> Binary(f.glyphs[i])) ==>
      (Encode(f, psf2).Ok? <==> forall k :: 0 <= k < |HeaderFields(f)| ==> HeaderFields(f)[k] < U32_LIMIT)
  {
    WriterRowSizeAgrees(f.width);
    var rowSize := RowBytes(f.width);
    U32FieldsSome(HeaderFields(f));
    GlyphsBytesSome(f.glyphs, f.height, f.width, rowSize);
    forall i | 0 <= i < |f.glyphs| {
      RowsBytesSome(f.glyphs[i], f.width, rowSize, f.height);
    }
    if forall i :: 0 <= i < |f.glyphs| ==> Binary(f.glyphs[i]) {
      forall i, y | 0 <= i < |f.glyphs| && 0 <= y < f.height
        ensures PackRow(RowBits(f.glyphs[i], f.width, y), rowSize, f.width).Some?
      {
        RowBitsBinary(f.glyphs[i], f.width, y);
        PackRowFits(RowBits(f.glyphs[i], f.width, y), rowSize, f.width);
      }
    }
  }

  /** A successful write is the header's eight fields, four bytes each, then the glyph bytes. */
  lemma EncodeLayout(f: FontImage)
    requires Encode(f, true).Ok?
    ensures var b := Encode(f, true).value;
      && HEADER_SIZE <= |b|
      && U32Fields(HeaderFields(f)) == Some(b[..HEADER_SIZE])
      && GlyphsBytes(f.glyphs, f.height, f.width, RowBytes(f.width)) == Some(b[HEADER_SIZE..])
      && forall k :: 0 <= k < 8 ==> FromLE(Block(b, 4, k)) == HeaderFields(f)[k]
  {
    WriterRowSizeAgrees(f.width);
    var b := Encode(f, true).value;
    var header := U32Fields(HeaderFields(f)).value;
    U32FieldsAt(HeaderFields(f));
    assert b[..HEADER_SIZE] == header;
    forall k | 0 <= k < 8 ensures FromLE(Block(b, 4, k)) == HeaderFields(f)[k] {
      BlockLeft(header, b[HEADER_SIZE..], 4, 8, k);
    }
  }

  /** A successful write is 32 header bytes and charSize bytes per glyph. */
  lemma EncodeLength(f: FontImage)
    requires Encode(f, true).Ok?
    ensures |Encode(f, true).value| == HEADER_SIZE + CharSize(f.height, f.width) * |f.glyphs|
  {
    WriterRowSizeAgrees(f.width);
    EncodeLayout(f);
    GlyphsBytesAt(f.glyphs, f.height, f.width, RowBytes(f.width), CharSize(f.height, f.width));
  }

  /** The sum `rowInt += rowBit` builds while both of its shifts are discarded. */
  function BitSum(row: seq<nat>): nat
  {
    if row == [] then 0 else BitSum(row[..|row| - 1]) + row[|row| - 1]
  }

  /**
   * The row packing as the source writes it: `rowInt << 1` and
   * `rowInt << rowSize - font.width` are computed and dropped, so the row is
   * the sum of its pixels; the second shift still raises ValueError when
   * rowSize - width is negative.
   */
  function PackRowAsWritten(row: seq<nat>, rowSize: nat, width: nat): (r: Result<seq<Byte>, Error>)
    ensures r.Ok? ==> |r.value| == rowSize
  {
    if rowSize < width then Err(NegativeShift)
    else if BitSum(row) < Pow2(8 * rowSize) then Ok(ToBE(BitSum(row), rowSize))
    else Err(ValueTooLarge)
  }

  /** As written, every font at least two pixels wide fails on its first row: rowSize counts bytes, width pixels. */
  lemma PackRowAsWrittenRejects(row: seq<nat>, width: nat)
    requires width >= 2
    ensures PackRowAsWritten(row, WriterRowSize(width), width) == Err(NegativeShift)
  {
    WriterRowSizeAgrees(width);
  }

  /**
   * As written, a one-pixel-wide row [1] is written as the byte 0x01, which
   * readPSF reads back as [0]; the intended packing reads back every row
   * (`PackThenUnpack`).
   */
  lemma PackRowAsWrittenLoses()
    ensures PackRowAsWritten([1], 1, 1) == Ok([0x01])
    ensures UnpackRow([0x01], 1, 1) == [0]
  {
    assert BitSum([1]) == BitSum([]) + 1 by { assert [1][..0] == []; }
    assert Pow2(8) == 256 && Pow2(7) == 128;
    assert ToBE(1, 1) == [0x01];
    assert FromBE([0x01]) == 1 by { assert [0x01][..0] == []; }
    assert Shr(1, 7) == 0;
  }

  /**
   * The eight `binary += x.to_bytes(4, 'little')` statements of the header,
   * written as one loop over the field values in file order.
   */
  method WriteHeader(fields: seq<nat>) returns (r: Option<seq<Byte>>)
    ensures r == U32Fields(fields)
  {
    ghost var pieces := FieldPieces(fields);
    var binary: seq<Byte> := [];
    for k := 0 to |fields|
      invariant Joined(pieces[..k]) == Some(binary)
    {
      JoinedPrefix(pieces, k);
      if fields[k] >= U32_LIMIT {
        U32FieldsSome(fields);
        return None;
      }
      binary := binary + U32Bytes(fields[k]);
    }
    assert pieces[..|fields|] == pieces;
    return Some(binary);
  }

  /**
   * One row: `rowInt` gathers the pixels most significant first, is shifted
   * left over the padding bits and is written as rowSize big-endian bytes;
   * None where `to_bytes` raises OverflowError.
   */
  method WriteRow(rowBits: seq<nat>, rowSize: nat, width: nat) returns (r: Option<seq<Byte>>)
    requires width <= 8 * rowSize
    ensures r == PackRow(rowBits, rowSize, width)
  {
    var rowInt := 0;
    for k := 0 to |rowBits|
      invariant rowInt == RowValue(rowBits[..k])
    {
      assert rowBits[..k + 1][..k] == rowBits[..k];
      rowInt := rowInt * 2 + rowBits[k];
    }
    assert rowBits[..|rowBits|] == rowBits;
    rowInt := rowInt * Pow2(rowSize * 8 - width);
    if rowInt >= Pow2(8 * rowSize) {
      return None;
    }
    return Some(ToBE(rowInt, rowSize));
  }

  /** `for y in range(font.height)`: all rows of one glyph, in order; None as soon as a row overflows. */
  method WriteGlyph(glyph: seq<nat>, height: nat, width: nat, rowSize: nat) returns (r: Option<seq<Byte>>)
    requires width <= 8 * rowSize
    ensures r == RowsBytes(glyph, width, rowSize, height)
  {
    ghost var pieces := RowPieces(glyph, width, rowSize, height);
    var rows: seq<Byte> := [];
    for y := 0 to height
      invariant Joined(pieces[..y]) == Some(rows)
    {
      var rowBits := RowBits(glyph, width, y);
      var rowBytes := WriteRow(rowBits, rowSize, width);
      JoinedPrefix(pieces, y);
      if rowBytes.None? {
        JoinedSome(pieces);
        return None;
      }
      rows := rows + rowBytes.value;
    }
    assert pieces[..height] == pieces;
    return Some(rows);
  }

  /** `for glyph in font.glyphs`: every glyph's rows in order; None as soon as a row overflows. */
  method WriteGlyphs(glyphs: seq<seq<nat>>, height: nat, width: nat, rowSize: nat) returns (r: Option<seq<Byte>>)
    requires width <= 8 * rowSize
    ensures r == GlyphsBytes(glyphs, height, width, rowSize)
  {
    ghost var pieces := GlyphPieces(glyphs, height, width, rowSize);
    var body: seq<Byte> := [];
    for g := 0 to |glyphs|
      invariant Joined(pieces[..g]) == Some(body)
    {
      var rows := WriteGlyph(glyphs[g], height, width, rowSize);
      JoinedPrefix(pieces, g);
      if rows.None? {
        JoinedSome(pieces);
        return None;
      }
      body := body + rows.value;
    }
    assert pieces[..|glyphs|] == pieces;
    return Some(body);
  }

  /**
   * `writePSF(font, PSF2)`: refuses PSF1 output, then writes the header and
   * the glyphs; the bytes are returned rather than dropped.
   */
  method WritePsf(font: Psf, psf2: bool) returns (r: Result<seq<Byte>, Error>)
    ensures r == Encode(font.Image(), psf2)
  {
    if !psf2 {
      return Err(Psf1ExportUnsupported);
    }
    var rowSize: nat := font.width / 8 + if font.width % 8 != 0 then 1 else 0;
    var charSize: nat := font.height * rowSize;
    var fields: seq<nat> := [PSF2_MAGIC_NUMBER, font.version, 8 * 4, font.flags, font.length,
                             charSize, font.height, font.width];
    assert fields == HeaderFields(font.Image());
    var header := WriteHeader(fields);
    if header.None? {
      return Err(ValueTooLarge);
    }
    WriterRowSizeAgrees(font.width);
    var body := WriteGlyphs(font.glyphs, font.height, font.width, rowSize);
    if body.None? {
      return Err(ValueTooLarge);
    }
    return Ok(header.value + body.value);
  }
}
