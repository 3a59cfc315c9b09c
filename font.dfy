/**
 * The in-memory PSF2 font: the `psf` class of psfutil.py, its constants and
 * the errors of the codec.
 */
module Font {
  import opened Arith
  import opened Wrappers

  // The source's constants, as it writes them.
  const PSF1_MAGIC_NUMBER: nat := 0x0435
  const PSF2_MAGIC_NUMBER: nat := 0x864AB572
  const PSF2_FLAG_HAS_UNICODE: nat := 0x01
  const PSF2_SEP: nat := 0xFF
  const PSF2_SEQ: nat := 0xEF

  /** The header size the encoder writes: eight 4-byte fields. */
  const HEADER_SIZE: nat := 32

  /** The largest value a 4-byte header field can hold, plus one. */
  const U32_LIMIT: nat := 0x1_0000_0000

  /** The ways the codec fails: Python exceptions and `sys.exit` calls. */
  datatype Error =
    | Psf1Unsupported        // a PSF1 file: "PSF 1 support not implemented", sys.exit
    | BadMagic               // ValueError: bad magic number
    | BadCharSize            // ValueError: bad charSize
    | ZeroHeight             // ZeroDivisionError computing `charSize // height`
    | NoUnicodeTable         // ValueError: font has no unicode table
    | TruncatedTable         // IndexError reading past the end of the unicode table
    | GlyphSizeMismatch      // ValueError from addGlyph: wrong pixel count
    | GlyphOverflow          // ValueError from addGlyph: no room for another glyph
    | Psf1ExportUnsupported  // writePSF asked for PSF1: sys.exit
    | ValueTooLarge          // OverflowError from `int.to_bytes`
    | NegativeShift          // ValueError: negative shift count (the packing as written)

  /** `(width + 7) // 8`: the bytes one row of `width` pixels takes. */
  function RowBytes(width: nat): nat
  {
    (width + 7) / 8
  }

  /** `height * ((width + 7) // 8)`: the bytes one glyph takes. */
  function CharSize(height: nat, width: nat): nat
  {
    height * RowBytes(width)
  }

  /** RowBytes is the fewest whole bytes that hold `width` bits. */
  lemma RowBytesFits(width: nat)
    ensures width <= 8 * RowBytes(width) < width + 8
    ensures forall n: nat :: width <= 8 * n ==> RowBytes(width) <= n
  {
  }

  /** The decoder's `rowSize = charSize // height` recovers the row size from a valid charSize. */
  lemma RowSizeFromCharSize(height: nat, width: nat)
    requires height > 0
    ensures CharSize(height, width) / height == RowBytes(width)
  {
    var r := RowBytes(width);
    assert CharSize(height, width) == r * height;
    MulDivCancel(r, height);
  }

  /** Bit 0 of the flags (`flags & PSF2_FLAG_HAS_UNICODE`): the font has a unicode table. */
  predicate HasUnicode(flags: nat)
  {
    flags % 2 == PSF2_FLAG_HAS_UNICODE
  }

  /** The value of a `psf` object's fields. */
  datatype FontImage = FontImage(
    version: nat,
    flags: nat,
    charSize: nat,
    height: nat,
    width: nat,
    length: nat,
    glyphs: seq<seq<nat>>,
    charMap: map<char, nat>)

  /** What `addGlyph`'s guards maintain: at most `length` glyphs, each of `height * width` pixels. */
  predicate GlyphsFit(glyphs: seq<seq<nat>>, height: nat, width: nat, length: nat)
  {
    |glyphs| <= length && forall i :: 0 <= i < |glyphs| ==> |glyphs[i]| == height * width
  }

  /** The `psf` class: a font under construction, filled one glyph at a time. */
  class Psf {
    var version: nat
    var flags: nat
    var charSize: nat
    var height: nat
    var width: nat
    var length: nat
    var glyphs: seq<seq<nat>>
    var charMap: map<char, nat>

    ghost predicate Valid()
      reads this
    {
      GlyphsFit(glyphs, height, width, length)
    }

    function Image(): FontImage
      reads this
    {
      FontImage(version, flags, charSize, height, width, length, glyphs, charMap)
    }

    /** `psf(version, flags, height, width, length)`: an empty font of the given shape. */
    constructor (version: nat, flags: nat, height: nat, width: nat, length: nat)
      ensures Image() == FontImage(version, flags, CharSize(height, width), height, width, length, [], map[])
      ensures Valid()
    {
      this.version := version;
      this.flags := flags;
      this.charSize := height * ((width + 7) / 8);
      this.height := height;
      this.width := width;
      this.length := length;
      this.glyphs := [];
      this.charMap := map[];
    }

    /**
     * `addGlyph(pixels)`: appends one glyph, failing on a wrong pixel count
     * first and on a full font second; nothing changes on failure.
     */
    method AddGlyph(pixels: seq<nat>) returns (r: Outcome<Error>)
      modifies this`glyphs
      ensures r == if |pixels| != height * width then Fail(GlyphSizeMismatch)
                   else if |old(glyphs)| >= length then Fail(GlyphOverflow)
                   else Pass
      ensures glyphs == if r.Pass? then old(glyphs) + [pixels] else old(glyphs)
      ensures old(Valid()) ==> Valid()
    {
      if |pixels| != height * width {
        return Fail(GlyphSizeMismatch);
      }
      if |glyphs| >= length {
        return Fail(GlyphOverflow);
      }
      glyphs := glyphs + [pixels];
      r := Pass;
    }
  }
}
