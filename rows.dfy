/**
 * One glyph row: the decoder's unpacking of `rowSize` big-endian bytes into
 * `width` pixels, and the encoder's packing of the pixels back into bytes.
 */
module Rows {
  import opened Arith
  import opened Bytes
  import opened Wrappers

  /** `(v & 2 ** k) >> k`: bit k of v. */
  function Bit(v: nat, k: nat): (r: nat)
    ensures r <= 1
  {
    Shr(v, k) % 2
  }

  /** Every pixel is 0 or 1. */
  predicate Binary(pixels: seq<nat>)
  {
    forall k :: 0 <= k < |pixels| ==> pixels[k] <= 1
  }

  /** The `width` low bits of v, most significant first: bit width-1 is pixel 0. */
  function RowPixels(v: nat, width: nat): (r: seq<nat>)
    ensures |r| == width && Binary(r)
  {
    seq(width, x requires 0 <= x < width => Bit(v, width - 1 - x))
  }

  /**
   * A row as the decoder reads it: the bytes as a big-endian integer, shifted
   * right past the `8 * rowSize - width` padding bits, then split into pixels.
   */
  function UnpackRow(rowBytes: seq<Byte>, rowSize: nat, width: nat): (r: seq<nat>)
    requires width <= 8 * rowSize
    ensures |r| == width && Binary(r)
  {
    RowPixels(Shr(FromBE(rowBytes), 8 * rowSize - width), width)
  }

  /** Bits 8 and up of a * 256 + c are the bits of a. */
  lemma BitHigh(a: nat, c: nat, t: nat)
    requires c < 256 && t >= 8
    ensures Bit(a * 256 + c, t) == Bit(a, t - 8)
  {
    Pow2Byte(0);
    DivUnique(a * 256 + c, 256, a, c);
    ShrShr(a * 256 + c, 8, t - 8);
  }

  /** Bits 0 to 7 of a * 256 + c are the bits of c. */
  lemma BitLow(a: nat, c: nat, t: nat)
    requires c < 256 && t < 8
    ensures Bit(a * 256 + c, t) == Bit(c, t)
  {
    ShrLow(a, c, t);
    DivAddMultiple(Shr(c, t), 2, a * Pow2(7 - t));
  }

  /** Shifting a * 256 + c right by t < 8 bits leaves an even multiple of a above c's shifted bits. */
  lemma ShrLow(a: nat, c: nat, t: nat)
    requires c < 256 && t < 8
    ensures Shr(a * 256 + c, t) == 2 * (a * Pow2(7 - t)) + Shr(c, t)
  {
    var p, e := Pow2(t), Pow2(7 - t);
    ByteSplit(t);
    MulRegroup(a, p, e);
    DivAddMultiple(c, p, 2 * (a * e));
  }

  /** 2^t * 2^(8 - t) = 256, with the factor 2^(8 - t) written as 2 * 2^(7 - t). */
  lemma ByteSplit(t: nat)
    requires t < 8
    ensures Pow2(t) * (2 * Pow2(7 - t)) == 256
  {
    Pow2Byte(0);
    Pow2Add(t, 8 - t);
  }

  lemma MulRegroup(a: nat, p: nat, e: nat)
    ensures a * (p * (2 * e)) == p * (2 * (a * e))
  {
  }

  /** Bit k of byte j of a big-endian integer is its bit 8 * (|s| - 1 - j) + k. */
  lemma {:induction false} BitOfBE(s: seq<Byte>, j: nat, k: nat)
    requires j < |s| && k < 8
    ensures Bit(FromBE(s), 8 * (|s| - 1 - j) + k) == Bit(s[j], k)
  {
    var init, last := s[..|s| - 1], s[|s| - 1];
    var high := FromBE(init);
    assert FromBE(s) == high * 256 + last;
    if j == |s| - 1 {
      BitLow(high, last, k);
    } else {
      var t := 8 * (|s| - 1 - j) + k;
      assert t - 8 == 8 * (|init| - 1 - j) + k;
      BitHigh(high, last, t);
      BitOfBE(init, j, k);
      assert init[j] == s[j];
    }
  }

  /** Bit 8 * n - 1 - x of an n-byte integer sits in byte x / 8 at bit 7 - x % 8. */
  lemma BitPosition(n: nat, width: nat, x: nat)
    requires width <= 8 * n && x < width
    ensures x / 8 < n && 8 * n - width + (width - 1 - x) == 8 * (n - 1 - x / 8) + (7 - x % 8)
  {
    assert x == 8 * (x / 8) + x % 8;
  }

  /** Pixel x of an unpacked row is bit 7 - x % 8 of byte x / 8: most significant bit first, padding at the end. */
  lemma UnpackRowPixel(rowBytes: seq<Byte>, width: nat, x: nat)
    requires width <= 8 * |rowBytes| && x < width
    ensures UnpackRow(rowBytes, |rowBytes|, width)[x] == Bit(rowBytes[x / 8], 7 - x % 8)
  {
    var n := |rowBytes|;
    var v := FromBE(rowBytes);
    assert UnpackRow(rowBytes, n, width)[x] == Bit(Shr(v, 8 * n - width), width - 1 - x);
    ShrShr(v, 8 * n - width, width - 1 - x);
    BitPosition(n, width, x);
    BitOfBE(rowBytes, x / 8, 7 - x % 8);
  }

  /** The integer whose binary digits, most significant first, are the pixels. */
  function RowValue(row: seq<nat>): nat
  {
    if row == [] then 0 else RowValue(row[..|row| - 1]) * 2 + row[|row| - 1]
  }

  /**
   * A row as the encoder writes it: the pixels' value shifted left over the
   * padding bits, as `rowSize` big-endian bytes; None where `to_bytes` would
   * raise OverflowError (only possible for pixels other than 0 and 1).
   */
  function PackRow(row: seq<nat>, rowSize: nat, width: nat): (r: Option<seq<Byte>>)
    requires width <= 8 * rowSize
    ensures r.Some? ==> |r.value| == rowSize
  {
    var v := RowValue(row) * Pow2(8 * rowSize - width);
    if v < Pow2(8 * rowSize) then Some(ToBE(v, rowSize)) else None
  }

  /** A row of at most `width` 0/1 pixels packs into rowSize bytes without overflow. */
  lemma PackRowFits(row: seq<nat>, rowSize: nat, width: nat)
    requires Binary(row) && |row| <= width <= 8 * rowSize
    ensures PackRow(row, rowSize, width).Some?
  {
    var p := 8 * rowSize - width;
    RowValueBound(row);
    Pow2Monotone(|row|, width);
    MulStrict(RowValue(row), Pow2(width), Pow2(p));
    Pow2Add(width, p);
  }

  lemma {:induction false} RowValueBound(row: seq<nat>)
    requires Binary(row)
    ensures RowValue(row) < Pow2(|row|)
  {
    if row != [] {
      RowValueBound(row[..|row| - 1]);
    }
  }

  /** Dropping the lowest bit of v drops the last pixel of its row. */
  lemma RowPixelsSnoc(v: nat, width: nat)
    requires width > 0
    ensures RowPixels(v, width) == RowPixels(v / 2, width - 1) + [v % 2]
  {
    var a, init := RowPixels(v, width), RowPixels(v / 2, width - 1);
    forall x | 0 <= x < width - 1
      ensures a[x] == init[x]
    {
      var k := width - 2 - x;
      DivPow2Succ(v, k);
      assert a[x] == Bit(v, k + 1) == Shr(v, k + 1) % 2 == (v / Pow2(k + 1)) % 2;
      assert init[x] == Bit(v / 2, k) == Shr(v / 2, k) % 2 == ((v / 2) / Pow2(k)) % 2;
    }
    assert a[width - 1] == Bit(v, 0) == v % 2;
    assert a == init + [v % 2];
  }

  /** Splitting the value of a row of 0/1 pixels into bits gives the row back. */
  lemma {:induction false} PixelsOfValue(row: seq<nat>)
    requires Binary(row)
    ensures RowPixels(RowValue(row), |row|) == row
  {
    if row != [] {
      var init, last := row[..|row| - 1], row[|row| - 1];
      PixelsOfValue(init);
      var v := RowValue(row);
      DivUnique(v, 2, RowValue(init), last);
      RowPixelsSnoc(v, |row|);
      assert row == init + [last];
    }
  }

  /** Taking the value of the low `width` bits of v, split into pixels, gives v back. */
  lemma {:induction false} ValueOfPixels(v: nat, width: nat)
    requires v < Pow2(width)
    ensures RowValue(RowPixels(v, width)) == v
  {
    if width > 0 {
      RowPixelsSnoc(v, width);
      DivBelow(v, Pow2(width - 1), 2);
      ValueOfPixels(v / 2, width - 1);
      var r := RowPixels(v, width);
      assert r[..|r| - 1] == RowPixels(v / 2, width - 1);
    }
  }

  /** Packing a row of `width` 0/1 pixels never overflows, and unpacking restores the row. */
  lemma PackThenUnpack(row: seq<nat>, rowSize: nat)
    requires Binary(row) && |row| <= 8 * rowSize
    ensures PackRow(row, rowSize, |row|).Some?
    ensures UnpackRow(PackRow(row, rowSize, |row|).value, rowSize, |row|) == row
  {
    var w, p := |row|, 8 * rowSize - |row|;
    RowValueBound(row);
    var v := RowValue(row) * Pow2(p);
    MulStrict(RowValue(row), Pow2(w), Pow2(p));
    Pow2Add(w, p);
    assert v < Pow2(8 * rowSize);
    FromToBE(v, rowSize);
    MulDivCancel(RowValue(row), Pow2(p));
    PixelsOfValue(row);
  }

  /** The packed bytes keep every padding bit at zero. */
  lemma PackedPaddingZero(row: seq<nat>, rowSize: nat, width: nat)
    requires width <= 8 * rowSize && PackRow(row, rowSize, width).Some?
    ensures FromBE(PackRow(row, rowSize, width).value) % Pow2(8 * rowSize - width) == 0
  {
    var v := RowValue(row) * Pow2(8 * rowSize - width);
    FromToBE(v, rowSize);
    MulDivCancel(RowValue(row), Pow2(8 * rowSize - width));
  }

  /** Row bytes whose padding bits are zero survive unpacking and packing unchanged. */
  lemma UnpackThenPack(rowBytes: seq<Byte>, width: nat)
    requires width <= 8 * |rowBytes|
    requires FromBE(rowBytes) % Pow2(8 * |rowBytes| - width) == 0
    ensures PackRow(UnpackRow(rowBytes, |rowBytes|, width), |rowBytes|, width) == Some(rowBytes)
  {
    var n := |rowBytes|;
    var p := 8 * n - width;
    var v := FromBE(rowBytes);
    ShrExact(v, p, width);
    var u := Shr(v, p);
    ValueOfPixels(u, width);
    assert RowValue(UnpackRow(rowBytes, n, width)) * Pow2(p) == v;
    ToFromBE(rowBytes);
  }

  /** A full row of width 5 packs into the byte 0b11111000. */
  lemma PackFullRowOfFive()
    ensures PackRow([1, 1, 1, 1, 1], 1, 5) == Some([0xF8])
  {
    assert RowValue([1, 1, 1, 1, 1]) == 31 by {
      assert [1, 1, 1, 1, 1][..4] == [1, 1, 1, 1];
      assert [1, 1, 1, 1][..3] == [1, 1, 1];
      assert [1, 1, 1][..2] == [1, 1];
      assert [1, 1][..1] == [1];
      assert [1][..0] == [];
    }
    assert Pow2(8 * 1 - 5) == 8 && Pow2(8 * 1) == 256;
    assert ToBE(248, 1) == [0xF8];
  }

  /** Rows laid end to end, top row first: a glyph's pixel list. */
  function Concat(rows: seq<seq<nat>>): seq<nat>
  {
    if rows == [] then [] else Concat(rows[..|rows| - 1]) + rows[|rows| - 1]
  }

  /** In rows of w pixels each, pixel x of row y sits at index y * w + x. */
  lemma {:induction false} ConcatAt(rows: seq<seq<nat>>, w: nat, y: nat, x: nat)
    requires forall k :: 0 <= k < |rows| ==> |rows[k]| == w
    requires y < |rows| && x < w
    ensures |Concat(rows)| == |rows| * w
    ensures y * w + x < |Concat(rows)| && Concat(rows)[y * w + x] == rows[y][x]
  {
    var n := |rows|;
    var init := rows[..n - 1];
    assert forall k :: 0 <= k < |init| ==> init[k] == rows[k];
    ConcatLength(rows, w);
    ConcatLength(init, w);
    GridIndex(y, x, w, n);
    assert Concat(rows) == Concat(init) + rows[n - 1];
    if y < n - 1 {
      ConcatAt(init, w, y, x);
    }
  }

  /** Rows of w pixels each make |rows| * w pixels. */
  lemma {:induction false} ConcatLength(rows: seq<seq<nat>>, w: nat)
    requires forall k :: 0 <= k < |rows| ==> |rows[k]| == w
    ensures |Concat(rows)| == |rows| * w
  {
    if rows != [] {
      ConcatLength(rows[..|rows| - 1], w);
      assert (|rows| - 1) * w + w == |rows| * w;
    }
  }

  /** Rows of 0s and 1s make a pixel list of 0s and 1s. */
  lemma {:induction false} ConcatBinary(rows: seq<seq<nat>>)
    requires forall k :: 0 <= k < |rows| ==> Binary(rows[k])
    ensures Binary(Concat(rows))
    decreases |rows|
  {
    if rows != [] {
      var init := rows[..|rows| - 1];
      assert forall k :: 0 <= k < |init| ==> init[k] == rows[k];
      ConcatBinary(init);
      var c, last := Concat(init), rows[|rows| - 1];
      assert Binary(last);
      forall k | 0 <= k < |c + last| ensures (c + last)[k] <= 1 {
        if k >= |c| {
          assert (c + last)[k] == last[k - |c|];
        }
      }
    }
  }

  /** Index y * w + x of a grid of n rows of w cells is in range. */
  lemma GridIndex(y: nat, x: nat, w: nat, n: nat)
    requires y < n && x < w
    ensures y * w + x < n * w
  {
    MulMonotone(w, y + 1, n);
    assert w * (y + 1) == y * w + w;
  }
}
