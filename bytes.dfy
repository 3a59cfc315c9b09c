/**
 * Byte strings as Python's `bytes` sees them: slicing with `b[lo:hi]`, and the
 * unbounded integers of `int.from_bytes` / `int.to_bytes` in either byte order.
 */
module Bytes {
  import opened Arith

  type Byte = b: int | 0 <= b < 256

  function Min(a: nat, b: nat): nat { if a <= b then a else b }

  /** Python's `b[lo:hi]` on bytes or a list: the bounds are clipped to the sequence, never an error. */
  function PySlice<T>(b: seq<T>, lo: nat, hi: nat): (r: seq<T>)
    ensures |r| <= |b|
    ensures lo <= hi ==> |r| <= hi - lo
    ensures forall k :: 0 <= k < |r| ==> lo + k < |b| && r[k] == b[lo + k]
    ensures lo <= hi <= |b| ==> r == b[lo..hi]
    ensures hi <= |b| ==> |r| == if lo <= hi then hi - lo else 0
    ensures lo <= |b| <= hi ==> r == b[lo..]
    ensures |b| <= lo ==> r == []
  {
    var l, h := Min(lo, |b|), Min(hi, |b|);
    if l <= h then b[l..h] else []
  }

  /** `int.from_bytes(s, 'little')`. */
  function FromLE(s: seq<Byte>): (r: nat)
    ensures r < Pow2(8 * |s|)
  {
    if s == [] then 0
    else
      Pow2Byte(|s| - 1);
      s[0] + 256 * FromLE(s[1..])
  }

  /** `x.to_bytes(n, 'little')`, defined where Python does not raise OverflowError. */
  function ToLE(x: nat, n: nat): (r: seq<Byte>)
    requires x < Pow2(8 * n)
    ensures |r| == n
  {
    if n == 0 then []
    else
      Pow2Byte(n - 1);
      [x % 256] + ToLE(x / 256, n - 1)
  }

  /** `int.from_bytes(s, 'big')`. */
  function FromBE(s: seq<Byte>): (r: nat)
    ensures r < Pow2(8 * |s|)
  {
    if s == [] then 0
    else
      Pow2Byte(|s| - 1);
      FromBE(s[..|s| - 1]) * 256 + s[|s| - 1]
  }

  /** `x.to_bytes(n, 'big')`, defined where Python does not raise OverflowError. */
  function ToBE(x: nat, n: nat): (r: seq<Byte>)
    requires x < Pow2(8 * n)
    ensures |r| == n
  {
    if n == 0 then []
    else
      Pow2Byte(n - 1);
      ToBE(x / 256, n - 1) + [x % 256]
  }

  /** Writing a little-endian integer and reading it back gives the integer. */
  lemma {:induction false} FromToLE(x: nat, n: nat)
    requires x < Pow2(8 * n)
    ensures FromLE(ToLE(x, n)) == x
  {
    if n > 0 {
      Pow2Byte(n - 1);
      FromToLE(x / 256, n - 1);
      assert ToLE(x, n)[1..] == ToLE(x / 256, n - 1);
    }
  }

  /** Reading a little-endian integer and writing it back gives the bytes. */
  lemma {:induction false} ToFromLE(s: seq<Byte>)
    ensures ToLE(FromLE(s), |s|) == s
  {
    if s != [] {
      ToFromLE(s[1..]);
      var x := FromLE(s);
      assert x % 256 == s[0] && x / 256 == FromLE(s[1..]) by {
        DivUnique(x, 256, FromLE(s[1..]), s[0]);
      }
    }
  }

  /** Writing a big-endian integer and reading it back gives the integer. */
  lemma {:induction false} FromToBE(x: nat, n: nat)
    requires x < Pow2(8 * n)
    ensures FromBE(ToBE(x, n)) == x
  {
    if n > 0 {
      Pow2Byte(n - 1);
      FromToBE(x / 256, n - 1);
      var r := ToBE(x, n);
      assert r[..n - 1] == ToBE(x / 256, n - 1);
    }
  }

  /** Reading a big-endian integer and writing it back gives the bytes. */
  lemma {:induction false} ToFromBE(s: seq<Byte>)
    ensures ToBE(FromBE(s), |s|) == s
  {
    if s != [] {
      var init := s[..|s| - 1];
      ToFromBE(init);
      var x := FromBE(s);
      assert x % 256 == s[|s| - 1] && x / 256 == FromBE(init) by {
        DivUnique(x, 256, FromBE(init), s[|s| - 1]);
      }
    }
  }
}
