/** Powers of two and the division facts the bit-level proofs rely on. */
module Arith {

  function Pow2(n: nat): (r: nat)
    ensures r >= 1
  {
    if n == 0 then 1 else 2 * Pow2(n - 1)
  }

  lemma {:induction false} Pow2Add(a: nat, b: nat)
    ensures Pow2(a + b) == Pow2(a) * Pow2(b)
  {
    if b > 0 {
      Pow2Add(a, b - 1);
      assert Pow2(a + b) == 2 * Pow2(a + b - 1);
    }
  }

  lemma {:induction false} Pow2Monotone(a: nat, b: nat)
    requires a <= b
    ensures Pow2(a) <= Pow2(b)
  {
    if a < b {
      Pow2Monotone(a, b - 1);
    }
  }

  /** One more byte multiplies the range of a byte string by 256. */
  lemma Pow2Byte(n: nat)
    ensures Pow2(8 * (n + 1)) == 256 * Pow2(8 * n)
  {
    Pow2Add(8 * n, 8);
    assert Pow2(8) == 256;
  }

  /** Four bytes hold exactly the values below 2^32. */
  lemma Pow2FourBytes()
    ensures Pow2(32) == 0x1_0000_0000
  {
    Pow2Byte(0);
    Pow2Byte(1);
    Pow2Byte(2);
    Pow2Byte(3);
  }

  /** Dividing by m and then by n is dividing by m * n. */
  lemma DivDiv(x: nat, m: nat, n: nat)
    requires m > 0 && n > 0
    ensures x / (m * n) == (x / m) / n
  {
    var a := x / m;
    var q, r2, r1 := a / n, a % n, x % m;
    assert x == m * a + r1;
    assert a == n * q + r2;
    MulNested(m, n, q, r2);
    RemainderBelow(m, n, r1, r2);
    DivUnique(x, m * n, q, m * r2 + r1);
  }

  lemma MulNested(m: nat, n: nat, q: nat, r: nat)
    ensures m * (n * q + r) == (m * n) * q + m * r
  {
  }

  /** A remainder mod m plus m times a remainder mod n stays below m * n. */
  lemma RemainderBelow(m: nat, n: nat, r1: nat, r2: nat)
    requires r1 < m && r2 < n
    ensures m * r2 + r1 < m * n
  {
    MulMonotone(m, r2, n - 1);
    assert m * (n - 1) + m == m * n;
  }

  /** Euclidean division is determined by the quotient-remainder decomposition. */
  lemma DivUnique(x: nat, d: nat, q: nat, r: nat)
    requires d > 0 && r < d && x == d * q + r
    ensures x / d == q && x % d == r
  {
    var q', r' := x / d, x % d;
    assert d * q' + r' == d * q + r;
    if q' < q {
      var t := q - q';
      assert d * q == d * q' + d * t;
      MulAtLeast(d, t);
      assert false;
    } else if q' > q {
      var t := q' - q;
      assert d * q' == d * q + d * t;
      MulAtLeast(d, t);
      assert false;
    }
  }

  lemma MulAtLeast(d: nat, t: nat)
    requires t >= 1
    ensures d * t >= d
  {
  }

  lemma MulDivCancel(x: nat, m: nat)
    requires m > 0
    ensures (x * m) / m == x && (x * m) % m == 0
  {
    DivUnique(x * m, m, x, 0);
  }

  /** Shifting right by k + 1 bits is halving and then shifting right by k bits. */
  lemma DivPow2Succ(x: nat, k: nat)
    ensures x / Pow2(k + 1) == (x / 2) / Pow2(k)
  {
    DivDiv(x, 2, Pow2(k));
  }

  lemma MulStrict(a: nat, c: nat, m: nat)
    requires a < c && m > 0
    ensures a * m < c * m
  {
    assert c * m == a * m + (c - a) * m;
    MulAtLeast(m, c - a);
  }

  /** A quotient by b is below a when the dividend is below a * b. */
  lemma DivBelow(x: nat, a: nat, b: nat)
    requires b > 0 && x < a * b
    ensures x / b < a
  {
    var q := x / b;
    assert b * q <= x;
    if q >= a {
      MulMonotone(b, a, q);
    }
  }

  lemma MulMonotone(m: nat, a: nat, b: nat)
    requires a <= b
    ensures m * a <= m * b
  {
    assert m * b == m * a + m * (b - a);
  }

  /** A quotient of naturals is a natural no larger than the dividend. */
  lemma DivShrinks(x: nat, d: nat)
    requires d > 0
    ensures 0 <= x / d <= x
  {
    var q := x / d;
    assert x == d * q + x % d;
    if q > x {
      MulAtLeast(q, d);
    }
  }

  /** `v >> s`: shifting right by s bits. */
  function Shr(v: nat, s: nat): (r: nat)
    ensures r <= v
  {
    DivShrinks(v, Pow2(s));
    v / Pow2(s)
  }

  /** Shifting out p zero bits and shifting them back in restores the value. */
  lemma ShrExact(v: nat, p: nat, w: nat)
    requires v % Pow2(p) == 0 && v < Pow2(w + p)
    ensures Shr(v, p) < Pow2(w) && Shr(v, p) * Pow2(p) == v
  {
    var u := Shr(v, p);
    assert v == Pow2(p) * u + v % Pow2(p);
    Pow2Add(w, p);
    DivBelow(v, Pow2(w), Pow2(p));
  }

  /** Shifting by s and then by k is shifting by s + k. */
  lemma ShrShr(v: nat, s: nat, k: nat)
    ensures Shr(Shr(v, s), k) == Shr(v, s + k)
  {
    DivDiv(v, Pow2(s), Pow2(k));
    Pow2Add(s, k);
  }

  /** Adding a multiple of d adds that many to the quotient and leaves the remainder. */
  lemma DivAddMultiple(x: nat, d: nat, k: nat)
    requires d > 0
    ensures (d * k + x) / d == k + x / d && (d * k + x) % d == x % d
  {
    var q, r := x / d, x % d;
    assert x == d * q + r;
    assert d * k + x == d * (k + q) + r;
    DivUnique(d * k + x, d, k + q, r);
  }
}
