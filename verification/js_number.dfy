/**
 * JavaScript's remainder operator on integral numbers.
 *
 * JavaScript's `%` truncates: the quotient is rounded toward zero, so the
 * remainder takes the sign of the dividend (`-3 % 2 == -1`) and only the
 * magnitude of the divisor matters (`-3 % -2 == -1`).  Dafny's `%` is
 * Euclidean (the remainder is never negative), so the two agree only on
 * non-negative dividends.
 */
module JsNumber {

  function Abs(x: int): (r: int)
    ensures r >= 0 && (r == x || r == -x)
  {
    if x < 0 then -x else x
  }

  /** `a % d` as JavaScript evaluates it, for a non-zero integral divisor. */
  function JsRem(a: int, d: int): (r: int)
    requires d != 0
    ensures a >= 0 ==> 0 <= r < Abs(d)
    ensures a < 0 ==> -Abs(d) < r <= 0
    ensures (a - r) % Abs(d) == 0
  {
    var m := Abs(d);
    var r := if a >= 0 then a % m else -((-a) % m);
    RemainderGap(a, m);
    r
  }

  /** The truncated remainder differs from its dividend by a multiple of `m`. */
  lemma RemainderGap(a: int, m: int)
    requires m > 0
    ensures a >= 0 ==> (a - a % m) % m == 0
    ensures a < 0 ==> (a + (-a) % m) % m == 0
  {
    if a >= 0 {
      var q := a / m;
      assert a - a % m == m * q;
      MulMod(m, q);
    } else {
      var q := (-a) / m;
      assert -a == m * q + (-a) % m;
      assert a + (-a) % m == m * (-q);
      MulMod(m, -q);
    }
  }

  /**
   * The truncated remainder is the only value that lies on the dividend's
   * side of zero, strictly within the divisor's magnitude, and differs from
   * the dividend by a multiple of the divisor.
   */
  lemma JsRemUnique(a: int, d: int, r: int)
    requires d != 0
    requires a >= 0 ==> 0 <= r < Abs(d)
    requires a < 0 ==> -Abs(d) < r <= 0
    requires (a - r) % Abs(d) == 0
    ensures r == JsRem(a, d)
  {
    var m := Abs(d);
    var k := (a - r) / m;
    assert a - r == m * k;
    if a >= 0 {
      DivModUnique(a, m, k, r);
    } else {
      assert -a == m * (-k) + (-r);
      DivModUnique(-a, m, -k, -r);
    }
  }

  /** On non-negative dividends JavaScript's and Dafny's remainders agree. */
  lemma JsRemNonNegative(a: int, d: int)
    requires a >= 0 && d != 0
    ensures JsRem(a, d) == a % Abs(d)
  {
  }

  /** Euclidean division is determined by its defining equation. */
  lemma DivModUnique(a: int, m: int, q: int, r: int)
    requires m > 0 && 0 <= r < m
    requires a == m * q + r
    ensures a / m == q && a % m == r
  {
    var q', r' := a / m, a % m;
    assert m * (q - q') == r' - r;
    if q != q' {
      MulBound(m, q - q');
    }
  }

  /** A non-zero multiple of a positive `m` is at least `m` away from zero. */
  lemma MulBound(m: int, k: int)
    requires m > 0 && k != 0
    ensures m * k >= m || m * k <= -m
    decreases Abs(k)
  {
    if k > 1 {
      MulBound(m, k - 1);
    } else if k < -1 {
      MulBound(m, k + 1);
    }
  }

  lemma MulMod(m: int, q: int)
    requires m > 0
    ensures (m * q) % m == 0
  {
    DivModUnique(m * q, m, q, 0);
  }
}
