/** Monetary arithmetic as the application performs it: exact reals in place of
    IEEE doubles, with JavaScript's `Math.round` written out explicitly. */
module Money {

  /** `Math.round(x)`: the integer nearest to x, with halves rounded toward +infinity
      (so -2.5 rounds to -2, not -3). */
  function JsRound(x: real): (r: int)
    ensures x - 0.5 < r as real <= x + 0.5
  {
    (x + 0.5).Floor
  }

  /** A whole number of cents. */
  predicate IsCents(x: real) {
    (x * 100.0).Floor as real == x * 100.0
  }

  /** `Math.round(x * 100) / 100`: the nearest whole number of cents, halves up. */
  function Round2(x: real): (r: real)
    ensures x - 0.005 < r <= x + 0.005
    ensures IsCents(r)
  {
    var cents := JsRound(x * 100.0);
    assert (cents as real / 100.0) * 100.0 == cents as real;
    cents as real / 100.0
  }

  /** Rounding to cents leaves a whole number of cents alone, so it is idempotent. */
  lemma RoundCentsIdentity(x: real)
    requires IsCents(x)
    ensures Round2(x) == x
  {
    var n := (x * 100.0).Floor;
    assert x * 100.0 == n as real;
    assert (x * 100.0 + 0.5).Floor == n;
  }

  /** Anything of at least half a cent rounds to at least one cent. */
  lemma RoundAtLeastCent(x: real)
    requires x >= 0.005
    ensures Round2(x) >= 0.01
  {
    var r := Round2(x);
    var n := (r * 100.0).Floor;
    assert r * 100.0 == n as real;
    assert r * 100.0 > 0.0;
  }

  /** Whole numbers of cents are closed under addition, subtraction and negation. */
  lemma CentsArithmetic(a: real, b: real)
    requires IsCents(a) && IsCents(b)
    ensures IsCents(a + b) && IsCents(a - b) && IsCents(-a)
  {
    var m, n := (a * 100.0).Floor, (b * 100.0).Floor;
    CentsOfCount(a + b, m + n);
    CentsOfCount(a - b, m - n);
    CentsOfCount(-a, -m);
  }

  /** An amount that is a whole count of hundredths is whole cents. */
  lemma CentsOfCount(x: real, k: int)
    requires x * 100.0 == k as real
    ensures IsCents(x)
  {
  }

  /** Below one cent, the only whole number of cents that is not negative is 0. */
  lemma SmallCentsZero(x: real)
    requires IsCents(x) && 0.0 <= x < 0.01
    ensures x == 0.0
  {
    var m := (x * 100.0).Floor;
    assert x * 100.0 == m as real;
    assert 0.0 <= m as real < 1.0;
  }

  function Abs(x: real): (r: real)
    ensures r >= 0.0 && (r == x || r == -x)
  {
    if x < 0.0 then -x else x
  }

  /** `Math.min` of two reals. */
  function Min(a: real, b: real): (r: real)
    ensures r <= a && r <= b && (r == a || r == b)
  {
    if a <= b then a else b
  }

  /** Multiplication distributes over a sum of two amounts. */
  lemma Distribute(a: real, x: real, y: real)
    ensures a * x + a * y == a * (x + y)
  {
  }
}
