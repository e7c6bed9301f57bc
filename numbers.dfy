/** Exact-real stand-ins for the number operations the decoders use:
    the value of a fraction's digits and `+x.toFixed(8)`. */
module Numbers {
  import opened Text

  // `toFixed(8)` keeps eight digits after the point. The scale 10^8 and the half unit
  // 0.000000005 are written as literals rather than named constants: multiplying by a
  // literal keeps the solver's arithmetic linear.

  /** The value of the digits after a decimal point: "6174" is 0.6174. */
  function FracValue(f: string): (v: real)
    requires AllDigits(f)
    ensures 0.0 <= v < 1.0
  {
    DigitsValueBound(f);
    var a, b := DigitsValue(f) as real, Pow10(|f|) as real;
    QuotientBelowOne(a, b);
    a / b
  }

  lemma QuotientBelowOne(a: real, b: real)
    requires 0.0 <= a < b
    ensures 0.0 <= a / b < 1.0
  {
    var q := a / b;
    assert q * b == a;
  }

  /** x * 10^e for a possibly negative exponent. */
  function Scale10(x: real, e: int): real
  {
    if e >= 0 then x * Pow10(e) as real else x / Pow10(-e) as real
  }

  /** Whether a value has at most eight decimals. */
  predicate OnGrid(r: real)
  {
    (r * 100000000.0).Floor as real == r * 100000000.0
  }

  /** Rounds a non-negative value to eight decimals; on a tie the larger candidate wins. */
  function RoundUnsigned(x: real): (r: real)
    requires x >= 0.0
    ensures r >= 0.0 && OnGrid(r)
    ensures x - 0.000000005 < r <= x + 0.000000005
  {
    var n := (x * 100000000.0 + 0.5).Floor;
    assert n as real / 100000000.0 * 100000000.0 == n as real;
    n as real / 100000000.0
  }

  /** `+x.toFixed(8)`: toFixed renders |x| rounded and puts the sign in front, so ties round away
      from zero. The result has eight decimals and is the nearest such value, the one farther from
      zero on a tie. */
  function Round8(x: real): (r: real)
    ensures x >= 0.0 ==> r >= 0.0
    ensures x <= 0.0 ==> r <= 0.0
    ensures OnGrid(r)
    ensures x >= 0.0 ==> x - 0.000000005 < r <= x + 0.000000005
    ensures x < 0.0 ==> x - 0.000000005 <= r < x + 0.000000005
  {
    if x >= 0.0 then RoundUnsigned(x) else NegateOnGrid(RoundUnsigned(-x)); -RoundUnsigned(-x)
  }

  lemma NegateOnGrid(r: real)
    requires OnGrid(r)
    ensures OnGrid(-r)
  {
    var n := (r * 100000000.0).Floor;
    assert -r * 100000000.0 == (-n) as real;
  }

  /** Two values with eight decimals less than 10^-8 apart are equal. */
  lemma GridPointsApart(r: real, s: real)
    requires OnGrid(r) && OnGrid(s)
    requires r - s < 0.00000001 && s - r < 0.00000001
    ensures r == s
  {
    var m, n := (r * 100000000.0).Floor, (s * 100000000.0).Floor;
    assert (r - s) * 100000000.0 == (m - n) as real;
    assert -1.0 < (r - s) * 100000000.0 < 1.0;
  }

  /** The rounding is the only value with eight decimals in its window, so it is exactly
      `toFixed(8)`'s choice. */
  lemma Round8Unique(x: real, r: real)
    requires OnGrid(r)
    requires x >= 0.0 ==> x - 0.000000005 < r <= x + 0.000000005
    requires x < 0.0 ==> x - 0.000000005 <= r < x + 0.000000005
    ensures r == Round8(x)
  {
    GridPointsApart(r, Round8(x));
  }

  /** Values with eight decimals already are left as they are. */
  lemma Round8OnGrid(x: real)
    requires OnGrid(x)
    ensures Round8(x) == x
  {
    Round8Unique(x, x);
  }

  lemma Round8Negate(x: real)
    ensures Round8(-x) == -Round8(x)
  {
    if x == 0.0 {
      assert -x == x;
    }
  }

  /** Values more than 10^-8 apart never round to the same result. */
  lemma Round8Separates(x: real, y: real)
    requires x - y > 0.00000001 || y - x > 0.00000001
    ensures Round8(x) != Round8(y)
  {
  }
}
