/**
 * Money values as the live dashboard stores them. Every stored amount is
 * re-rounded with `parseFloat(x.toFixed(2))` right after each addition;
 * amounts are modelled as exact reals, so binary floating point is not.
 */
module Money {

  /**
   * Whole cents of `x`, rounding half away from zero: `toFixed(2)` rounds the
   * magnitude and writes the sign back in front of it.
   */
  function Cents(x: real): int {
    if x >= 0.0 then (x * 100.0 + 0.5).Floor else -((-x * 100.0 + 0.5).Floor)
  }

  /** `parseFloat(x.toFixed(2))`: x rounded to two decimals. */
  function Round2(x: real): real {
    Cents(x) as real / 100.0
  }

  /** x has at most two fractional decimal digits. */
  predicate IsCents(x: real) {
    (x * 100.0).Floor as real == x * 100.0
  }

  /** Cents never moves a value by more than half a cent. */
  lemma CentsNear(x: real)
    ensures x * 100.0 - 0.5 <= Cents(x) as real <= x * 100.0 + 0.5
  {
  }

  /** Rounding yields a two-decimal value, off by at most half a cent. */
  lemma Round2Bounds(x: real)
    ensures IsCents(Round2(x))
    ensures x - 0.005 <= Round2(x) <= x + 0.005
  {
    CentsNear(x);
    var c := Cents(x);
    assert Round2(x) * 100.0 == c as real;
  }

  /** A value that already has two decimals is left alone. */
  lemma Round2OfCents(x: real)
    requires IsCents(x)
    ensures Round2(x) == x
  {
    var n := (x * 100.0).Floor;
    assert x * 100.0 == n as real;
    if x >= 0.0 {
      assert (x * 100.0 + 0.5).Floor == n;
    } else {
      assert (-x * 100.0 + 0.5).Floor == -n;
    }
  }

  /** Rounding twice is rounding once. */
  lemma Round2Idempotent(x: real)
    ensures Round2(Round2(x)) == Round2(x)
  {
    Round2Bounds(x);
    Round2OfCents(Round2(x));
  }

  /** Rounding preserves order (ties included), so a larger sum never shows as a smaller one. */
  lemma Round2Monotone(x: real, y: real)
    requires x <= y
    ensures Round2(x) <= Round2(y)
  {
    assert Cents(x) <= Cents(y);
  }

  /**
   * Adding a non-negative amount to a non-negative two-decimal total and
   * rounding is the same as adding the amount already rounded: per-step
   * rounding of a running total loses nothing beyond each amount's own rounding.
   */
  lemma Round2AddCents(c: real, a: real)
    requires IsCents(c) && c >= 0.0 && a >= 0.0
    ensures Round2(c + a) == c + Round2(a)
  {
    var n := (c * 100.0).Floor;
    assert c * 100.0 == n as real;
    assert (c + a) * 100.0 + 0.5 == n as real + (a * 100.0 + 0.5);
    assert Cents(c + a) == n + Cents(a);
  }

  /** The running total never decreases when a non-negative amount is added. */
  lemma Round2AddNonDecreasing(c: real, a: real)
    requires IsCents(c) && a >= 0.0
    ensures Round2(c + a) >= c
  {
    Round2Monotone(c, c + a);
    Round2OfCents(c);
  }

  /**
   * An amount of 19.999 is stored as 20, and an exact half cent moves away
   * from zero: 0.125 is stored as 0.13 and -0.125 as -0.13.
   */
  lemma Round2Examples()
    ensures Round2(19.999) == 20.0
    ensures Round2(0.125) == 0.13
    ensures Round2(-0.125) == -0.13
  {
    assert (19.999 * 100.0 + 0.5).Floor == 2000;
    assert (0.125 * 100.0 + 0.5).Floor == 13;
  }

  /**
   * Without the sign conditions of `Round2AddCents` the identity fails: a
   * total of 1.00 plus an amount of -0.125 is stored as 0.88, while adding
   * the rounded amount would give 0.87.
   */
  lemma Round2AddNegative()
    ensures Round2(1.0 + -0.125) == 0.88
    ensures 1.0 + Round2(-0.125) == 0.87
  {
    assert (0.875 * 100.0 + 0.5).Floor == 88;
    assert (0.125 * 100.0 + 0.5).Floor == 13;
  }
}
