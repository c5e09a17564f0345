/**
  The download-progress fraction shown while a file downloads.  The byte
  counters are Swift `Int64`s; the fraction is computed exactly over the
  reals instead of in `Float`.
 */
module Progress {

  newtype int64 = x: int | -0x8000_0000_0000_0000 <= x < 0x8000_0000_0000_0000

  /** Size assumed for a file whose length the server did not announce (10 MB). */
  const AssumedSize: int := 10000000

  /**
    `totalBytesWritten` over `totalBytesExpectedToWrite` when the latter is
    positive, otherwise over the assumed size.  Not clamped to 1.
   */
  function Fraction(written: int64, expected: int64): (p: real)
    ensures expected > 0 ==> p * (expected as int) as real == (written as int) as real
    ensures expected <= 0 ==> p * AssumedSize as real == (written as int) as real
  {
    if expected > 0 then (written as int) as real / (expected as int) as real
    else (written as int) as real / AssumedSize as real
  }

  /** The denominator the fraction was divided by. */
  function Denominator(expected: int64): (d: int)
    ensures d > 0
  {
    if expected > 0 then expected as int else AssumedSize
  }

  lemma FractionTimesDenominator(written: int64, expected: int64)
    ensures Fraction(written, expected) * Denominator(expected) as real == (written as int) as real
  {
  }

  /** A positive factor keeps the sign of a product. */
  lemma ProductSign(x: real, d: real)
    requires d > 0.0
    ensures x * d >= 0.0 ==> x >= 0.0
  {
    if x < 0.0 {
      assert -x > 0.0;
      assert (-x) * d > 0.0;
    }
  }

  /** For a fixed expected size, more bytes written never shows less progress. */
  lemma FractionMonotone(w1: int64, w2: int64, expected: int64)
    requires w1 <= w2
    ensures Fraction(w1, expected) <= Fraction(w2, expected)
  {
    var d := Denominator(expected) as real;
    var p1 := Fraction(w1, expected);
    var p2 := Fraction(w2, expected);
    FractionTimesDenominator(w1, expected);
    FractionTimesDenominator(w2, expected);
    assert (p2 - p1) * d == p2 * d - p1 * d;
    ProductSign(p2 - p1, d);
  }

  /** With a known size, the fraction lies in [0, 1] while no more than that size is written. */
  lemma KnownSizeWithinUnit(written: int64, expected: int64)
    requires 0 < expected && 0 <= written <= expected
    ensures 0.0 <= Fraction(written, expected) <= 1.0
    ensures written == expected ==> Fraction(written, expected) == 1.0
  {
    FractionMonotone(0, written, expected);
    FractionMonotone(written, expected, expected);
    assert Fraction(0, expected) == 0.0;
    assert Fraction(expected, expected) == 1.0;
  }

  /** With an unknown size, more than 10 MB written shows a fraction above 1. */
  lemma UnknownSizeExceedsOne(written: int64, expected: int64)
    requires expected <= 0 && written as int > AssumedSize
    ensures Fraction(written, expected) > 1.0
  {
    var p := Fraction(written, expected);
    assert (p - 1.0) * AssumedSize as real == (written as int - AssumedSize) as real;
  }

  /** Non-decreasing counters. */
  predicate NonDecreasing(ws: seq<int64>) {
    forall i, j :: 0 <= i < j < |ws| ==> ws[i] <= ws[j]
  }

  predicate NonDecreasingReals(ps: seq<real>) {
    forall i, j :: 0 <= i < j < |ps| ==> ps[i] <= ps[j]
  }
}
