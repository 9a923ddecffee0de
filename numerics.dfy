/** The numeric primitives of the JavaScript sources, stated on real numbers:
    `Number.prototype.toFixed` followed by `parseFloat`, `Math.round`, `Math.abs`, `Math.min`. */
module Numerics {

  function Abs(x: real): (r: real)
    ensures r >= 0.0 && (r == x || r == -x)
  {
    if x < 0.0 then -x else x
  }

  function Min(x: real, y: real): (r: real)
    ensures r <= x && r <= y && (r == x || r == y)
  {
    if x <= y then x else y
  }

  function Max(x: real, y: real): (r: real)
    ensures r >= x && r >= y && (r == x || r == y)
  {
    if x >= y then x else y
  }

  /** 10 to the power d. */
  function Pow10(d: nat): (p: real)
    ensures p >= 1.0
  {
    if d == 0 then 1.0 else 10.0 * Pow10(d - 1)
  }

  /** The value of `parseFloat(x.toFixed(d))` for a finite x: the nearest multiple of 10^-d,
      a tie going to the one of larger magnitude (toFixed rounds the magnitude and then
      prefixes the sign). */
  function RoundTo(x: real, d: nat): real
  {
    RoundScaled(x, Pow10(d))
  }

  /** Rounding to the nearest multiple of 1/p. */
  function RoundScaled(x: real, p: real): real
    requires p >= 1.0
  {
    RoundMagnitude(x * p) as real / p
  }

  /** The integer that toFixed picks for the scaled value y. */
  function RoundMagnitude(y: real): (n: int)
    ensures Abs(n as real - y) <= 0.5
  {
    if y >= 0.0 then (y + 0.5).Floor else -((-y) + 0.5).Floor
  }

  /** Rounding to d decimals moves a value by at most half a unit of the last decimal. */
  lemma RoundToNear(x: real, d: nat)
    ensures Abs(RoundTo(x, d) - x) <= 1.0 / (2.0 * Pow10(d))
  {
    RoundScaledNear(x, Pow10(d));
  }

  /** Two decimals: within 0.005. */
  lemma RoundTo2Near(x: real)
    ensures Abs(RoundTo(x, 2) - x) <= 0.005
  {
    assert Pow10(2) == 100.0;
    RoundScaledNear(x, 100.0);
  }

  /** One decimal: within 0.05. */
  lemma RoundTo1Near(x: real)
    ensures Abs(RoundTo(x, 1) - x) <= 0.05
  {
    assert Pow10(1) == 10.0;
    RoundScaledNear(x, 10.0);
  }

  lemma RoundScaledNear(x: real, p: real)
    requires p >= 1.0
    ensures Abs(RoundScaled(x, p) - x) <= 1.0 / (2.0 * p)
  {
    var n := RoundMagnitude(x * p);
    var e := n as real / p - x;
    DivTimes(n as real, p);
    assert e * p == n as real - x * p;
    assert 0.5 / p == 1.0 / (2.0 * p);
    if e < 0.0 {
      BelowQuotient(-e, 0.5, p);
    } else {
      BelowQuotient(e, 0.5, p);
    }
  }

  /** Rounding treats a value and its negation alike. */
  lemma RoundToOdd(x: real, d: nat)
    ensures RoundTo(-x, d) == -RoundTo(x, d)
  {
    RoundScaledOdd(x, Pow10(d));
  }

  lemma RoundScaledOdd(x: real, p: real)
    requires p >= 1.0
    ensures RoundScaled(-x, p) == -RoundScaled(x, p)
  {
    var n := RoundMagnitude(x * p);
    assert (-x) * p == -(x * p);
    assert RoundMagnitude((-x) * p) == -n;
    assert (-n) as real / p == -(n as real / p);
  }

  /** Rounding keeps a non-negative value non-negative. */
  lemma RoundToNonNegative(x: real, d: nat)
    requires x >= 0.0
    ensures RoundTo(x, d) >= 0.0
  {
    var p := Pow10(d);
    assert x * p >= 0.0;
    assert RoundMagnitude(x * p) >= 0;
  }

  /** x times p is a whole number. */
  predicate IsScaledInteger(x: real, p: real)
  {
    (x * p).Floor as real == x * p
  }

  /** A value that already has at most d decimals is returned unchanged. */
  lemma RoundToExact(x: real, d: nat)
    requires IsScaledInteger(x, Pow10(d))
    ensures RoundTo(x, d) == x
  {
    RoundScaledExact(x, Pow10(d));
  }

  lemma RoundScaledExact(x: real, p: real)
    requires p >= 1.0
    requires IsScaledInteger(x, p)
    ensures RoundScaled(x, p) == x
  {
    var k := (x * p).Floor;
    assert RoundMagnitude(x * p) == k;
    QuotientOfProduct(k as real, x, p);
  }

  lemma DivTimes(a: real, p: real)
    requires p >= 1.0
    ensures (a / p) * p == a
  {
  }

  lemma BelowQuotient(e: real, b: real, p: real)
    requires p >= 1.0 && e * p <= b
    ensures e <= b / p
  {
    DivTimes(b, p);
    assert (b / p - e) * p == b - e * p;
  }

  /** Dividing a multiple of p by p recovers the factor. */
  lemma QuotientOfProduct(k: real, x: real, p: real)
    requires p >= 1.0 && k == x * p
    ensures k / p == x
  {
    DivTimes(k, p);
    assert (k / p - x) * p == 0.0;
  }

  /** `Math.round`: the nearest integer, a tie going towards positive infinity. */
  function MathRound(x: real): (n: int)
    ensures x - 0.5 < n as real <= x + 0.5
  {
    (x + 0.5).Floor
  }
}
