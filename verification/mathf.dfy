/** The handful of `UnityEngine.Mathf` helpers the core relies on, over reals.
    `Lerp` and `InverseLerp` clamp their parameter to [0, 1], as Unity's do. */
module Mathf {

  function Min(a: real, b: real): (r: real)
    ensures r <= a && r <= b
    ensures r == a || r == b
  {
    if a < b then a else b
  }

  function Max(a: real, b: real): (r: real)
    ensures a <= r && b <= r
    ensures r == a || r == b
  {
    if a > b then a else b
  }

  function Clamp01(t: real): (r: real)
    ensures 0.0 <= r <= 1.0
    ensures 0.0 <= t <= 1.0 ==> r == t
  {
    if t < 0.0 then 0.0 else if t > 1.0 then 1.0 else t
  }

  /** `Mathf.Lerp(a, b, t)`: the point a fraction `Clamp01(t)` of the way from a to b.
      Its properties are the lemmas below, so that a use of `Lerp` does not bring
      them into every proof. */
  function Lerp(a: real, b: real, t: real): real {
    a + (b - a) * Clamp01(t)
  }

  /** Inside [0, 1] the parameter is used as it is. */
  lemma LerpExact(a: real, b: real, t: real)
    requires 0.0 <= t <= 1.0
    ensures Lerp(a, b, t) == a + (b - a) * t
  {
  }

  /** The result always lies between the two ends, whatever `t` is. */
  lemma LerpBetween(a: real, b: real, t: real)
    ensures a <= b ==> a <= Lerp(a, b, t) <= b
    ensures b <= a ==> b <= Lerp(a, b, t) <= a
  {
    var u := Clamp01(t);
    if a <= b {
      MulNonneg(b - a, u);
      MulNonneg(b - a, 1.0 - u);
    } else {
      MulNonneg(a - b, u);
      MulNonneg(a - b, 1.0 - u);
    }
  }

  lemma MulNonneg(a: real, b: real)
    requires 0.0 <= a && 0.0 <= b
    ensures 0.0 <= a * b
  {
  }

  /** `Mathf.InverseLerp(a, b, v)`: where v lies between a and b, as a clamped
      fraction; 0 when the range is empty. */
  function InverseLerp(a: real, b: real, v: real): (r: real)
    ensures 0.0 <= r <= 1.0
  {
    if a != b then Clamp01((v - a) / (b - a)) else 0.0
  }

  /** Inside the range, `InverseLerp` undoes `Lerp`. */
  lemma LerpInverseLerp(a: real, b: real, v: real)
    requires a < b && a <= v <= b
    ensures Lerp(a, b, InverseLerp(a, b, v)) == v
  {
    var r := (v - a) / (b - a);
    FractionInUnit(v - a, b - a);
    LerpExact(a, b, r);
  }

  /** A part of a positive whole is a fraction in [0, 1]. */
  lemma FractionInUnit(x: real, d: real)
    requires 0.0 <= x <= d && 0.0 < d
    ensures 0.0 <= x / d <= 1.0
  {
    var q := x / d;
    assert q * d == x;
    if q < 0.0 {
      MulNonneg(-q, d);
    }
    if q > 1.0 {
      MulNonneg(q - 1.0, d);
    }
  }

  /** A part strictly smaller than a positive whole is a fraction in [0, 1). */
  lemma FractionBelowOne(x: real, d: real)
    requires 0.0 <= x < d
    ensures 0.0 <= x / d < 1.0
  {
    FractionInUnit(x, d);
    assert (x / d) * d == x;
  }

  /** The one number that gives `a` when multiplied by `d` is `a / d`. */
  lemma QuotientUnique(x: real, a: real, d: real)
    requires d != 0.0 && x * d == a
    ensures x == a / d
  {
  }

  /** Dividing a sum by a positive whole divides each part. */
  lemma DivideSum(a: real, l: real, t: real)
    requires 0.0 < t
    ensures (a + l) / t - a / t == l / t
  {
  }
}
