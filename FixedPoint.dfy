/**
 * The fixed-point helpers of server_mytime.py: a timestamp is split into an
 * integral part and an n-bit fraction (n = 32 for the 32.32 timestamp format,
 * n = 16 for the 16.16 short format of section 6 of RFC 5905) and rebuilt from
 * them. Timestamps are exact reals here; the source computes with floats.
 */
module FixedPoint {
  import opened PyInt

  function Abs(x: real): real
  {
    if x < 0.0 then -x else x
  }

  /** `_to_int`: Python's `int()` on a float, which truncates toward zero. */
  function ToInt(t: real): (i: int)
    ensures 0.0 <= t ==> 0 <= i && i as real <= t < i as real + 1.0
    ensures t < 0.0 ==> i <= 0 && i as real - 1.0 < t <= i as real
  {
    if t >= 0.0 then t.Floor else -((-t).Floor)
  }

  /** x / 2^n, written as n halvings. */
  function DivPow2(x: real, n: nat): real
  {
    if n == 0 then x else DivPow2(x, n - 1) / 2.0
  }

  /** x * 2^n, written as n doublings. */
  function MulPow2(x: real, n: nat): real
  {
    if n == 0 then x else 2.0 * MulPow2(x, n - 1)
  }

  lemma {:induction false} DivPow2Is(x: real, n: nat)
    ensures DivPow2(x, n) == x / Pow2(n) as real
  {
    if n > 0 {
      DivPow2Is(x, n - 1);
      HalveQuotient(x, Pow2(n - 1) as real);
    }
  }

  lemma {:induction false} MulPow2Is(x: real, n: nat)
    ensures MulPow2(x, n) == x * Pow2(n) as real
  {
    if n > 0 {
      MulPow2Is(x, n - 1);
    }
  }

  /** `_to_frac`: the distance of t from its integral part, scaled by 2^n and
      truncated. The distance is taken as an absolute value, so the fraction
      is never negative. */
  function ToFrac(t: real, n: nat): (f: int)
    ensures 0 <= f < Pow2(n)
  {
    var d := Abs(t - ToInt(t) as real);
    ScaledFloorIs(d, n);
    MulPow2(d, n).Floor
  }

  /** The integer part of d * p, for d in [0, 1). */
  function ScaledFloor(d: real, p: nat): (f: int)
    requires 0.0 <= d < 1.0 && 0 < p
    ensures 0 <= f < p
  {
    MulBelow(d, p as real);
    FloorRange(d * p as real, p);
    (d * p as real).Floor
  }

  lemma ScaledFloorIs(d: real, n: nat)
    requires 0.0 <= d < 1.0
    ensures MulPow2(d, n).Floor == ScaledFloor(d, Pow2(n))
  {
    MulPow2Is(d, n);
  }

  lemma ToFracScaled(t: real, n: nat)
    ensures ToFrac(t, n) == ScaledFloor(Abs(t - ToInt(t) as real), Pow2(n))
  {
    MulPow2Is(Abs(t - ToInt(t) as real), n);
  }

  /** `_to_time`: the value of integral part i and n-bit fraction f; a fraction
      inside its n bits adds less than one to the integral part. */
  function ToTime(i: int, f: int, n: nat): (r: real)
    ensures 0 <= f < Pow2(n) ==> i as real <= r < i as real + 1.0
  {
    FractionBelowOne(f, n);
    i as real + DivPow2(f as real, n)
  }

  lemma FractionBelowOne(f: int, n: nat)
    ensures 0 <= f < Pow2(n) ==> 0.0 <= DivPow2(f as real, n) < 1.0
  {
    DivPow2Is(f as real, n);
    if 0 <= f < Pow2(n) {
      DivBelowOne(f as real, Pow2(n) as real);
    }
  }

  /** Rebuilding from in-range parts and splitting again gives the parts back. */
  lemma SplitAfterBuild(i: int, f: int, n: nat)
    requires 0 <= i && 0 <= f < Pow2(n)
    ensures ToInt(ToTime(i, f, n)) == i
    ensures ToFrac(ToTime(i, f, n), n) == f
  {
    DivPow2Is(f as real, n);
    ToFracScaled(ToTime(i, f, n), n);
    SplitAfterBuildScaled(i, f, Pow2(n));
  }

  lemma SplitAfterBuildScaled(i: int, f: int, p: nat)
    requires 0 <= i && 0 <= f < p
    ensures ToInt(i as real + f as real / p as real) == i
    ensures ScaledFloor(Abs(i as real + f as real / p as real - i as real), p) == f
  {
    var q := f as real / p as real;
    DivBelowOne(f as real, p as real);
    DivCancel(f as real, p as real);
    assert Abs(i as real + q - i as real) == q;
  }

  /** Splitting a non-negative t and rebuilding it loses less than 2^-n. */
  lemma BuildAfterSplit(t: real, n: nat)
    requires 0.0 <= t
    ensures t - 1.0 / Pow2(n) as real < ToTime(ToInt(t), ToFrac(t, n), n) <= t
  {
    DivPow2Is(ToFrac(t, n) as real, n);
    ToFracScaled(t, n);
    BuildAfterSplitScaled(t, Pow2(n));
  }

  lemma BuildAfterSplitScaled(t: real, p: nat)
    requires 0.0 <= t && 0 < p
    ensures var f := ScaledFloor(Abs(t - ToInt(t) as real), p);
      t - 1.0 / p as real < ToInt(t) as real + f as real / p as real <= t
  {
    var pr := p as real;
    var d := t - ToInt(t) as real;
    var f := ScaledFloor(Abs(d), p);
    assert Abs(d) == d;
    assert f as real <= d * pr < f as real + 1.0;
    ScaledBounds(d, pr, f as real);
  }

  /** A floor f of d * p, divided back by p, lies within 1 / p below d. */
  lemma ScaledBounds(d: real, pr: real, f: real)
    requires 0.0 < pr && f <= d * pr < f + 1.0
    ensures d - 1.0 / pr < f / pr <= d
  {
    DivCancel(f, pr);
    MulLeCancel(f / pr, d, pr);
    DivCancel(1.0, pr);
    assert (d - 1.0 / pr) * pr == d * pr - 1.0;
    MulLtCancel(d - 1.0 / pr, f / pr, pr);
  }

  /** y is the magnitude of x truncated to n fraction bits: below |x| by less than 2^-n. */
  predicate Truncates(x: real, y: real, n: nat)
  {
    Abs(x) - 1.0 / Pow2(n) as real < y <= Abs(x)
  }

  /** Splitting any t above -1 and rebuilding it gives its magnitude truncated to n
      fraction bits: for t in (-1, 0) the sign is lost. */
  lemma MagnitudeAfterSplit(t: real, n: nat)
    requires -1.0 < t
    ensures Truncates(t, ToTime(ToInt(t), ToFrac(t, n), n), n)
  {
    if t < 0.0 {
      SignLostBelowZero(t, n);
      BuildAfterSplit(-t, n);
    } else {
      BuildAfterSplit(t, n);
    }
  }

  /** The integral part lies in [0, m) exactly when t lies in (-1, m). */
  lemma IntPartFits(t: real, m: nat)
    requires m >= 1
    ensures 0 <= ToInt(t) < m <==> -1.0 < t < m as real
  {
  }

  /** Between -1 and 0 the sign is lost: -t and t split into the same parts. */
  lemma SignLostBelowZero(t: real, n: nat)
    requires -1.0 < t < 0.0
    ensures ToInt(t) == ToInt(-t) == 0
    ensures ToFrac(t, n) == ToFrac(-t, n)
  {
  }

  lemma MulBelow(d: real, p: real)
    requires 0.0 <= d < 1.0 && 0.0 < p
    ensures 0.0 <= d * p < p
  {
  }

  lemma FloorRange(x: real, m: int)
    requires 0.0 <= x < m as real
    ensures 0 <= x.Floor < m
  {
  }

  lemma DivCancel(x: real, p: real)
    requires 0.0 < p
    ensures (x / p) * p == x
  {
  }

  lemma MulLeCancel(a: real, b: real, p: real)
    requires 0.0 < p && a * p <= b * p
    ensures a <= b
  {
  }

  lemma MulLtCancel(a: real, b: real, p: real)
    requires 0.0 < p && a * p < b * p
    ensures a < b
  {
  }

  lemma HalveQuotient(x: real, p: real)
    requires 0.0 < p
    ensures (x / p) / 2.0 == x / (2.0 * p)
  {
  }

  lemma DivBelowOne(x: real, p: real)
    requires 0.0 <= x < p
    ensures 0.0 <= x / p < 1.0
  {
    DivCancel(x, p);
    MulLtCancel(x / p, 1.0, p);
    MulLeCancel(0.0, x / p, p);
  }
}
