/**
 * The Python integer operators that the packet codec applies to field values:
 * `<<`, `>>` and `|` on arbitrary-precision integers, negative ones included.
 * Python defines `|` over the infinite two's-complement expansion of its
 * operands, so `-1 << 16 | 5` is the negative number -65531 and not a 32-bit
 * pattern; the model keeps that, because it decides whether packing fails.
 */
module PyInt {

  /** 2 to the power n. */
  function Pow2(n: nat): (p: nat)
    ensures p >= 1
  {
    if n == 0 then 1 else 2 * Pow2(n - 1)
  }

  lemma {:induction false} Pow2Add(a: nat, b: nat)
    ensures Pow2(a + b) == Pow2(a) * Pow2(b)
  {
    if a > 0 {
      Pow2Add(a - 1, b);
    }
  }

  /** Python `x << k`: exact multiplication by 2^k, for negative x too. */
  function Shl(x: int, k: nat): int
  {
    x * Pow2(k)
  }

  /** Python `x >> k`: division by 2^k rounded toward negative infinity,
      which is what Dafny's `/` does for a positive divisor. */
  function Shr(x: int, k: nat): (r: int)
    ensures r * Pow2(k) <= x < r * Pow2(k) + Pow2(k)
  {
    x / Pow2(k)
  }

  /** Distance of x from the two fixed points 0 and -1 of halving. */
  function Magnitude(x: int): nat
  {
    if x < 0 then -x - 1 else x
  }

  lemma HalfMagnitude(x: int)
    ensures Magnitude(x / 2) <= Magnitude(x)
    ensures Magnitude(x) > 0 ==> Magnitude(x / 2) < Magnitude(x)
  {
  }

  /** Python `a | b` on int, one bit at a time from the least significant end;
      0 and -1 are the all-zeros and all-ones expansions. */
  function Or(a: int, b: int): int
    decreases Magnitude(a) + Magnitude(b)
  {
    if (a == 0 || a == -1) && (b == 0 || b == -1) then
      if a == -1 || b == -1 then -1 else 0
    else
      HalfMagnitude(a);
      HalfMagnitude(b);
      2 * Or(a / 2, b / 2) + (if a % 2 == 1 || b % 2 == 1 then 1 else 0)
  }

  /** Or-ing in zero changes nothing. */
  lemma {:induction false} OrZero(a: int)
    ensures Or(a, 0) == a
    decreases Magnitude(a)
  {
    if a != 0 && a != -1 {
      HalfMagnitude(a);
      OrZero(a / 2);
    }
  }

  /** When b fits in the k low bits that `a << k` leaves clear, or is addition. */
  lemma {:induction false} OrShiftAdd(a: int, k: nat, b: int)
    requires 0 <= b < Pow2(k)
    ensures Or(Shl(a, k), b) == Shl(a, k) + b
  {
    if k == 0 {
      assert b == 0;
      OrZero(a);
    } else if a == 0 && b == 0 {
    } else {
      var s, h := Shl(a, k), Shl(a, k - 1);
      ShlStep(a, k);
      assert s / 2 == h && s % 2 == 0;
      OrShiftAdd(a, k - 1, b / 2);
      assert Or(s, b) == 2 * Or(h, b / 2) + b % 2;
    }
  }

  /** Shifting by k is shifting by k - 1 and doubling. */
  lemma ShlStep(a: int, k: nat)
    requires k > 0
    ensures Shl(a, k) == 2 * Shl(a, k - 1)
  {
    var p := Pow2(k - 1);
    assert Pow2(k) == 2 * p;
    assert a * (2 * p) == 2 * (a * p);
  }

  /** The result is negative exactly when an operand is. */
  lemma {:induction false} OrNegative(a: int, b: int)
    ensures Or(a, b) < 0 <==> a < 0 || b < 0
    decreases Magnitude(a) + Magnitude(b)
  {
    if (a == 0 || a == -1) && (b == 0 || b == -1) {
    } else {
      HalfMagnitude(a);
      HalfMagnitude(b);
      OrNegative(a / 2, b / 2);
    }
  }

  /** On non-negative operands the result has every bit of each operand. */
  lemma {:induction false} OrAtLeast(a: int, b: int)
    requires a >= 0 && b >= 0
    ensures Or(a, b) >= a && Or(a, b) >= b
    decreases a + b
  {
    if a == 0 && b == 0 {
    } else {
      OrAtLeast(a / 2, b / 2);
    }
  }

  /** On non-negative operands the result has no bit above the operands' top bit. */
  lemma {:induction false} OrBelow(a: int, b: int, k: nat)
    requires 0 <= a < Pow2(k) && 0 <= b < Pow2(k)
    ensures 0 <= Or(a, b) < Pow2(k)
  {
    if a == 0 && b == 0 {
    } else {
      assert k > 0;
      OrNegative(a, b);
      OrBelow(a / 2, b / 2, k - 1);
    }
  }
}
