/** `add_distance` on binary floating point: a 24-bit significand, gradual
    underflow, round-to-nearest-even (IEEE 754-2019, section 4.3.1). Values are
    counted in the smallest positive one, and `k` is the exponent of the coarsest
    spacing: 253 for single precision. */
module SinglePrecision {
  import opened Costs
  import opened EditScripts
  import opened Kernel

  const SIGNIFICAND: nat := 0x100_0000

  // ----- Multiples -----

  function Mul(q: int, u: nat): int {
    q * u
  }

  lemma MulAdds(a: int, b: int, u: nat)
    ensures Mul(a + b, u) == Mul(a, u) + Mul(b, u)
    ensures Mul(-a, u) == -Mul(a, u)
  {
  }

  lemma {:induction false} MulPositive(c: nat, u: nat)
    requires 0 < c
    ensures u <= Mul(c, u)
  {
    MulAdds(c - 1, 1, u);
    if c > 1 {
      MulPositive(c - 1, u);
    }
  }

  /** Different multiples are at least one spacing apart. */
  lemma MulOrder(a: int, b: int, u: nat)
    requires 0 < u
    ensures a < b ==> Mul(a, u) + u <= Mul(b, u)
    ensures b < a ==> Mul(b, u) + u <= Mul(a, u)
  {
    hide Mul;
    MulAdds(b, 0 - a, u);
    MulAdds(a, 0 - b, u);
    MulAdds(a, 0, u);
    MulAdds(b, 0, u);
    if a < b {
      MulPositive(b - a, u);
    } else if b < a {
      MulPositive(a - b, u);
    }
  }

  lemma MulConstants(u: nat)
    ensures Mul(0, u) == 0 && Mul(1, u) == u && Mul(2, u) == 2 * u
    ensures Mul(SIGNIFICAND, u) == SIGNIFICAND * u && Mul(SIGNIFICAND - 1, u) == (SIGNIFICAND - 1) * u
    ensures Mul(SIGNIFICAND / 2, u) == SIGNIFICAND / 2 * u
    ensures Mul(2 * (SIGNIFICAND - 1), u) == (SIGNIFICAND - 1) * (2 * u)
  {
  }

  lemma MulDoubles(q: int, u: nat)
    ensures Mul(q, 2 * u) == Mul(2 * q, u)
  {
  }

  function Pow2(e: nat): (r: nat)
    ensures 0 < r
  {
    if e == 0 then 1 else 2 * Pow2(e - 1)
  }

  lemma {:induction false} Pow2Grows(a: nat, b: nat)
    requires a < b
    ensures 2 * Pow2(a) <= Pow2(b)
  {
    if a + 1 < b {
      Pow2Grows(a, b - 1);
    }
  }

  /** A multiple of a power of two is a multiple of every smaller one. */
  lemma {:induction false} Refine(m: int, e: nat, f: nat) returns (q: int)
    requires f <= e
    ensures Mul(m, Pow2(e)) == Mul(q, Pow2(f)) && (0 <= m ==> 0 <= q)
    decreases e
  {
    hide Mul;
    if e == f {
      q := m;
    } else {
      MulDoubles(m, Pow2(e - 1));
      q := Refine(2 * m, e - 1, f);
    }
  }

  // ----- Rounding -----

  /** The exponent of the spacing of the values around `x`. */
  function Exponent(x: nat): nat {
    if x < SIGNIFICAND then 0 else 1 + Exponent(x / 2)
  }

  /** The largest finite value whose coarsest spacing is `Pow2(k)`. */
  function Max(k: nat): nat {
    (SIGNIFICAND - 1) * Pow2(k)
  }

  /** The multiple of `u` nearest to `x`, the even one when two are equally near. */
  function Nearest(x: nat, u: nat): int
    requires 0 < u
  {
    var low, rest := x / u, x % u;
    if 2 * rest < u || (2 * rest == u && low % 2 == 0) then Mul(low, u) else Mul(low + 1, u)
  }

  function Round(x: nat): int {
    Nearest(x, Pow2(Exponent(x)))
  }

  /** Rounds a difference: the sign is kept, the magnitude rounded. */
  function RoundSigned(x: int): int {
    if x < 0 then -Round(-x) else Round(x)
  }

  /** At most 24 significant bits. */
  ghost predicate IsFloat(x: nat) {
    exists m: nat, e: nat :: m < SIGNIFICAND && Scaled(x, m, e)
  }

  ghost predicate Scaled(x: nat, m: nat, e: nat) {
    x == Mul(m, Pow2(e))
  }

  /** The error-free transformation at a sum that rounded to the largest value. */
  function Residual(k: nat, left: nat, right: nat): int {
    var rightRounded := RoundSigned(Max(k) - left);
    RoundSigned(RoundSigned(left - RoundSigned(Max(k) - rightRounded)) + RoundSigned(right - rightRounded))
  }

  /** A rounded sum above the largest value is infinite; at exactly the largest
      value the residual tells whether the sum was larger. */
  function AddDistanceF32(k: nat, left: nat, right: nat): Distance {
    RoundIsNatural(left + right);
    var sum := Round(left + right);
    if sum > Max(k) then Infinite
    else if sum != Max(k) then Finite(sum)
    else if Residual(k, left, right) > 0 then Infinite
    else Finite(sum)
  }

  lemma RoundIsNatural(x: nat)
    ensures 0 <= Round(x)
  {
    var u := Pow2(Exponent(x));
    NearestAtLeast(x, u, 0);
    MulConstants(u);
  }

  /** `x` lies in the binade of its exponent. */
  lemma {:induction false} ExponentBounds(x: nat)
    ensures x < SIGNIFICAND * Pow2(Exponent(x))
    ensures 0 < Exponent(x) ==> SIGNIFICAND * Pow2(Exponent(x)) <= 2 * x
  {
    if x >= SIGNIFICAND {
      ExponentBounds(x / 2);
    }
  }

  lemma ExponentAtMost(x: nat, e: nat)
    requires x < SIGNIFICAND * Pow2(e)
    ensures Exponent(x) <= e
  {
    ExponentBounds(x);
    if e < Exponent(x) {
      Pow2Grows(e, Exponent(x));
    }
  }

  lemma ExponentAtLeast(x: nat, e: nat)
    requires 0 < e ==> SIGNIFICAND * Pow2(e) <= 2 * x
    ensures e <= Exponent(x)
  {
    ExponentBounds(x);
    if Exponent(x) < e {
      Pow2Grows(Exponent(x), e);
    }
  }

  lemma Divide(x: nat, u: nat) returns (low: nat, rest: nat)
    requires 0 < u
    ensures x == Mul(low, u) + rest && rest < u
    ensures Nearest(x, u) ==
            if 2 * rest < u || (2 * rest == u && low % 2 == 0) then Mul(low, u) else Mul(low + 1, u)
  {
    low, rest := x / u, x % u;
  }

  lemma NearestIsNear(x: nat, u: nat) returns (q: nat)
    requires 0 < u
    ensures Nearest(x, u) == Mul(q, u)
    ensures 2 * Mul(q, u) <= 2 * x + u && 2 * x <= 2 * Mul(q, u) + u
  {
    hide Mul, Nearest;
    var low, rest := Divide(x, u);
    MulAdds(low, 1, u);
    MulConstants(u);
    q := if Nearest(x, u) == Mul(low, u) then low else low + 1;
  }

  /** A multiple closer than half the spacing is the nearest. */
  lemma NearestIsUnique(x: nat, u: nat, q: int)
    requires 0 < u && 2 * Mul(q, u) < 2 * x + u && 2 * x < 2 * Mul(q, u) + u
    ensures Nearest(x, u) == Mul(q, u)
  {
    hide Mul, Nearest;
    var found := NearestIsNear(x, u);
    MulOrder(found, q, u);
  }

  lemma NearestAtLeast(x: nat, u: nat, q: int)
    requires 0 < u && Mul(q, u) <= x
    ensures Mul(q, u) <= Nearest(x, u)
  {
    hide Mul, Nearest;
    var low, rest := Divide(x, u);
    MulOrder(low, q, u);
    MulOrder(low, low + 1, u);
  }

  lemma NearestAtMost(x: nat, u: nat, q: int)
    requires 0 < u && x <= Mul(q, u)
    ensures Nearest(x, u) <= Mul(q, u)
  {
    hide Mul, Nearest;
    var low, rest := Divide(x, u);
    MulOrder(low, q, u);
    MulOrder(low + 1, q, u);
  }

  /** An odd multiple is never chosen on a tie. */
  lemma NearestIsStrict(x: nat, u: nat, q: nat)
    requires 0 < u && Nearest(x, u) == Mul(q, u) && q % 2 == 1
    ensures 2 * Mul(q, u) < 2 * x + u && 2 * x < 2 * Mul(q, u) + u
  {
    hide Mul, Nearest;
    var low, rest := Divide(x, u);
    MulOrder(low, q, u);
    MulOrder(low + 1, q, u);
    MulAdds(low, 1, u);
    MulConstants(u);
  }

  // ----- What is rounded exactly -----

  /** At most 24 significant bits round to themselves. */
  lemma RoundIsExact(x: nat, m: nat, e: nat)
    requires m < SIGNIFICAND && x == Mul(m, Pow2(e))
    ensures Round(x) == x
  {
    hide Mul, Nearest;
    MulOrder(m, SIGNIFICAND, Pow2(e));
    MulConstants(Pow2(e));
    ExponentAtMost(x, e);
    var q := Refine(m, e, Exponent(x));
    NearestIsUnique(x, Pow2(Exponent(x)), q);
  }

  lemma RoundSignedIsExact(x: int, m: int, e: nat)
    requires 0 - SIGNIFICAND < m < SIGNIFICAND && x == Mul(m, Pow2(e))
    ensures RoundSigned(x) == x
  {
    hide Mul, Round;
    MulConstants(Pow2(e));
    if m < 0 {
      MulOrder(m, 0, Pow2(e));
      MulAdds(m, 0, Pow2(e));
      RoundIsExact(-x, -m, e);
    } else {
      MulOrder(0, m, Pow2(e));
      RoundIsExact(x, m, e);
    }
  }

  lemma ZeroIsExact()
    ensures RoundSigned(0) == 0
  {
    MulConstants(Pow2(0));
    RoundSignedIsExact(0, 0, 0);
  }

  lemma FloatIsExact(x: nat)
    requires IsFloat(x)
    ensures Round(x) == x && RoundSigned(x) == x
  {
    var m: nat, e: nat :| m < SIGNIFICAND && Scaled(x, m, e);
    RoundIsExact(x, m, e);
  }

  lemma RoundKeepsSign(x: int)
    ensures 0 < RoundSigned(x) <==> 0 < x
  {
    hide Mul, Nearest;
    if x < 0 {
      RoundIsNatural(-x);
    } else if x < SIGNIFICAND {
      MulOrder(x, x, 1);
      assert Mul(x, Pow2(0)) == x by {
        UnitMultiple(x);
      }
      RoundIsExact(x, x, 0);
    } else {
      var u := Pow2(Exponent(x));
      ExponentBounds(x);
      MulConstants(u);
      NearestAtLeast(x, u, 1);
    }
  }

  lemma UnitMultiple(x: int)
    ensures Mul(x, Pow2(0)) == x
  {
  }

  // ----- Around the largest value -----

  ghost predicate NearMax(k: nat, s: nat) {
    2 * Max(k) < 2 * s + Pow2(k) && 2 * s < 2 * Max(k) + Pow2(k)
  }

  lemma RoundBelowTopBinade(k: nat, s: nat)
    requires Exponent(s) < k
    ensures Round(s) < Max(k) && s < Max(k)
  {
    hide Mul, Nearest, Exponent, Pow2;
    var u := Pow2(Exponent(s));
    ExponentBounds(s);
    MulConstants(u);
    NearestAtMost(s, u, SIGNIFICAND);
    Pow2Grows(Exponent(s), k);
  }

  lemma RoundAboveTopBinade(k: nat, s: nat)
    requires k < Exponent(s)
    ensures Max(k) < Round(s) && Max(k) < s
  {
    hide Mul, Nearest, Exponent, Pow2;
    var u := Pow2(Exponent(s));
    ExponentBounds(s);
    MulConstants(u);
    Pow2Grows(k, Exponent(s));
    NearestAtLeast(s, u, SIGNIFICAND / 2);
  }

  lemma RoundInTopBinade(k: nat, s: nat)
    requires Exponent(s) == k
    ensures Max(k) < Round(s) ==> Max(k) < s
    ensures Round(s) < Max(k) ==> s < Max(k)
    ensures Round(s) == Max(k) ==> NearMax(k, s)
  {
    hide Mul, Nearest, Exponent, Pow2;
    var u := Pow2(k);
    MulConstants(u);
    if s <= Max(k) {
      NearestAtMost(s, u, SIGNIFICAND - 1);
    }
    if Max(k) <= s {
      NearestAtLeast(s, u, SIGNIFICAND - 1);
    }
    if Round(s) == Max(k) {
      NearestIsStrict(s, u, SIGNIFICAND - 1);
    }
  }

  /** Rounding decides the side of the largest value, except right at it. */
  lemma RoundAroundMax(k: nat, s: nat)
    ensures Max(k) < Round(s) ==> Max(k) < s
    ensures Round(s) < Max(k) ==> s < Max(k)
    ensures Round(s) == Max(k) ==> NearMax(k, s)
  {
    hide *;
    if Exponent(s) < k {
      RoundBelowTopBinade(k, s);
    } else if k < Exponent(s) {
      RoundAboveTopBinade(k, s);
    } else {
      RoundInTopBinade(k, s);
    }
  }

  // ----- The error-free transformation -----

  lemma FloatIsMultiple(x: nat) returns (q: nat)
    requires IsFloat(x)
    ensures q < SIGNIFICAND && x == Mul(q, Pow2(Exponent(x)))
  {
    hide Mul;
    var m: nat, e: nat :| m < SIGNIFICAND && Scaled(x, m, e);
    MulOrder(m, SIGNIFICAND, Pow2(e));
    MulConstants(Pow2(e));
    ExponentAtMost(x, e);
    q := Refine(m, e, Exponent(x));
    ExponentBounds(x);
    MulConstants(Pow2(Exponent(x)));
    MulOrder(SIGNIFICAND, q, Pow2(Exponent(x)));
  }

  /** A value not far below the largest is a multiple of half the top spacing. */
  lemma UpperMultiple(k: nat, x: nat) returns (q: nat)
    requires 0 < k && IsFloat(x) && SIGNIFICAND * Pow2(k - 1) <= 2 * x
    ensures x == Mul(q, Pow2(k - 1))
  {
    hide Mul;
    var m := FloatIsMultiple(x);
    ExponentAtLeast(x, k - 1);
    q := Refine(m, Exponent(x), k - 1);
  }

  lemma MaxInHalves(k: nat)
    requires 0 < k
    ensures Max(k) == Mul(2 * (SIGNIFICAND - 1), Pow2(k - 1)) == (2 * (SIGNIFICAND - 1)) * Pow2(k - 1)
    ensures Pow2(k) == 2 * Pow2(k - 1)
  {
    MulConstants(Pow2(k - 1));
  }

  /** The difference to the largest value is exact from its half on. */
  lemma UpperHalfDifference(k: nat, x: nat, q: nat)
    requires 0 < k && x == Mul(q, Pow2(k - 1)) && x <= Max(k) <= 2 * x
    ensures RoundSigned(Max(k) - x) == Max(k) - x
  {
    hide Mul, RoundSigned, Max;
    var v, c := Pow2(k - 1), 2 * (SIGNIFICAND - 1) - q;
    MaxInHalves(k);
    MulAdds(2 * (SIGNIFICAND - 1), 0 - q, v);
    MulAdds(q, 0, v);
    MulConstants(v);
    MulOrder(0, c, v);
    MulOrder(q, SIGNIFICAND - 1, v);
    RoundSignedIsExact(Max(k) - x, c, k - 1);
  }

  /** When the left operand is at least half the largest value, the only rounding
      error is the residual itself. */
  lemma ResidualOfLargeLeft(k: nat, left: nat, right: nat)
    requires 0 < k && IsFloat(left) && left <= Max(k) <= 2 * left
    ensures 0 < Residual(k, left, right) <==> Max(k) < left + right
  {
    hide Mul, RoundSigned, Max, Round, IsFloat;
    MaxInHalves(k);
    var q := UpperMultiple(k, left);
    UpperHalfDifference(k, left, q);
    FloatIsExact(left);
    ZeroIsExact();
    RoundKeepsSign(left + right - Max(k));
    RoundKeepsSign(RoundSigned(left + right - Max(k)));
  }

  /** The rounded gap to the largest value, when the left operand is small. */
  lemma RoundedGap(k: nat, left: nat) returns (gap: nat, j: nat)
    requires 0 < k && 2 * left < Max(k)
    ensures gap == RoundSigned(Max(k) - left) == Mul(j, Pow2(k - 1)) && gap <= Max(k) <= 2 * gap
    ensures 0 - Pow2(k - 1) <= gap - (Max(k) - left) <= Pow2(k - 1)
    ensures left < Pow2(k - 1) ==> gap == Max(k)
  {
    hide Mul, Nearest;
    var d, v := Max(k) - left, Pow2(k - 1);
    MaxInHalves(k);
    MulConstants(v);
    MulConstants(Pow2(k));
    ExponentAtLeast(d, k - 1);
    ExponentAtMost(d, k);
    var f := Exponent(d);
    var q := NearestIsNear(d, Pow2(f));
    j := Refine(q, f, k - 1);
    if f == k - 1 {
      NearestAtLeast(d, v, SIGNIFICAND - 1);
    } else {
      ExponentBounds(d);
      NearestAtLeast(d, Pow2(k), SIGNIFICAND / 2);
    }
    RoundAroundMax(k, d);
    gap := Mul(j, v);
    if left < v {
      ExponentAtLeast(d, k);
      NearestIsUnique(d, Pow2(k), SIGNIFICAND - 1);
    }
  }

  /** A multiple no larger than a value with few bits has few bits. */
  lemma SmallMultipleIsExact(x: int, m: int, f: nat, q: nat)
    requires q < SIGNIFICAND && x == Mul(m, Pow2(f))
    requires x <= Mul(q, Pow2(f)) && Mul(0 - q, Pow2(f)) <= x
    ensures RoundSigned(x) == x
  {
    hide Mul, RoundSigned, Pow2;
    MulOrder(q, m, Pow2(f));
    MulOrder(m, 0 - q, Pow2(f));
    RoundSignedIsExact(x, m, f);
  }

  /** The left rounding error is exact: it has no more bits than the operand. */
  lemma LeftErrorIsExact(k: nat, left: nat, gap: nat, j: nat)
    requires 0 < k && IsFloat(left) && 2 * left < Max(k)
    requires gap == Mul(j, Pow2(k - 1)) && gap <= Max(k)
    requires 0 - Pow2(k - 1) <= gap - (Max(k) - left) <= Pow2(k - 1)
    requires left < Pow2(k - 1) ==> gap == Max(k)
    ensures RoundSigned(left - (Max(k) - gap)) == left - (Max(k) - gap)
  {
    hide Mul, RoundSigned, IsFloat, Max, Pow2, Exponent;
    if left < Pow2(k - 1) {
      FloatIsExact(left);
    } else {
      MaxInHalves(k);
      var f, v := Exponent(left), Pow2(k - 1);
      ExponentAtMost(left, k - 1);
      var w := Pow2(f);
      var q: int := FloatIsMultiple(left);
      var a := Refine(2 * (SIGNIFICAND - 1) - j, k - 1, f);
      MulAdds(2 * (SIGNIFICAND - 1), 0 - j, v);
      MulAdds(j, 0, v);
      MulAdds(q, 0 - a, w);
      MulAdds(a, 0, w);
      MulAdds(q, 0, w);
      SmallMultipleIsExact(left - (Max(k) - gap), q - a, f, q);
    }
  }

  /** The right rounding error is zero or one half of the top spacing. */
  lemma RightErrorIsExact(k: nat, left: nat, right: nat, gap: nat, j: nat)
    requires 0 < k && IsFloat(right) && 2 * left < Max(k) && NearMax(k, left + right)
    requires gap == Mul(j, Pow2(k - 1)) && 0 - Pow2(k - 1) <= gap - (Max(k) - left) <= Pow2(k - 1)
    ensures RoundSigned(right - gap) == right - gap
  {
    hide Mul, RoundSigned, IsFloat, Max;
    var v := Pow2(k - 1);
    MaxInHalves(k);
    var t := UpperMultiple(k, right);
    MulAdds(t, 0 - j, v);
    MulAdds(j, 0, v);
    MulConstants(v);
    MulOrder(2, t - j, v);
    MulOrder(t - j, 0 - 2, v);
    MulAdds(2, 0, v);
    RoundSignedIsExact(right - gap, t - j, k - 1);
  }

  lemma ResidualOfSmallLeft(k: nat, left: nat, right: nat)
    requires 0 < k && IsFloat(left) && IsFloat(right) && 2 * left < Max(k) && NearMax(k, left + right)
    ensures 0 < Residual(k, left, right) <==> Max(k) < left + right
  {
    hide Mul, RoundSigned, IsFloat, Max, Pow2, NearMax;
    var gap, j := RoundedGap(k, left);
    UpperHalfDifference(k, gap, j);
    LeftErrorIsExact(k, left, gap, j);
    RightErrorIsExact(k, left, right, gap, j);
    RoundKeepsSign(left + right - Max(k));
  }

  // ----- The claim -----

  /** The sum is infinite exactly when the real sum exceeds the largest value;
      otherwise it is the rounded sum. */
  lemma AddDistanceIsExactAboutOverflow(k: nat, left: nat, right: nat)
    requires 0 < k && IsFloat(left) && IsFloat(right) && left <= Max(k) && right <= Max(k)
    ensures AddDistanceF32(k, left, right) == Infinite <==> Max(k) < left + right
    ensures left + right <= Max(k) ==>
      0 <= Round(left + right) && AddDistanceF32(k, left, right) == Finite(Round(left + right))
  {
    hide Mul, Max, IsFloat, NearMax, Round, Residual;
    RoundAroundMax(k, left + right);
    RoundIsNatural(left + right);
    if Round(left + right) == Max(k) {
      if Max(k) <= 2 * left {
        ResidualOfLargeLeft(k, left, right);
      } else {
        ResidualOfSmallLeft(k, left, right);
      }
    }
  }

  /** Where the sum in range is representable, single-precision addition is the
      capped addition of the rest of this model. */
  lemma ExactSumsAreCapped(k: nat, left: nat, right: nat)
    requires 0 < k && IsFloat(left) && IsFloat(right) && left <= Max(k) && right <= Max(k)
    requires left + right <= Max(k) ==> IsFloat(left + right)
    ensures AddDistanceF32(k, left, right) == AddDistance(Max(k), Finite(left), Finite(right))
  {
    AddDistanceIsExactAboutOverflow(k, left, right);
    if left + right <= Max(k) {
      FloatIsExact(left + right);
    }
  }

  // ----- Addition with infinity -----

  lemma ExponentGrows(x: nat, y: nat)
    requires x <= y
    ensures Exponent(x) <= Exponent(y)
  {
    ExponentBounds(y);
    ExponentAtMost(x, Exponent(y));
  }

  /** Rounding within one spacing is monotone. */
  lemma NearestIsMonotone(x: nat, y: nat, u: nat)
    requires 0 < u && x <= y
    ensures Nearest(x, u) <= Nearest(y, u)
  {
    hide Mul, Nearest;
    var a := NearestIsNear(x, u);
    var b := NearestIsNear(y, u);
    MulOrder(a, b, u);
  }

  lemma RoundIsMonotone(x: nat, y: nat)
    requires x <= y
    ensures Round(x) <= Round(y)
  {
    hide Mul, Nearest, Exponent, Pow2;
    ExponentGrows(x, y);
    var e, f := Exponent(x), Exponent(y);
    if e == f {
      NearestIsMonotone(x, y, Pow2(e));
    } else {
      ExponentBounds(x);
      ExponentBounds(y);
      Pow2Grows(e, f);
      MulConstants(Pow2(e));
      MulConstants(Pow2(f));
      NearestAtMost(x, Pow2(e), SIGNIFICAND);
      NearestAtLeast(y, Pow2(f), SIGNIFICAND / 2);
    }
  }

  /** A rounded value has at most 24 significant bits. */
  lemma RoundIsFloat(x: nat)
    ensures 0 <= Round(x) && IsFloat(Round(x))
  {
    hide Mul, Nearest, Exponent, Pow2;
    RoundIsNatural(x);
    var e := Exponent(x);
    var u := Pow2(e);
    ExponentBounds(x);
    MulConstants(u);
    NearestAtMost(x, u, SIGNIFICAND);
    var q := NearestIsNear(x, u);
    MulOrder(q, SIGNIFICAND, u);
    if q < SIGNIFICAND {
      assert Scaled(Round(x), q, e);
    } else {
      NextBinade(e);
      assert Scaled(Round(x), SIGNIFICAND / 2, e + 1);
    }
  }

  lemma NextBinade(e: nat)
    ensures SIGNIFICAND * Pow2(e) == Mul(SIGNIFICAND / 2, Pow2(e + 1)) == Mul(SIGNIFICAND, Pow2(e))
  {
    MulConstants(Pow2(e));
    MulConstants(Pow2(e + 1));
  }

  /** The first value out of range, which stands for infinity. */
  function Beyond(k: nat): nat {
    SIGNIFICAND * Pow2(k)
  }

  /** A finite non-negative value, or infinity. */
  ghost predicate IsSingle(k: nat, x: nat) {
    x == Beyond(k) || (IsFloat(x) && x <= Max(k))
  }

  /** Single-precision addition: the rounded sum, or infinity. */
  function AddSingle(k: nat, a: nat, b: nat): nat {
    RoundIsNatural(a + b);
    if Round(a + b) > Max(k) then Beyond(k) else Round(a + b)
  }

  /** Single-precision subtraction of a smaller value. */
  function SubtractSingle(a: nat, b: nat): nat {
    if a <= b then 0
    else
      RoundIsNatural(a - b);
      Round(a - b)
  }

  lemma BeyondIsAbove(k: nat)
    ensures Max(k) < Beyond(k) && IsFloat(Beyond(k))
  {
    hide Mul, Pow2;
    NextBinade(k);
    assert Scaled(Beyond(k), SIGNIFICAND / 2, k + 1);
  }

  lemma AddSingleIsValue(k: nat, a: nat, b: nat)
    ensures IsSingle(k, AddSingle(k, a, b))
  {
    hide Round, IsFloat, Max, Beyond;
    RoundIsFloat(a + b);
  }

  lemma AddSingleIsMonotone(k: nat, a: nat, b: nat, c: nat, d: nat)
    requires a <= c && b <= d
    ensures AddSingle(k, a, b) <= AddSingle(k, c, d)
  {
    hide Round, Max, Beyond;
    RoundIsMonotone(a + b, c + d);
    BeyondIsAbove(k);
  }

  lemma ZeroIsNeutral(k: nat, a: nat)
    requires IsSingle(k, a)
    ensures AddSingle(k, 0, a) == a == AddSingle(k, a, 0)
  {
    hide Round, IsFloat, Max, Beyond;
    BeyondIsAbove(k);
    FloatIsExact(a);
  }

  // ----- The dynamic program in single precision -----

  function Add32(k: nat, left: Distance, right: nat): Distance {
    if left.Infinite? then Infinite else AddDistanceF32(k, left.value, right)
  }

  /** The recurrence of the verifiers, with single-precision additions. */
  function Wed32<T>(p: Policy<T>, k: nat, query: seq<T>, data: seq<T>): Distance
    decreases |query| + |data|
  {
    var m, n := |query|, |data|;
    if m == 0 && n == 0 then Finite(0)
    else if n == 0 then Add32(k, Wed32(p, k, query[..m - 1], data), p.deletion(query[m - 1]))
    else if m == 0 then Add32(k, Wed32(p, k, query, data[..n - 1]), p.insertion(data[n - 1]))
    else
      Min(
        Min(
          Add32(k, Wed32(p, k, query[..m - 1], data[..n - 1]), p.substitution(query[m - 1], data[n - 1])),
          Add32(k, Wed32(p, k, query, data[..n - 1]), p.insertion(data[n - 1]))),
        Add32(k, Wed32(p, k, query[..m - 1], data), p.deletion(query[m - 1])))
  }

  /** The cost is a single-precision value, and so is the sum when it is in range. */
  ghost predicate SumIsFloat(k: nat, paid: nat, cost: nat) {
    IsFloat(cost) && cost <= Max(k) && (paid + cost <= Max(k) ==> IsFloat(paid + cost))
  }

  /** Every in-range addition of the recurrence is exact. */
  ghost predicate SumsAreFloats<T>(p: Policy<T>, k: nat, query: seq<T>, data: seq<T>)
    decreases |query| + |data|
  {
    var m, n := |query|, |data|;
    && (0 < m ==>
          && SumsAreFloats(p, k, query[..m - 1], data)
          && SumIsFloat(k, Wed(p, query[..m - 1], data), p.deletion(query[m - 1])))
    && (0 < n ==>
          && SumsAreFloats(p, k, query, data[..n - 1])
          && SumIsFloat(k, Wed(p, query, data[..n - 1]), p.insertion(data[n - 1])))
    && (0 < m && 0 < n ==>
          && SumsAreFloats(p, k, query[..m - 1], data[..n - 1])
          && SumIsFloat(k, Wed(p, query[..m - 1], data[..n - 1]), p.substitution(query[m - 1], data[n - 1])))
  }

  ghost predicate ExactCell(k: nat, cell: Distance, exact: nat) {
    cell == Capped(Max(k), exact) && (exact <= Max(k) ==> IsFloat(exact))
  }

  lemma ExactAddition(k: nat, cell: Distance, exact: nat, cost: nat)
    requires 0 < k && ExactCell(k, cell, exact) && SumIsFloat(k, exact, cost)
    ensures ExactCell(k, Add32(k, cell, cost), exact + cost)
  {
    hide Max, IsFloat, AddDistanceF32;
    if exact <= Max(k) {
      ExactSumsAreCapped(k, exact, cost);
    }
  }

  lemma ExactMinimum(k: nat, a: Distance, b: Distance, exactA: nat, exactB: nat)
    requires ExactCell(k, a, exactA) && ExactCell(k, b, exactB)
    ensures ExactCell(k, Min(a, b), Least(exactA, exactB))
  {
    hide Max, IsFloat;
  }

  lemma {:induction false} RecurrenceIsExact<T>(p: Policy<T>, k: nat, query: seq<T>, data: seq<T>)
    requires 0 < k && SumsAreFloats(p, k, query, data)
    ensures ExactCell(k, Wed32(p, k, query, data), Wed(p, query, data))
    decreases |query| + |data|
  {
    hide Add32, Max, IsFloat, SumIsFloat;
    var m, n := |query|, |data|;
    if m == 0 && n == 0 {
      ZeroIsFloat();
    } else if n == 0 {
      RecurrenceIsExact(p, k, query[..m - 1], data);
      ExactAddition(
        k, Wed32(p, k, query[..m - 1], data), Wed(p, query[..m - 1], data), p.deletion(query[m - 1]));
    } else if m == 0 {
      RecurrenceIsExact(p, k, query, data[..n - 1]);
      ExactAddition(
        k, Wed32(p, k, query, data[..n - 1]), Wed(p, query, data[..n - 1]), p.insertion(data[n - 1]));
    } else {
      ExactInnerCell(p, k, query, data);
    }
  }

  lemma ZeroIsFloat()
    ensures IsFloat(0)
  {
    MulConstants(Pow2(0));
    assert Scaled(0, 0, 0);
  }

  lemma ExactInnerCell<T>(p: Policy<T>, k: nat, query: seq<T>, data: seq<T>)
    requires 0 < k && SumsAreFloats(p, k, query, data) && query != [] && data != []
    ensures ExactCell(k, Wed32(p, k, query, data), Wed(p, query, data))
    decreases |query| + |data|, 0
  {
    hide Add32, Max, IsFloat, SumIsFloat, Least, Min, ExactCell;
    var m, n := |query|, |data|;
    var diagonal, left, above :=
      Wed(p, query[..m - 1], data[..n - 1]), Wed(p, query, data[..n - 1]), Wed(p, query[..m - 1], data);
    var diagonal32, left32, above32 :=
      Wed32(p, k, query[..m - 1], data[..n - 1]), Wed32(p, k, query, data[..n - 1]), Wed32(p, k, query[..m - 1], data);
    RecurrenceIsExact(p, k, query[..m - 1], data[..n - 1]);
    RecurrenceIsExact(p, k, query, data[..n - 1]);
    RecurrenceIsExact(p, k, query[..m - 1], data);
    var s, i, d := p.substitution(query[m - 1], data[n - 1]), p.insertion(data[n - 1]), p.deletion(query[m - 1]);
    ExactAddition(k, diagonal32, diagonal, s);
    ExactAddition(k, left32, left, i);
    ExactAddition(k, above32, above, d);
    ExactMinimum(k, Add32(k, diagonal32, s), Add32(k, left32, i), diagonal + s, left + i);
    ExactMinimum(
      k, Min(Add32(k, diagonal32, s), Add32(k, left32, i)), Add32(k, above32, d), Least(diagonal + s, left + i),
      above + d);
  }

  /** When in-range additions are exact, the single-precision recurrence is the
      exact distance capped once, at the end. */
  lemma ExactSumsGiveTheCappedDistance<T>(p: Policy<T>, k: nat, query: seq<T>, data: seq<T>)
    requires 0 < k && SumsAreFloats(p, k, query, data)
    ensures Wed32(p, k, query, data) == Capped(Max(k), Wed(p, query, data))
  {
    hide Wed32, Wed, SumsAreFloats;
    RecurrenceIsExact(p, k, query, data);
  }

  // ----- The column loops in single precision -----

  /** Cell `r` is the single-precision recurrence of the first `r` query symbols. */
  ghost predicate IsColumn32<T>(p: Policy<T>, k: nat, query: seq<T>, data: seq<T>, column: seq<Distance>) {
    |column| == |query| + 1 && FirstCells32(p, k, query, data, column, |column|)
  }

  ghost predicate FirstCells32<T>(
    p: Policy<T>, k: nat, query: seq<T>, data: seq<T>, cells: seq<Distance>, n: nat)
  {
    n <= |cells| && n <= |query| + 1 && forall r :: 0 <= r < n ==> cells[r] == Wed32(p, k, query[..r], data)
  }

  lemma Wed32OfNothing<T>(p: Policy<T>, k: nat, query: seq<T>)
    ensures Wed32(p, k, query[..0], []) == Finite(0)
  {
  }

  lemma Wed32Deleting<T>(p: Policy<T>, k: nat, query: seq<T>, r: nat)
    requires r < |query|
    ensures Wed32(p, k, query[..r + 1], []) == Add32(k, Wed32(p, k, query[..r], []), p.deletion(query[r]))
  {
    hide Add32;
    assert query[..r + 1][..r] == query[..r];
  }

  lemma Wed32Inserting<T>(p: Policy<T>, k: nat, query: seq<T>, data: seq<T>, x: T)
    ensures Wed32(p, k, query[..0], data + [x]) == Add32(k, Wed32(p, k, query[..0], data), p.insertion(x))
  {
    hide Add32;
    assert (data + [x])[..|data|] == data;
  }

  lemma Wed32Step<T>(p: Policy<T>, k: nat, query: seq<T>, data: seq<T>, x: T, r: nat)
    requires r < |query|
    ensures Wed32(p, k, query[..r + 1], data + [x]) ==
            Min(
              Min(
                Add32(k, Wed32(p, k, query[..r], data), p.substitution(query[r], x)),
                Add32(k, Wed32(p, k, query[..r + 1], data), p.insertion(x))),
              Add32(k, Wed32(p, k, query[..r], data + [x]), p.deletion(query[r])))
  {
    hide Add32, Min;
    assert query[..r + 1][..r] == query[..r];
    assert (data + [x])[..|data|] == data;
  }

  method RootColumn32<T>(query: seq<T>, p: Policy<T>, k: nat) returns (column: seq<Distance>)
    ensures IsColumn32(p, k, query, [], column)
  {
    hide Wed32, Add32;
    Wed32OfNothing(p, k, query);
    column := [Finite(0)];
    for r := 0 to |query|
      invariant |column| == r + 1 && FirstCells32(p, k, query, [], column, r + 1)
    {
      Wed32Deleting(p, k, query, r);
      column := column + [Add32(k, column[r], p.deletion(query[r]))];
    }
  }

  method StepDp32<T>(query: seq<T>, symbol: T, previous: seq<Distance>, p: Policy<T>, k: nat, ghost data: seq<T>)
    returns (current: seq<Distance>)
    requires IsColumn32(p, k, query, data, previous)
    ensures IsColumn32(p, k, query, data + [symbol], current)
  {
    hide Wed32, Add32, Min;
    Wed32Inserting(p, k, query, data, symbol);
    current := [Add32(k, previous[0], p.insertion(symbol))];
    for r := 0 to |query|
      invariant |current| == r + 1 && FirstCells32(p, k, query, data + [symbol], current, r + 1)
    {
      Wed32Step(p, k, query, data, symbol, r);
      var substitution := Add32(k, previous[r], p.substitution(query[r], symbol));
      var insertion := Add32(k, previous[r + 1], p.insertion(symbol));
      var deletion := Add32(k, current[r], p.deletion(query[r]));
      current := current + [Min(Min(substitution, insertion), deletion)];
    }
  }

  lemma {:induction false} SumsOfPrefix<T>(p: Policy<T>, k: nat, query: seq<T>, data: seq<T>, r: nat)
    requires SumsAreFloats(p, k, query, data) && r <= |query|
    ensures SumsAreFloats(p, k, query[..r], data)
    decreases |query|
  {
    hide SumIsFloat, Wed;
    if r == |query| {
      assert query[..r] == query;
    } else {
      SumsOfPrefix(p, k, query[..|query| - 1], data, r);
      assert query[..|query| - 1][..r] == query[..r];
    }
  }

  /** When in-range additions are exact, the single-precision columns are the
      columns of the exact program. */
  lemma ExactSumsGiveExactColumns<T>(p: Policy<T>, k: nat, query: seq<T>, data: seq<T>, column: seq<Distance>)
    requires 0 < k && p.max == Max(k) && SumsAreFloats(p, k, query, data)
    requires IsColumn32(p, k, query, data, column)
    ensures IsColumn(p, query, data, column)
  {
    hide Wed32, Wed, SumsAreFloats, Max;
    forall r | 0 <= r <= |query|
      ensures column[r] == Capped(p.max, Wed(p, query[..r], data))
    {
      SumsOfPrefix(p, k, query, data, r);
      ExactSumsGiveTheCappedDistance(p, k, query[..r], data);
    }
  }
}
