/** `gcd` by Stein's binary algorithm, `lcm`, and the absolute values they work on. */
module Numeric {
  import opened Division
  import opened Divisibility
  import opened Words
  import opened Bits

  lemma TimesOdd(d: int, q: int)
    requires d % 2 == 1
    ensures d * q % 2 == q % 2
  {
    var a := d / 2;
    assert d * q == 2 * (a * q) + q by { assert d == 2 * a + 1; }
  }

  lemma TimesEven(d: int, q: int)
    requires d % 2 == 0
    ensures d * q % 2 == 0
  {
    var a := d / 2;
    assert d * q == 2 * (a * q) by { assert d == 2 * a; }
  }

  lemma DivisorOfOdd(d: int, x: int)
    requires x % 2 == 1 && Divides(d, x)
    ensures d % 2 == 1
  {
    var p := Factor(d, x);
    if d % 2 == 0 {
      TimesEven(d, p);
      assert false;
    }
  }

  lemma HalfOfMultiple(d: int, q: int, n: int)
    requires d > 0 && 2 * n == d * q && q % 2 == 0
    ensures Divides(d, n)
  {
    var r := q / 2;
    assert d * q == 2 * (d * r) by { assert q == 2 * r; }
    MultipleOf(d, r);
  }

  /** A divisor of an odd number divides n if it divides twice n. */
  lemma HalveDivided(d: int, x: int, n: int)
    requires x % 2 == 1 && Divides(d, x) && Divides(d, 2 * n)
    ensures Divides(d, n)
  {
    DivisorOfOdd(d, x);
    var q := Factor(d, 2 * n);
    TimesOdd(d, q);
    HalfOfMultiple(d, q, n);
  }

  lemma {:induction false} WithoutTwos(d: int, x: int, n: int, t: nat)
    requires x % 2 == 1 && Divides(d, x) && Divides(d, n * Pow2(t))
    ensures Divides(d, n)
    decreases t
  {
    if t == 0 {
      assert n * 1 == n;
    } else {
      assert n * Pow2(t) == 2 * (n * Pow2(t - 1));
      HalveDivided(d, x, n * Pow2(t - 1));
      WithoutTwos(d, x, n, t - 1);
    }
  }

  /** Factors of two in one number do not matter when the other is odd. */
  lemma GcdWithoutTwos(x: nat, n: nat, t: nat)
    requires x % 2 == 1
    ensures Gcd(x, n * Pow2(t)) == Gcd(x, n)
  {
    GcdIsGreatest(x, n);
    GcdIsGreatest(x, n * Pow2(t));
    var g, h := Gcd(x, n), Gcd(x, n * Pow2(t));
    DividesSum(g, n, n, Pow2(t), 0);
    WithoutTwos(h, x, n, t);
    DividesBound(g, h);
    DividesBound(h, g);
  }

  lemma GcdSymmetric(m: nat, n: nat)
    ensures Gcd(m, n) == Gcd(n, m)
  {
    if m > 0 || n > 0 {
      GcdIsGreatest(m, n);
      GcdIsGreatest(n, m);
      OnlyOneGreatest(Gcd(m, n), Gcd(n, m), m, n);
    }
  }

  lemma GcdDifference(m: nat, n: nat)
    requires 0 < m <= n
    ensures Gcd(m, n - m) == Gcd(m, n)
  {
    GcdIsGreatest(m, n);
    GcdIsGreatest(m, n - m);
    var g, h := Gcd(m, n), Gcd(m, n - m);
    DividesSum(g, n, m, 1, -1);
    DividesSum(h, n - m, m, 1, 1);
    DividesBound(g, h);
    DividesBound(h, g);
  }

  lemma GcdScaled(m: nat, n: nat, s: nat)
    requires (m > 0 || n > 0) && s > 0
    ensures Gcd(m * s, n * s) == Gcd(m, n) * s
  {
    var g := Gcd(m, n);
    GcdDivides(m, n);
    var p := Factor(g, m);
    var q := Factor(g, n);
    var x, y := Combination(m, n);
    ScaledCombination(g, m, n, p, q, x, y, s);
    MultipleOf(g * s, p);
    MultipleOf(g * s, q);
    forall d | Divides(d, m * s) && Divides(d, n * s) ensures Divides(d, g * s) {
      DividesSum(d, m * s, n * s, x, y);
    }
    Multiple(s, m);
    Multiple(s, n);
    GcdIsGreatest(m * s, n * s);
    OnlyOneGreatest(Gcd(m * s, n * s), g * s, m * s, n * s);
  }

  lemma ScaledCombination(g: int, m: int, n: int, p: int, q: int, x: int, y: int, s: int)
    requires g > 0 && s > 0 && m == g * p && n == g * q && g == m * x + n * y
    ensures g * s > 0 && m * s == g * s * p && n * s == g * s * q && g * s == m * s * x + n * s * y
  {
    Multiple(g, s);
    assert (m * x + n * y) * s == m * s * x + n * s * y;
  }

  lemma SplitPower(v: nat, a: nat, b: nat)
    ensures v * Pow2(a + b) == v * Pow2(a) * Pow2(b)
  {
    Pow2Adds(a, b);
    Associates(v, Pow2(a), Pow2(b));
  }

  /** The common factors of two, taken out first and put back last. */
  lemma GcdOfOddParts(u: nat, v: nat, i: nat, j: nat)
    requires u % 2 == 1 && v % 2 == 1
    ensures Gcd(u * Pow2(i), v * Pow2(j)) == Gcd(u, v) * Pow2(if i < j then i else j)
    decreases i > j
  {
    hide Gcd, Pow2;
    if i <= j {
      SplitPower(v, j - i, i);
      GcdScaled(u, v * Pow2(j - i), Pow2(i));
      GcdWithoutTwos(u, v, j - i);
    } else {
      GcdOfOddParts(v, u, j, i);
      GcdSymmetric(u * Pow2(i), v * Pow2(j));
      GcdSymmetric(u, v);
    }
  }

  method GcdUnsigned(val1: nat, val2: nat, w: nat, ghost k: nat) returns (g: nat)
    requires w == Pow2(k) && k > 0 && val1 < Pow2(w) && val2 < Pow2(w)
    ensures g == Gcd(val1, val2) < Pow2(w)
    ensures val1 == 0 && val2 == 0 ==> g == 0
    ensures val1 > 0 || val2 > 0 ==> GreatestCommon(g, val1, val2)
  {
    if val1 > 0 || val2 > 0 {
      GcdIsGreatest(val1, val2);
    }
    if val1 == 0 {
      GcdSymmetric(val1, val2);
      return val2;
    }
    if val2 == 0 {
      return val1;
    }
    hide Gcd, GreatestCommon, Pow2;
    var trailingZeros1 := CountrZero(val1, w, k);
    var trailingZeros2 := CountrZero(val2, w, k);
    var commonFactorsOf2 := if trailingZeros2 < trailingZeros1 then trailingZeros2 else trailingZeros1;
    var valAbs1, valAbs2 := Shr(val1, trailingZeros1), Shr(val2, trailingZeros2);
    Commutes(Pow2(trailingZeros1), valAbs1);
    Commutes(Pow2(trailingZeros2), valAbs2);
    GcdOfOddParts(valAbs1, valAbs2, trailingZeros1, trailingZeros2);
    ShrBound(val1, trailingZeros1);
    ShrBound(val2, trailingZeros2);
    GcdBound(val1, val2);
    var odd := OddGcd(valAbs1, valAbs2, w, k);
    NoWrap(odd, commonFactorsOf2, w);
    return Shl(odd, commonFactorsOf2, w);
  }

  /** The loop of `gcd`: both numbers are odd at each round, and their sum goes down. */
  method OddGcd(odd1: nat, odd2: nat, w: nat, ghost k: nat) returns (g: nat)
    requires w == Pow2(k) && k > 0 && odd1 < Pow2(w) && odd2 < Pow2(w) && odd1 % 2 == 1 && odd2 % 2 == 1
    ensures g == Gcd(odd1, odd2)
  {
    hide Gcd, Pow2;
    var valAbs1: nat, valAbs2: nat := odd1, odd2;
    while true
      invariant valAbs1 % 2 == 1 && valAbs2 % 2 == 1
      invariant valAbs1 < Pow2(w) && valAbs2 < Pow2(w)
      invariant Gcd(valAbs1, valAbs2) == Gcd(odd1, odd2)
      decreases valAbs1 + valAbs2
    {
      if valAbs1 > valAbs2 {
        GcdSymmetric(valAbs1, valAbs2);
        valAbs1, valAbs2 := valAbs2, valAbs1;
      }
      GcdDifference(valAbs1, valAbs2);
      valAbs2 := valAbs2 - valAbs1;
      if valAbs2 == 0 {
        GcdWithZero(valAbs1);
        return valAbs1;
      }
      var zeros := CountrZero(valAbs2, w, k);
      ShrBound(valAbs2, zeros);
      GcdWithoutTwos(valAbs1, Shr(valAbs2, zeros), zeros);
      Commutes(Pow2(zeros), Shr(valAbs2, zeros));
      valAbs2 := Shr(valAbs2, zeros);
    }
  }

  lemma GcdWithZero(n: nat)
    ensures Gcd(n, 0) == n
  {
  }

  lemma GcdBound(m: nat, n: nat)
    requires m > 0
    ensures Gcd(m, n) <= m
  {
    GcdDivides(m, n);
    DividesBound(Gcd(m, n), m);
  }

  lemma NoWrap(x: nat, p: nat, w: nat)
    requires x * Pow2(p) < Pow2(w)
    ensures Shl(x, p, w) == x * Pow2(p)
  {
    Quotient(Pow2(w), 0, x * Pow2(p), x * Pow2(p));
  }

  // Signed values.

  /** The least value of a signed type of w bits. */
  function MinSigned(w: nat): int
    requires w > 0
  {
    -(Pow2(w - 1) as int)
  }

  predicate IsSigned(val: int, w: nat)
    requires w > 0
  {
    MinSigned(w) <= val < Pow2(w - 1)
  }

  /** Conversions between the signed and the unsigned type, modulo 2^w. */
  function ToUnsigned(val: int, w: nat): (u: nat)
    requires w > 0 && IsSigned(val, w)
    ensures u < Pow2(w)
  {
    if val < 0 then val + Pow2(w) else val
  }

  function ToSigned(u: nat, w: nat): (val: int)
    requires w > 0 && u < Pow2(w)
    ensures IsSigned(val, w)
  {
    if u < Pow2(w - 1) then u else u - Pow2(w)
  }

  /** Negating as unsigned gives the absolute value even of the least value, whose own negation is out of range. */
  function AbsUnsigned(val: int, w: nat): (u: nat)
    requires w > 0 && IsSigned(val, w)
    ensures u == (if val < 0 then -val else val) && u <= Pow2(w - 1)
  {
    if val < 0 then Minus(0, ToUnsigned(val, w), w) else ToUnsigned(val, w)
  }

  /** Only zero and the least value have no divisor in range but their own absolute value. */
  predicate IsZeroOrMin(val: int, w: nat)
    requires w > 0
  {
    val == 0 || val == MinSigned(w)
  }

  /**
   * On signed values the result fits its type unless each argument is zero or the least value, and one is the least.
   */
  method GcdSigned(val1: int, val2: int, w: nat, ghost k: nat) returns (g: int)
    requires w == Pow2(k) && k > 0 && IsSigned(val1, w) && IsSigned(val2, w)
    ensures val1 == 0 && val2 == 0 ==> g == 0
    ensures val1 != 0 || val2 != 0 ==>
      (GreatestCommon(g, AbsUnsigned(val1, w), AbsUnsigned(val2, w)) <==>
        !(IsZeroOrMin(val1, w) && IsZeroOrMin(val2, w)))
    ensures IsZeroOrMin(val1, w) && IsZeroOrMin(val2, w) && (val1 != 0 || val2 != 0) ==> g == MinSigned(w)
  {
    var a, b := AbsUnsigned(val1, w), AbsUnsigned(val2, w);
    var u := GcdUnsigned(a, b, w, k);
    if val1 != 0 || val2 != 0 {
      SignedRange(val1, val2, w);
      hide Gcd;
    }
    g := ToSigned(u, w);
  }

  lemma SignedRange(val1: int, val2: int, w: nat)
    requires w > 0 && IsSigned(val1, w) && IsSigned(val2, w) && (val1 != 0 || val2 != 0)
    ensures Gcd(AbsUnsigned(val1, w), AbsUnsigned(val2, w)) == Pow2(w - 1) <==>
      IsZeroOrMin(val1, w) && IsZeroOrMin(val2, w)
    ensures Gcd(AbsUnsigned(val1, w), AbsUnsigned(val2, w)) <= Pow2(w - 1)
  {
    var a, b, g := AbsUnsigned(val1, w), AbsUnsigned(val2, w), Gcd(AbsUnsigned(val1, w), AbsUnsigned(val2, w));
    GcdIsGreatest(a, b);
    if a > 0 {
      DividesBound(g, a);
    }
    if b > 0 {
      DividesBound(g, b);
    }
    var n := Pow2(w - 1);
    MultipleOf(n, 0);
    MultipleOf(n, 1);
    if IsZeroOrMin(val1, w) && IsZeroOrMin(val2, w) {
      DividesBound(n, g);
    }
  }

  // Least common multiple.

  /** Wrapped round, a least common multiple is not one any more. */
  lemma WrappedIsNotLeast(l: nat, m: nat, n: nat, limit: nat)
    requires m > 0 && n > 0 && LeastCommon(l, m, n) && limit > 0
    ensures LeastCommon(l % limit, m, n) <==> l < limit
  {
    if l < limit {
      Quotient(limit, 0, l, l);
    } else if LeastCommon(l % limit, m, n) {
      assert Divides(l % limit, l);
      assert Divides(l, l % limit);
      DividesBound(l, l % limit);
    }
  }

  /** The product wraps round exactly when the least common multiple does not fit. */
  method LcmUnsigned(val1: nat, val2: nat, w: nat, ghost k: nat) returns (l: nat)
    requires w == Pow2(k) && k > 0 && val1 < Pow2(w) && val2 < Pow2(w)
    ensures l < Pow2(w)
    ensures val1 == 0 || val2 == 0 ==> l == 0
    ensures val1 > 0 && val2 > 0 ==> (LeastCommon(l, val1, val2) <==> Lcm(val1, val2) < Pow2(w))
    ensures val1 > 0 && val2 > 0 ==> (l * Gcd(val1, val2) == val1 * val2 <==> Lcm(val1, val2) < Pow2(w))
  {
    if val1 == 0 || val2 == 0 {
      return 0;
    }
    var g := GcdUnsigned(val1, val2, w, k);
    LcmIsLeast(val1, val2);
    LcmTimesGcd(val1, val2);
    l := val1 / g * val2 % Pow2(w);
    WrappedIsNotLeast(Lcm(val1, val2), val1, val2, Pow2(w));
    WrappedProduct(Lcm(val1, val2), g, Pow2(w));
  }

  lemma WrappedProduct(l: nat, g: nat, limit: nat)
    requires g > 0 && limit > 0
    ensures l % limit * g == l * g <==> l < limit
  {
    if l < limit {
      Quotient(limit, 0, l, l);
    } else {
      assert l * g == l % limit * g + (l - l % limit) * g;
      Multiple(g, l - l % limit);
    }
  }

  lemma BothLeast(l: int, l': int, m: int, n: int)
    requires LeastCommon(l, m, n) && LeastCommon(l', m, n)
    ensures l == l' > 0
  {
    assert Divides(l, l') && Divides(l', l);
    DividesBound(l, l');
    DividesBound(l', l);
  }

  lemma SignedLcm(u: nat, m: nat, n: nat, w: nat)
    requires w > 0 && u < Pow2(w) && m > 0 && n > 0
    requires LeastCommon(u, m, n) <==> Lcm(m, n) < Pow2(w)
    ensures LeastCommon(ToSigned(u, w), m, n) <==> Lcm(m, n) < Pow2(w - 1)
  {
    LcmIsLeast(m, n);
    hide LeastCommon, Lcm;
    var l := ToSigned(u, w);
    if LeastCommon(l, m, n) {
      BothLeast(l, Lcm(m, n), m, n);
    } else if LeastCommon(u, m, n) {
      BothLeast(u, Lcm(m, n), m, n);
    }
  }

  /** On signed values the result must also fit the signed type. */
  method LcmSigned(val1: int, val2: int, w: nat, ghost k: nat) returns (l: int)
    requires w == Pow2(k) && k > 0 && IsSigned(val1, w) && IsSigned(val2, w)
    ensures val1 == 0 || val2 == 0 ==> l == 0
    ensures val1 != 0 && val2 != 0 ==>
              var a, b := AbsUnsigned(val1, w), AbsUnsigned(val2, w);
              LeastCommon(l, a, b) <==> Lcm(a, b) < Pow2(w - 1)
  {
    hide LeastCommon, Lcm, Gcd;
    var a, b := AbsUnsigned(val1, w), AbsUnsigned(val2, w);
    var u := LcmUnsigned(a, b, w, k);
    if val1 != 0 && val2 != 0 {
      SignedLcm(u, a, b, w);
    }
    l := ToSigned(u, w);
  }
}
