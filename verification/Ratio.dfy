/** `ratio`: rational arithmetic on 64-bit integers, checked for overflow at each step. */
module Ratio {
  import opened Division
  import opened Divisibility

  const INTMAX_MAX := 0x7FFF_FFFF_FFFF_FFFF
  const TWO_32 := 0x1_0000_0000
  const TWO_64 := 0x1_0000_0000_0000_0000

  /** IllFormed stands for a failed static assertion: the program is rejected. */
  datatype Result<T> = Ok(value: T) | IllFormed

  datatype Ratio = Ratio(num: int, den: int)

  /** The integers whose absolute value is an integer of the type too. */
  predicate Representable(val: int) {
    -INTMAX_MAX <= val <= INTMAX_MAX
  }

  function Abs(val: int): nat {
    if val < 0 then -val else val
  }

  function Sign(val: int): int {
    if val < 0 then -1 else 1
  }

  /** Division of C++ rounds towards zero. */
  function TruncDiv(val: int, d: int): int
    requires d > 0
  {
    if val < 0 then -((-val) / d) else val / d
  }

  // The product of two words.

  lemma SmallProduct(x: int, y: int, m: int)
    requires 0 <= x <= m && 0 <= y <= m
    ensures 0 <= x * y <= m * m
  {
  }

  /** The four partial products. */
  lemma Expanded(leftHigh: int, leftLow: int, rightHigh: int, rightLow: int)
    ensures (leftHigh * TWO_32 + leftLow) * (rightHigh * TWO_32 + rightLow) ==
            leftHigh * rightHigh * TWO_64 + (leftHigh * rightLow + leftLow * rightHigh) * TWO_32 + leftLow * rightLow
  {
  }

  /** Adding the partial products with their carries, without any sum that overflows. */
  lemma Carried(low: int, mid1: int, mid2: int, high: int, carry1: int, lower32: int, midUpper: int, midLower: int,
                carry2: int, rest: int)
    requires 0 <= low <= (TWO_32 - 1) * (TWO_32 - 1) && 0 <= mid1 <= (TWO_32 - 1) * (TWO_32 - 1)
    requires 0 <= mid2 <= (TWO_32 - 1) * (TWO_32 - 1) && 0 <= high <= (TWO_32 - 1) * (TWO_32 - 1)
    requires low == carry1 * TWO_32 + lower32 && 0 <= lower32 < TWO_32
    requires mid1 + carry1 == midUpper * TWO_32 + midLower && 0 <= midLower < TWO_32
    requires mid2 + midLower == carry2 * TWO_32 + rest && 0 <= rest < TWO_32
    ensures mid1 + carry1 < TWO_64 && mid2 + midLower < TWO_64 && 0 <= high + midUpper + carry2 < TWO_64
    ensures 0 <= rest * TWO_32 + lower32 < TWO_64
    ensures (high + midUpper + carry2) * TWO_64 + rest * TWO_32 + lower32 ==
      high * TWO_64 + (mid2 + mid1) * TWO_32 + low
  {
  }

  /** Shifting left by half a word keeps the lower half. */
  lemma ShiftedHalf(aux: int)
    requires 0 <= aux < TWO_64
    ensures aux * TWO_32 % TWO_64 == aux % TWO_32 * TWO_32
  {
    Quotient(TWO_64, aux / TWO_32, aux % TWO_32 * TWO_32, aux * TWO_32);
  }

  function Wrapped(val: int): int {
    val % TWO_64
  }

  lemma NotWrapped(val: int)
    requires 0 <= val < TWO_64
    ensures Wrapped(val) == val
  {
  }

  /**
   * `_big_multiply`: each operation wraps at 64 bits; only the final shift does drop bits, and those are in the
   * carry.
   */
  method BigMultiply(left: nat, right: nat) returns (upper: int, lower: int)
    requires left < TWO_64 && right < TWO_64
    ensures 0 <= upper < TWO_64 && 0 <= lower < TWO_64
    ensures upper * TWO_64 + lower == left * right
  {
    var leftLow, leftHigh := left % TWO_32, left / TWO_32;
    var rightLow, rightHigh := right % TWO_32, right / TWO_32;
    PartialProducts(leftLow, leftHigh, rightLow, rightHigh);
    Expanded(leftHigh, leftLow, rightHigh, rightLow);
    assert left == leftHigh * TWO_32 + leftLow && right == rightHigh * TWO_32 + rightLow;
    hide Wrapped;
    upper, lower := AddCarries(Wrapped(leftLow * rightLow), Wrapped(leftLow * rightHigh), Wrapped(leftHigh * rightLow),
                               Wrapped(leftHigh * rightHigh));
  }

  lemma PartialProducts(leftLow: int, leftHigh: int, rightLow: int, rightHigh: int)
    requires 0 <= leftLow < TWO_32 && 0 <= leftHigh < TWO_32 && 0 <= rightLow < TWO_32 && 0 <= rightHigh < TWO_32
    ensures 0 <= leftLow * rightLow == Wrapped(leftLow * rightLow) <= (TWO_32 - 1) * (TWO_32 - 1)
    ensures 0 <= leftLow * rightHigh == Wrapped(leftLow * rightHigh) <= (TWO_32 - 1) * (TWO_32 - 1)
    ensures 0 <= leftHigh * rightLow == Wrapped(leftHigh * rightLow) <= (TWO_32 - 1) * (TWO_32 - 1)
    ensures 0 <= leftHigh * rightHigh == Wrapped(leftHigh * rightHigh) <= (TWO_32 - 1) * (TWO_32 - 1)
  {
    hide Wrapped;
    PartialProduct(leftLow, rightLow);
    PartialProduct(leftLow, rightHigh);
    PartialProduct(leftHigh, rightLow);
    PartialProduct(leftHigh, rightHigh);
  }

  lemma PartialProduct(x: int, y: int)
    requires 0 <= x < TWO_32 && 0 <= y < TWO_32
    ensures 0 <= x * y == Wrapped(x * y) <= (TWO_32 - 1) * (TWO_32 - 1)
  {
    SmallProduct(x, y, TWO_32 - 1);
    NotWrapped(x * y);
  }

  /** The partial products added up from the low end, with the carry from each half to the next. */
  method AddCarries(low: int, mid1: int, mid2: int, high: int) returns (upper: int, lower: int)
    requires 0 <= low <= (TWO_32 - 1) * (TWO_32 - 1) && 0 <= mid1 <= (TWO_32 - 1) * (TWO_32 - 1)
    requires 0 <= mid2 <= (TWO_32 - 1) * (TWO_32 - 1) && 0 <= high <= (TWO_32 - 1) * (TWO_32 - 1)
    ensures 0 <= upper < TWO_64 && 0 <= lower < TWO_64
    ensures upper * TWO_64 + lower == high * TWO_64 + (mid2 + mid1) * TWO_32 + low
  {
    hide Wrapped;
    var carry := low / TWO_32;
    var lower32 := low % TWO_32;

    NotWrapped(mid1 + carry);
    var aux := Wrapped(mid1 + carry);
    var midLower := aux % TWO_32;
    var midUpper := aux / TWO_32;
    ghost var carry1 := carry;

    NotWrapped(mid2 + midLower);
    aux := Wrapped(mid2 + midLower);
    carry := aux / TWO_32;

    Carried(low, mid1, mid2, high, carry1, lower32, midUpper, midLower, carry, aux % TWO_32);
    ShiftedHalf(aux);
    NotWrapped(high + midUpper + carry);
    NotWrapped(aux % TWO_32 * TWO_32 + lower32);
    upper := Wrapped(high + midUpper + carry);
    lower := Wrapped(aux * TWO_32 % TWO_64 + lower32);
  }

  /** `_Big_Uint128::operator<`. */
  predicate BigLess(upper1: int, lower1: int, upper2: int, lower2: int) {
    if upper1 != upper2 then upper1 < upper2 else lower1 < lower2
  }

  lemma BigLessIsOrder(upper1: int, lower1: int, upper2: int, lower2: int)
    requires 0 <= lower1 < TWO_64 && 0 <= lower2 < TWO_64
    ensures BigLess(upper1, lower1, upper2, lower2) <==> upper1 * TWO_64 + lower1 < upper2 * TWO_64 + lower2
  {
  }

  /** `_ratio_less` is the order of the rational numbers, for all signs and the largest values. */
  method RatioLess(num1: int, den1: int, num2: int, den2: int) returns (less: bool)
    requires Representable(num1) && Representable(num2) && 0 < den1 <= INTMAX_MAX && 0 < den2 <= INTMAX_MAX
    ensures less <==> num1 * den2 < num2 * den1
    ensures less <==> (num1 as real) / (den1 as real) < (num2 as real) / (den2 as real)
  {
    CrossMultiplied(num1, den1, num2, den2);
    if num1 >= 0 && num2 >= 0 {
      var upper1, lower1 := BigMultiply(num1, den2);
      var upper2, lower2 := BigMultiply(num2, den1);
      BigLessIsOrder(upper1, lower1, upper2, lower2);
      return BigLess(upper1, lower1, upper2, lower2);
    }
    if num1 < 0 && num2 < 0 {
      var upper1, lower1 := BigMultiply(-num2, den1);
      var upper2, lower2 := BigMultiply(-num1, den2);
      BigLessIsOrder(upper1, lower1, upper2, lower2);
      return BigLess(upper1, lower1, upper2, lower2);
    }
    SignOfProduct(num1, den2);
    SignOfProduct(num2, den1);
    return num1 < num2;
  }

  lemma SignOfProduct(m: int, n: int)
    requires n > 0
    ensures m >= 0 ==> m * n >= 0
    ensures m < 0 ==> m * n < 0
  {
  }

  lemma CrossMultiplied(num1: int, den1: int, num2: int, den2: int)
    requires den1 > 0 && den2 > 0
    ensures (num1 as real) / (den1 as real) < (num2 as real) / (den2 as real) <==> num1 * den2 < num2 * den1
  {
    var p, q := den1 as real, den2 as real;
    var x, y := (num1 as real) / p, (num2 as real) / q;
    RealOrder(x, y, p * q);
    assert x * (p * q) == (x * p) * q == (num1 as real) * q;
    assert y * (p * q) == (y * q) * p == (num2 as real) * p;
    assert (num1 as real) * q == (num1 * den2) as real && (num2 as real) * p == (num2 * den1) as real;
  }

  lemma RealOrder(x: real, y: real, s: real)
    requires s > 0.0
    ensures x < y <==> x * s < y * s
  {
  }

  // Normal form.

  /** What `_gcd` computes: one for two zeros, the greatest common divisor of the absolute values otherwise. */
  function GcdOrOne(first: int, second: int): (g: nat)
    ensures g > 0
  {
    if first == 0 && second == 0 then 1 else Gcd(Abs(first), Abs(second))
  }

  method GcdLoop(first0: int, second0: int) returns (g: nat)
    requires Representable(first0) && Representable(second0)
    ensures g == GcdOrOne(first0, second0)
  {
    if first0 == 0 && second0 == 0 {
      return 1;
    }
    var first, second := Abs(first0), Abs(second0);
    while second != 0
      invariant Gcd(first, second) == Gcd(Abs(first0), Abs(second0))
      decreases second
    {
      var aux := first;
      first := second;
      second := aux % second;
    }
    return first;
  }

  /** Lowest terms: coprime, with a positive denominator. */
  ghost predicate Lowest(r: Ratio) {
    r.den > 0 && Coprime(r.num, r.den)
  }

  ghost predicate Valid(r: Ratio) {
    Lowest(r) && Representable(r.num) && Representable(r.den)
  }

  /** r is the quotient n / d. */
  predicate HasValue(r: Ratio, n: int, d: int) {
    r.num * d == n * r.den
  }

  /** The members `num` and `den` of `ratio<n, d>`. */
  function MakeRatio(n: int, d: int): Result<Ratio> {
    if d == 0 || !Representable(n) || !Representable(d) then IllFormed
    else Ok(Ratio(TruncDiv(Sign(n) * Sign(d) * Abs(n), GcdOrOne(n, d)), Abs(d) / GcdOrOne(n, d)))
  }

  lemma TruncDivExact(g: int, q: int, sign: int)
    requires g > 0 && q >= 0 && (sign == 1 || sign == -1)
    ensures TruncDiv(sign * (g * q), g) == sign * q
  {
    Quotient(g, q, 0, g * q);
    Multiple(g, q);
  }

  /** `ratio<n, d>` is n / d in lowest terms. */
  lemma MakeRatioIsLowest(n: int, d: int)
    requires d != 0 && Representable(n) && Representable(d)
    ensures MakeRatio(n, d).Ok? && Valid(MakeRatio(n, d).value) && HasValue(MakeRatio(n, d).value, n, d)
  {
    var g := GcdOrOne(n, d);
    GcdDivides(Abs(n), Abs(d));
    var p := Factor(g, Abs(n));
    var q := Factor(g, Abs(d));
    Multiple(g, p);
    var sign := Sign(n) * Sign(d);
    TruncDivExact(g, p, sign);
    Reduced(Abs(n), Abs(d));
    CoprimeNegated(p, q);
    var r := Ratio(sign * p, q);
    assert MakeRatio(n, d) == Ok(r);
    SignedValue(n, d, g, p, q);
    QuotientBound(g, p);
    QuotientBound(g, q);
  }

  lemma SignedValue(n: int, d: int, g: int, p: int, q: int)
    requires Abs(n) == g * p && Abs(d) == g * q
    ensures Sign(n) * Sign(d) * p * d == n * q
  {
    assert n == Sign(n) * (g * p) && d == Sign(d) * (g * q);
    assert Sign(d) * Sign(d) == 1;
    var sn, sd := Sign(n), Sign(d);
    assert sn * sd * p * (sd * (g * q)) == (sd * sd) * (sn * (g * p) * q);
  }

  lemma QuotientBound(g: int, q: int)
    requires g > 0
    ensures q >= 0 ==> q <= g * q
  {
    if q >= 0 {
      assert g * q == q + (g - 1) * q;
    }
  }

  lemma {:induction false} EuclidsLemma(m: int, n: int, d: int)
    requires Coprime(m, n) && n > 0 && Divides(n, m * d)
    ensures Divides(n, d)
  {
    var x, y :| Combines(m, n, x, y);
    MultipleOf(n, 1);
    DividesSum(n, m * d, n, x, d * y);
    assert m * d * x + n * (d * y) == d * (m * x + n * y);
  }

  /** Lowest terms are unique, so comparing members compares values (`ratio_equal`). */
  lemma LowestIsUnique(r: Ratio, s: Ratio)
    requires Lowest(r) && Lowest(s)
    ensures HasValue(r, s.num, s.den) <==> r == s
  {
    if r.num * s.den == s.num * r.den {
      DenDivides(r, s);
      DenDivides(s, r);
      hide Lowest;
      DividesBound(r.den, s.den);
      DividesBound(s.den, r.den);
      SameNum(r, s);
    }
  }

  lemma DenDivides(r: Ratio, s: Ratio)
    requires Lowest(r) && s.den > 0 && r.num * s.den == s.num * r.den
    ensures r.den > 0 && Divides(r.den, s.den)
  {
    MultipleOf(r.den, s.num);
    assert r.den * s.num == r.num * s.den;
    EuclidsLemma(r.num, r.den, s.den);
  }

  lemma SameNum(r: Ratio, s: Ratio)
    requires r.den == s.den > 0 && r.num * s.den == s.num * r.den
    ensures r == s
  {
    Multiple(r.den, r.num - s.num);
    assert r.den * (r.num - s.num) == 0;
  }

  // Checked arithmetic.

  function SafeMultiply(first: int, second: int): Result<int> {
    if Abs(first) <= INTMAX_MAX / (if second == 0 then 1 else Abs(second)) then Ok(first * second) else IllFormed
  }

  /** The guard is exact: it fails just when the product is out of range. */
  lemma SafeMultiplyIsExact(first: int, second: int)
    requires Representable(first) && Representable(second)
    ensures SafeMultiply(first, second) == if Representable(first * second) then Ok(first * second) else IllFormed
  {
    if second != 0 {
      var k, r := Divided(Abs(second), INTMAX_MAX);
      AbsProduct(first, second);
      var d := Abs(first) - k;
      assert Abs(first) * Abs(second) == Abs(second) * k + Abs(second) * d;
      Multiple(Abs(second), d);
      if d <= 0 {
        Multiple(Abs(second), -d);
        assert Abs(second) * -d == -(Abs(second) * d);
      }
    } else {
      assert first * second == 0;
    }
  }

  lemma AbsProduct(m: int, n: int)
    ensures Abs(m * n) == Abs(m) * Abs(n)
  {
    SignOfProduct(Abs(m), Abs(n) + 1);
    if m >= 0 && n < 0 {
      assert m * n == -(m * -n);
      assert m * -n >= 0;
    } else if m < 0 && n >= 0 {
      assert m * n == -(-m * n);
      assert -m * n >= 0;
    } else if m < 0 && n < 0 {
      assert m * n == -m * -n;
      assert -m * -n >= 0;
    } else {
      assert m * n >= 0;
    }
  }

  function SafeAdd(first: int, second: int): Result<int> {
    if Sign(first) == Sign(second) && Abs(first) > INTMAX_MAX - Abs(second) then IllFormed else Ok(first + second)
  }

  lemma SafeAddIsExact(first: int, second: int)
    requires Representable(first) && Representable(second)
    ensures SafeAdd(first, second) == if Representable(first + second) then Ok(first + second) else IllFormed
  {
  }

  // Adding.

  /** `_Ratio_Add`: the sum over the least common denominator. */
  function Add(r: Ratio, s: Ratio): Result<Ratio>
    requires r.den > 0 && s.den > 0
  {
    var g := GcdOrOne(r.den, s.den);
    var left, right := SafeMultiply(r.num, s.den / g), SafeMultiply(s.num, r.den / g);
    if left.IllFormed? || right.IllFormed? then IllFormed
    else
      var sum, den := SafeAdd(left.value, right.value), SafeMultiply(r.den, s.den / g);
      if sum.IllFormed? || den.IllFormed? then IllFormed else MakeRatio(sum.value, den.value)
  }

  /** Both ratios and their sum, brought to the denominator l, are within range. */
  ghost predicate SumFits(r: Ratio, s: Ratio, l: int)
    requires r.den > 0 && s.den > 0
  {
    var left, right := r.num * (l / r.den), s.num * (l / s.den);
    Representable(l) && Representable(left) && Representable(right) && Representable(left + right)
  }

  lemma Cofactors(r: Ratio, s: Ratio) returns (g: nat, p: int, q: int)
    requires Valid(r) && Valid(s)
    ensures g == GcdOrOne(r.den, s.den) > 0 && p == r.den / g && q == s.den / g
    ensures r.den == g * p && s.den == g * q && 0 < p <= r.den && 0 < q <= s.den
  {
    g := GcdOrOne(r.den, s.den);
    GcdDivides(r.den, s.den);
    p := Factor(g, r.den);
    q := Factor(g, s.den);
    QuotientBound(g, p);
    QuotientBound(g, q);
  }

  /** The denominators over the least common one. */
  lemma LeastDenominator(r: Ratio, s: Ratio, l: int, g: nat, p: int, q: int)
    requires Valid(r) && Valid(s) && l > 0 && LeastCommon(l, r.den, s.den)
    requires g == Gcd(r.den, s.den) && g > 0 && r.den == g * p && s.den == g * q && p > 0 && q > 0
    ensures l == r.den * q && l / r.den == q && l / s.den == p
  {
    LcmIsLeast(r.den, s.den);
    LcmTimesGcd(r.den, s.den);
    OnlyOneLeast(l, Lcm(r.den, s.den), r.den, s.den);
    Quotient(g, p, 0, r.den);
    hide LeastCommon, Valid, Gcd;
    Cofactor(g, p, q, r.den, s.den, l);
    Quotient(r.den, q, 0, l);
    Quotient(s.den, p, 0, l);
  }

  lemma Cofactor(g: int, p: int, q: int, m: int, n: int, l: int)
    requires m == g * p && n == g * q && l == p * n
    ensures l == m * q && l == n * p
  {
    Associates(p, g, q);
    Commutes(p, g);
    Commutes(p, n);
  }

  /**
   * `ratio_add` is defined just when both ratios and their sum can be written over the least common denominator l,
   * and then it is the exact sum in lowest terms.
   */
  lemma AddIsExact(r: Ratio, s: Ratio, l: int)
    requires Valid(r) && Valid(s)
    ensures l > 0 && LeastCommon(l, r.den, s.den) ==> (Add(r, s).Ok? <==> SumFits(r, s, l))
    ensures Add(r, s).Ok? ==>
      Valid(Add(r, s).value) && HasValue(Add(r, s).value, r.num * s.den + s.num * r.den, r.den * s.den)
  {
    var g, p, q := Cofactors(r, s);
    SafeMultiplyIsExact(r.num, q);
    SafeMultiplyIsExact(s.num, p);
    SafeMultiplyIsExact(r.den, q);
    Multiple(r.den, q);
    if l > 0 && LeastCommon(l, r.den, s.den) { LeastDenominator(r, s, l, g, p, q); }
    var fits := Representable(r.num * q) && Representable(s.num * p)
      && Representable(r.num * q + s.num * p) && Representable(r.den * q);
    if fits {
      SafeAddIsExact(r.num * q, s.num * p);
      MakeRatioIsLowest(r.num * q + s.num * p, r.den * q);
      var t := MakeRatio(r.num * q + s.num * p, r.den * q).value;
      SumValue(t, r, s, g, p, q);
      hide MakeRatio, Lowest;
    } else {
      hide MakeRatio, Lowest;
      if Representable(r.num * q) && Representable(s.num * p) {
        SafeAddIsExact(r.num * q, s.num * p);
      }
    }
  }

  /** So it rejects some sums that are representable: half of an odd m, twice, where 2 * m is out of range. */
  lemma AddFailsOnHalves(m: int, k: int)
    requires m == 2 * k + 1 && Representable(m) && !Representable(m + m)
    ensures Valid(Ratio(m, 2)) && Valid(Ratio(m, 1)) && HasValue(Ratio(m, 1), m * 2 + m * 2, 2 * 2)
    ensures Add(Ratio(m, 2), Ratio(m, 2)) == IllFormed
  {
    assert Combines(m, 2, 1, -k) && Combines(m, 1, 0, 1);
    assert LeastCommon(2, 2, 2) by { MultipleOf(2, 1); }
    hide Add, LeastCommon, Coprime;
    AddIsExact(Ratio(m, 2), Ratio(m, 2), 2);
    Quotient(2, 1, 0, 2);
  }

  lemma SumValue(t: Ratio, r: Ratio, s: Ratio, g: int, p: int, q: int)
    requires g > 0 && r.den == g * p && s.den == g * q && HasValue(t, r.num * q + s.num * p, r.den * q)
    ensures HasValue(t, r.num * s.den + s.num * r.den, r.den * s.den)
  {
    assert r.num * (g * q) + s.num * (g * p) == g * (r.num * q + s.num * p);
    assert r.den * (g * q) == g * (r.den * q);
    var n, d := r.num * q + s.num * p, r.den * q;
    assert t.num * (g * d) == g * (t.num * d) && g * n * t.den == g * (n * t.den);
  }

  // Multiplying.

  /** `_Ratio_Multiply`: common factors are cancelled crosswise before anything is multiplied. */
  function Multiply(r: Ratio, s: Ratio): Result<Ratio>
    requires r.den > 0 && s.den > 0
  {
    var g1, g2 := GcdOrOne(r.num, s.den), GcdOrOne(s.num, r.den);
    var num := SafeMultiply(TruncDiv(r.num, g1), TruncDiv(s.num, g2));
    var den := SafeMultiply(r.den / g2, s.den / g1);
    if num.IllFormed? || den.IllFormed? then IllFormed else MakeRatio(num.value, den.value)
  }

  /** A numerator and a denominator over their common divisor are coprime. */
  lemma Cancelled(num: int, den: int) returns (g: nat, p: int, q: int)
    requires Representable(num) && 0 < den <= INTMAX_MAX
    ensures g == GcdOrOne(num, den) > 0 && p == TruncDiv(num, g) && q == den / g
    ensures num == g * p && den == g * q && q > 0 && Coprime(p, q)
    ensures Representable(p) && q <= den
  {
    g := GcdOrOne(num, den);
    GcdDivides(Abs(num), den);
    var m := Factor(g, Abs(num));
    q := Factor(g, den);
    Multiple(g, m);
    TruncDivExact(g, m, Sign(num));
    p := Sign(num) * m;
    assert num == g * p by { assert num == Sign(num) * (g * m); }
    Reduced(Abs(num), den);
    CoprimeNegated(m, q);
    QuotientBound(g, m);
    QuotientBound(g, q);
  }

  lemma CoprimeParts(n: int, d: int, g1: int, p: int, g2: int, q: int)
    requires Coprime(n, d) && n == g1 * p && d == g2 * q
    ensures Coprime(p, q)
  {
    assert n == p * g1 && d == q * g2;
    CoprimeFactor(p, g1, d);
    CoprimeSymmetric(p, d);
    CoprimeFactor(q, g2, p);
    CoprimeSymmetric(q, p);
  }

  /** After the crosswise cancelling, the product is already in lowest terms. */
  lemma CoprimeCross(a1: int, a2: int, b1: int, b2: int)
    requires Coprime(a1, b1) && Coprime(a1, b2) && Coprime(a2, b1) && Coprime(a2, b2)
    ensures Coprime(a1 * a2, b1 * b2)
  {
    CoprimeProduct(a1, a2, b1);
    CoprimeProduct(a1, a2, b2);
    CoprimeSymmetric(a1 * a2, b1);
    CoprimeSymmetric(a1 * a2, b2);
    CoprimeProduct(b1, b2, a1 * a2);
    CoprimeSymmetric(b1 * b2, a1 * a2);
  }

  lemma CrossValue(n1: int, d1: int, n2: int, d2: int, g1: int, g2: int, a1: int, a2: int, b1: int, b2: int)
    requires n1 == g1 * a1 && d2 == g1 * b2 && n2 == g2 * a2 && d1 == g2 * b1
    ensures a1 * a2 * (d1 * d2) == n1 * n2 * (b1 * b2)
  {
    var g := g1 * g2;
    assert d1 * d2 == g * (b1 * b2);
    assert n1 * n2 == g * (a1 * a2);
    assert a1 * a2 * (g * (b1 * b2)) == g * (a1 * a2) * (b1 * b2);
  }

  /** The product of two ratios in lowest terms. */
  ghost function Product(r: Ratio, s: Ratio): Ratio
    requires r.den > 0 && s.den > 0
  {
    var g1, g2 := GcdOrOne(r.num, s.den), GcdOrOne(s.num, r.den);
    Ratio(TruncDiv(r.num, g1) * TruncDiv(s.num, g2), (r.den / g2) * (s.den / g1))
  }

  lemma ProductIsLowest(r: Ratio, s: Ratio)
    requires Valid(r) && Valid(s)
    ensures Lowest(Product(r, s)) && HasValue(Product(r, s), r.num * s.num, r.den * s.den)
  {
    var g1, a1, b2 := Cancelled(r.num, s.den);
    var g2, a2, b1 := Cancelled(s.num, r.den);
    CoprimeParts(r.num, r.den, g1, a1, g2, b1);
    CoprimeParts(s.num, s.den, g2, a2, g1, b2);
    CoprimeCross(a1, a2, b1, b2);
    CrossValue(r.num, r.den, s.num, s.den, g1, g2, a1, a2, b1, b2);
    Multiple(b1, b2);
  }

  /** Making a ratio of a product in lowest terms changes nothing. */
  lemma MakeRatioKeeps(r: Ratio)
    requires Valid(r)
    ensures MakeRatio(r.num, r.den) == Ok(r)
  {
    MakeRatioIsLowest(r.num, r.den);
    LowestIsUnique(MakeRatio(r.num, r.den).value, r);
  }

  /** `ratio_multiply` is the exact product in lowest terms, and fails only when that is out of range. */
  lemma MultiplyIsExact(r: Ratio, s: Ratio)
    requires Valid(r) && Valid(s)
    ensures Multiply(r, s) == if Valid(Product(r, s)) then Ok(Product(r, s)) else IllFormed
  {
    ProductIsLowest(r, s);
    var g1, a1, b2 := Cancelled(r.num, s.den);
    var g2, a2, b1 := Cancelled(s.num, r.den);
    SafeMultiplyIsExact(a1, a2);
    SafeMultiplyIsExact(b1, b2);
    if Valid(Product(r, s)) {
      MakeRatioKeeps(Product(r, s));
    }
    hide MakeRatio, SafeMultiply, GcdOrOne, TruncDiv, Lowest;
  }

  /** When `ratio_multiply` fails, no representable ratio is the product. */
  lemma MultiplyFailsOnlyIfItMust(r: Ratio, s: Ratio, t: Ratio)
    requires Valid(r) && Valid(s) && Valid(t) && HasValue(t, r.num * s.num, r.den * s.den)
    ensures Multiply(r, s) == Ok(t)
  {
    MultiplyIsExact(r, s);
    ProductIsLowest(r, s);
    var p := Product(r, s);
    Multiple(r.den, s.den);
    SameValue(t, p, r.num * s.num, r.den * s.den);
    LowestIsUnique(t, p);
  }

  lemma SameValue(t: Ratio, p: Ratio, n: int, d: int)
    requires d > 0 && HasValue(t, n, d) && HasValue(p, n, d)
    ensures HasValue(t, p.num, p.den)
  {
    var e := t.num * p.den - p.num * t.den;
    assert d * e == (t.num * d) * p.den - (p.num * d) * t.den;
    assert (n * t.den) * p.den == (n * p.den) * t.den;
    Multiple(d, e);
  }

  // Subtracting and dividing come down to adding and multiplying.

  function Subtract(r: Ratio, s: Ratio): Result<Ratio>
    requires r.den > 0 && s.den > 0
  {
    Add(r, Ratio(-s.num, s.den))
  }

  /** The same of the difference. */
  lemma SubtractIsExact(r: Ratio, s: Ratio, l: int)
    requires Valid(r) && Valid(s)
    ensures l > 0 && LeastCommon(l, r.den, s.den) ==> (Subtract(r, s).Ok? <==> SumFits(r, Ratio(-s.num, s.den), l))
    ensures Subtract(r, s).Ok? ==>
      Valid(Subtract(r, s).value) && HasValue(Subtract(r, s).value, r.num * s.den - s.num * r.den, r.den * s.den)
  {
    var t := Ratio(-s.num, s.den);
    CoprimeNegated(s.num, s.den);
    AddIsExact(r, t, l);
    assert t.num * r.den == -(s.num * r.den);
    hide Add, Valid, SumFits, LeastCommon;
  }

  /** `ratio_divide`: dividing by zero is rejected with the zero denominator of the inverse. */
  function Divide(r: Ratio, s: Ratio): Result<Ratio>
    requires r.den > 0 && s.den > 0
  {
    match MakeRatio(s.den, s.num)
    case IllFormed => IllFormed
    case Ok(inverse) => if inverse.den > 0 then Multiply(r, inverse) else IllFormed
  }

  lemma DivideIsExact(r: Ratio, s: Ratio)
    requires Valid(r) && Valid(s)
    ensures s.num == 0 ==> Divide(r, s) == IllFormed
    ensures Divide(r, s).Ok? ==>
      Valid(Divide(r, s).value) && HasValue(Divide(r, s).value, r.num * s.den, r.den * s.num)
  {
    if s.num != 0 {
      MakeRatioIsLowest(s.den, s.num);
      var inverse := MakeRatio(s.den, s.num).value;
      MultiplyIsExact(r, inverse);
      ProductIsLowest(r, inverse);
      if Divide(r, s).Ok? {
        QuotientValue(Product(r, inverse), r, s, inverse);
      }
      hide MakeRatio, Multiply, Product, Lowest;
    }
  }

  /** Dividing by a ratio other than zero fails only when no representable ratio is the quotient. */
  lemma DivideFailsOnlyIfItMust(r: Ratio, s: Ratio, t: Ratio)
    requires Valid(r) && Valid(s) && Valid(t) && s.num != 0 && HasValue(t, r.num * s.den, r.den * s.num)
    ensures Divide(r, s) == Ok(t)
  {
    MakeRatioIsLowest(s.den, s.num);
    var inverse := MakeRatio(s.den, s.num).value;
    InverseValue(t, r, s, inverse);
    MultiplyFailsOnlyIfItMust(r, inverse, t);
    hide MakeRatio, Multiply;
  }

  lemma InverseValue(t: Ratio, r: Ratio, s: Ratio, inverse: Ratio)
    requires s.num != 0 && HasValue(inverse, s.den, s.num) && HasValue(t, r.num * s.den, r.den * s.num)
    ensures HasValue(t, r.num * inverse.num, r.den * inverse.den)
  {
    var e := t.num * (r.den * inverse.den) - r.num * inverse.num * t.den;
    assert s.num * e == t.num * (r.den * s.num) * inverse.den - r.num * (inverse.num * s.num) * t.den;
    assert t.num * (r.den * s.num) * inverse.den == r.num * s.den * t.den * inverse.den;
    assert r.num * (s.den * inverse.den) * t.den == r.num * s.den * t.den * inverse.den;
    if s.num > 0 {
      Multiple(s.num, e);
    } else {
      assert -s.num * e == 0;
      Multiple(-s.num, e);
    }
  }

  lemma QuotientValue(t: Ratio, r: Ratio, s: Ratio, inverse: Ratio)
    requires inverse.den > 0 && HasValue(inverse, s.den, s.num)
    requires HasValue(t, r.num * inverse.num, r.den * inverse.den)
    ensures HasValue(t, r.num * s.den, r.den * s.num)
  {
    var e := t.num * (r.den * s.num) - r.num * s.den * t.den;
    assert inverse.den * e == t.num * (r.den * inverse.den) * s.num - r.num * (s.den * inverse.den) * t.den;
    assert t.num * (r.den * inverse.den) * s.num == r.num * inverse.num * t.den * s.num;
    assert r.num * (inverse.num * s.num) * t.den == r.num * inverse.num * t.den * s.num;
    Multiple(inverse.den, e);
  }
}
