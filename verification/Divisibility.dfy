/** Divisors, greatest common divisors and coprime numbers. */
module Divisibility {
  import opened Division

  predicate Divides(d: int, n: int) {
    d > 0 && n % d == 0
  }

  lemma Factor(d: int, n: int) returns (q: int)
    requires Divides(d, n)
    ensures n == d * q && q == n / d
    ensures n > 0 ==> q > 0
  {
    var r;
    q, r := Divided(d, n);
    Multiple(d, q);
  }

  lemma MultipleOf(d: int, q: int)
    requires d > 0
    ensures Divides(d, d * q)
  {
    Quotient(d, q, 0, d * q);
  }

  lemma DividesSum(d: int, m: int, n: int, x: int, y: int)
    requires Divides(d, m) && Divides(d, n)
    ensures Divides(d, m * x + n * y)
  {
    var p := Factor(d, m);
    var q := Factor(d, n);
    assert m * x + n * y == d * (p * x + q * y);
    MultipleOf(d, p * x + q * y);
  }

  lemma DividesBound(d: int, n: int)
    requires Divides(d, n) && n > 0
    ensures d <= n
  {
    var q := Factor(d, n);
    Multiple(d, q);
  }

  /** g divides both, and every divisor of both divides g. */
  ghost predicate GreatestCommon(g: int, m: int, n: int) {
    && Divides(g, m)
    && Divides(g, n)
    && forall d :: Divides(d, m) && Divides(d, n) ==> Divides(d, g)
  }

  lemma OnlyOneGreatest(g: int, h: int, m: int, n: int)
    requires GreatestCommon(g, m, n) && GreatestCommon(h, m, n)
    ensures g == h
  {
    DividesBound(g, h);
    DividesBound(h, g);
  }

  lemma GreatestWithZero(n: int)
    requires n > 0
    ensures GreatestCommon(n, 0, n) && GreatestCommon(n, n, 0)
  {
    MultipleOf(n, 1);
    MultipleOf(n, 0);
  }

  /** Euclid's algorithm. */
  function Gcd(m: nat, n: nat): (g: nat)
    ensures g == 0 <==> m == 0 && n == 0
    decreases n
  {
    if n == 0 then m else Gcd(n, m % n)
  }

  /** The coefficients that make the greatest common divisor a combination. */
  lemma {:induction false} Combination(m: nat, n: nat) returns (x: int, y: int)
    ensures Gcd(m, n) == m * x + n * y
    decreases n
  {
    if n == 0 {
      x, y := 1, 0;
    } else {
      var k, r := Divided(n, m);
      var x', y' := Combination(n, r);
      x, y := y', x' - k * y';
      assert m * x + n * y == n * x' + (m - n * k) * y';
    }
  }

  lemma {:induction false} GcdDivides(m: nat, n: nat)
    requires m > 0 || n > 0
    ensures Divides(Gcd(m, n), m) && Divides(Gcd(m, n), n)
    decreases n
  {
    if n == 0 {
      GreatestWithZero(m);
    } else {
      var k, r := Divided(n, m);
      GcdDivides(n, r);
      DividesSum(Gcd(m, n), n, r, k, 1);
    }
  }

  lemma GcdIsGreatest(m: nat, n: nat)
    requires m > 0 || n > 0
    ensures GreatestCommon(Gcd(m, n), m, n)
  {
    GcdDivides(m, n);
    var x, y := Combination(m, n);
    forall d | Divides(d, m) && Divides(d, n) ensures Divides(d, Gcd(m, n)) {
      DividesSum(d, m, n, x, y);
    }
  }

  /** Some combination of the two is one. */
  ghost predicate Coprime(m: int, n: int) {
    exists x, y :: Combines(m, n, x, y)
  }

  ghost predicate Combines(m: int, n: int, x: int, y: int) {
    m * x + n * y == 1
  }

  lemma CombinesReduced(g: int, p: int, q: int, x: int, y: int)
    requires g > 0 && g * p * x + g * q * y == g
    ensures p * x + q * y == 1
  {
    var t := p * x + q * y;
    assert g * p * x == g * (p * x) && g * q * y == g * (q * y);
    assert g * (t - 1) == 0;
    Multiple(g, t - 1);
  }

  /** Dividing two numbers by their greatest common divisor leaves coprime ones. */
  lemma Reduced(m: nat, n: nat)
    requires m > 0 || n > 0
    ensures Gcd(m, n) > 0 && Coprime(m / Gcd(m, n), n / Gcd(m, n))
  {
    GcdDivides(m, n);
    var g := Gcd(m, n);
    var p := Factor(g, m);
    var q := Factor(g, n);
    var x, y := Combination(m, n);
    CombinesReduced(g, p, q, x, y);
    assert Combines(p, q, x, y);
  }

  lemma CoprimeSymmetric(m: int, n: int)
    requires Coprime(m, n)
    ensures Coprime(n, m)
  {
    var x, y :| Combines(m, n, x, y);
    assert Combines(n, m, y, x);
  }

  lemma CoprimeNegated(m: int, n: int)
    requires Coprime(m, n)
    ensures Coprime(-m, n)
  {
    var x, y :| Combines(m, n, x, y);
    assert Combines(-m, n, -x, y);
  }

  /** A factor of a number coprime to n is coprime to n. */
  lemma CoprimeFactor(p: int, q: int, n: int)
    requires Coprime(p * q, n)
    ensures Coprime(p, n)
  {
    var x, y :| Combines(p * q, n, x, y);
    assert p * q * x == p * (q * x);
    assert Combines(p, n, q * x, y);
  }

  lemma CoprimeProduct(p: int, q: int, n: int)
    requires Coprime(p, n) && Coprime(q, n)
    ensures Coprime(p * q, n)
  {
    var x, y :| Combines(p, n, x, y);
    var u, v :| Combines(q, n, u, v);
    ProductCombines(p, q, n, x, y, u, v);
    assert Combines(p * q, n, x * u, p * x * v + y * (q * u) + n * y * v);
  }

  lemma ProductCombines(p: int, q: int, n: int, x: int, y: int, u: int, v: int)
    requires p * x + n * y == 1 && q * u + n * v == 1
    ensures p * q * (x * u) + n * (p * x * v + y * (q * u) + n * y * v) == 1
  {
    calc {
      1;
    ==
      (p * x + n * y) * (q * u + n * v);
    ==
      (p * x) * (q * u) + (p * x) * (n * v) + (n * y) * (q * u) + (n * y) * (n * v);
    }
    assert (p * x) * (q * u) == p * q * (x * u);
    assert (p * x) * (n * v) == n * (p * x * v);
    assert (n * y) * (q * u) == n * (y * (q * u));
    assert (n * y) * (n * v) == n * (n * y * v);
  }

  // Least common multiple.

  ghost predicate LeastCommon(l: int, m: int, n: int) {
    && Divides(m, l)
    && Divides(n, l)
    && forall c :: Divides(m, c) && Divides(n, c) ==> Divides(l, c)
  }

  ghost function Lcm(m: nat, n: nat): nat
    requires m > 0 && n > 0
  {
    m / Gcd(m, n) * n
  }

  lemma LcmTimesGcd(m: nat, n: nat)
    requires m > 0 && n > 0
    ensures Lcm(m, n) * Gcd(m, n) == m * n && Lcm(m, n) > 0
  {
    GcdDivides(m, n);
    var g := Gcd(m, n);
    var p := Factor(g, m);
    RegroupFactors(p, n, g);
    Multiple(n, p);
  }

  lemma RegroupFactors(p: int, n: int, g: int)
    ensures p * n * g == g * p * n
  {
  }

  /** Every common multiple is a multiple of the least one. */
  lemma CommonMultiple(m: nat, n: nat, c: int)
    requires m > 0 && n > 0 && Divides(m, c) && Divides(n, c)
    ensures Divides(Lcm(m, n), c)
  {
    LcmTimesGcd(m, n);
    var p := Factor(m, c);
    var q := Factor(n, c);
    var x, y := Combination(m, n);
    MultipleCombination(m, n, c, Gcd(m, n), Lcm(m, n), p, q, x, y);
    MultipleOf(Lcm(m, n), q * x + p * y);
  }

  lemma MultipleCombination(m: int, n: int, c: int, g: int, l: int, p: int, q: int, x: int, y: int)
    requires g > 0 && c == m * p && c == n * q && g == m * x + n * y && l * g == m * n
    ensures c == l * (q * x + p * y)
  {
    var t := q * x + p * y;
    assert c * g == c * (m * x) + c * (n * y);
    assert c * (m * x) == m * n * (q * x);
    assert c * (n * y) == m * n * (p * y);
    assert c * g == m * n * t;
    assert l * t * g == l * g * t;
    assert g * (c - l * t) == 0;
    Multiple(g, c - l * t);
  }

  lemma LcmIsLeast(m: nat, n: nat)
    requires m > 0 && n > 0
    ensures LeastCommon(Lcm(m, n), m, n)
  {
    GcdDivides(m, n);
    var g := Gcd(m, n);
    var p := Factor(g, m);
    var q := Factor(g, n);
    Commutes(n, p);
    MultipleOf(n, p);
    Associates(p, g, q);
    Commutes(g, p);
    MultipleOf(m, q);
    forall c | Divides(m, c) && Divides(n, c) ensures Divides(Lcm(m, n), c) {
      CommonMultiple(m, n, c);
    }
  }

  lemma OnlyOneLeast(l: int, k: int, m: int, n: int)
    requires LeastCommon(l, m, n) && LeastCommon(k, m, n) && l > 0 && k > 0
    ensures l == k
  {
    DividesBound(l, k);
    DividesBound(k, l);
  }
}
