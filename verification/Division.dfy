/** Products and Euclidean division, as facts the solver need not find. */
module Division {
  lemma {:induction false} Multiple(n: int, j: int)
    requires n > 0
    ensures j > 0 ==> n * j >= n
    ensures j < 0 ==> n * j <= -n
    decreases if j < 0 then -j else j
  {
    if j > 1 {
      Multiple(n, j - 1);
      assert n * j == n * (j - 1) + n;
    } else if j < -1 {
      Multiple(n, j + 1);
      assert n * j == n * (j + 1) - n;
    }
  }

  lemma Quotient(n: int, k: int, r: int, x: int)
    requires n > 0 && x == n * k + r && 0 <= r < n
    ensures x / n == k && x % n == r
  {
    var j := x / n - k;
    assert n * (x / n) == n * k + n * j;
    Multiple(n, j);
  }

  lemma Divided(n: int, x: int) returns (k: int, r: int)
    requires n > 0
    ensures k == x / n && r == x % n && x == n * k + r && 0 <= r < n
    ensures x >= 0 ==> k >= 0
  {
    k, r := x / n, x % n;
    Multiple(n, k);
  }

  lemma Associates(a: int, b: int, c: int)
    ensures a * (b * c) == a * b * c
  {
  }

  lemma Commutes(m: int, n: int)
    ensures m * n == n * m
  {
  }
}
