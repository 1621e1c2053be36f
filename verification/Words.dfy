/** Unsigned machine words of w bits: values below 2^w, with the operators C++ defines on them. */
module Words {
  import opened Division

  function Pow2(n: nat): (p: nat)
    ensures p > 0
  {
    if n == 0 then 1 else 2 * Pow2(n - 1)
  }

  /** Bit i of a word, counted from the least significant. */
  predicate Bit(x: nat, i: nat) {
    if i == 0 then x % 2 == 1 else Bit(x / 2, i - 1)
  }

  /** Shifting right drops the p low bits. */
  function Shr(x: nat, p: nat): nat {
    if p == 0 then x else Shr(x / 2, p - 1)
  }

  function Shl(x: nat, p: nat, w: nat): nat {
    x * Pow2(p) % Pow2(w)
  }

  function Not(x: nat, w: nat): nat
    requires x < Pow2(w)
  {
    Pow2(w) - 1 - x
  }

  function And(x: nat, y: nat): nat {
    if x == 0 then 0 else 2 * And(x / 2, y / 2) + (if x % 2 == 1 && y % 2 == 1 then 1 else 0)
  }

  function Or(x: nat, y: nat): nat {
    if x == 0 then y else 2 * Or(x / 2, y / 2) + (if x % 2 == 1 || y % 2 == 1 then 1 else 0)
  }

  /** Subtraction wraps round. */
  function Minus(x: nat, y: nat, w: nat): nat
    requires x < Pow2(w) && y < Pow2(w)
  {
    if x < y then x - y + Pow2(w) else x - y
  }

  lemma {:induction false} Pow2Adds(m: nat, n: nat)
    ensures Pow2(m + n) == Pow2(m) * Pow2(n)
  {
    if m > 0 {
      Pow2Adds(m - 1, n);
      assert Pow2(m + n) == 2 * (Pow2(m - 1) * Pow2(n));
    }
  }

  lemma {:induction false} Pow2Grows(m: nat, n: nat)
    requires m <= n
    ensures Pow2(m) <= Pow2(n)
    ensures m < n ==> Pow2(m) < Pow2(n)
    decreases n
  {
    if m < n {
      Pow2Grows(m, n - 1);
    }
  }

  // What each operator does to the bits.

  /** It is division by 2^p. */
  lemma {:induction false} ShrDivides(x: nat, p: nat)
    ensures Shr(x, p) == x / Pow2(p)
    decreases p
  {
    if p == 0 {
      assert x / 1 == x;
    } else {
      ShrDivides(x / 2, p - 1);
      var k, r := Divided(Pow2(p - 1), x / 2);
      assert Pow2(p) * k == 2 * (Pow2(p - 1) * k);
      Quotient(Pow2(p), k, 2 * r + x % 2, x);
    }
  }

  lemma {:induction false} ShrFits(x: nat, p: nat, w: nat)
    ensures Shr(x, p) < Pow2(w) <==> x < Pow2(p + w)
    ensures Shr(x, p) == 0 <==> x < Pow2(p)
    decreases p
  {
    if p > 0 {
      ShrFits(x / 2, p - 1, w);
    }
  }

  lemma {:induction false} ShrBound(x: nat, p: nat)
    ensures Shr(x, p) <= x
    decreases p
  {
    if p > 0 {
      ShrBound(x / 2, p - 1);
    }
  }

  lemma {:induction false} BitShr(x: nat, p: nat, i: nat)
    ensures Bit(Shr(x, p), i) == Bit(x, p + i)
    decreases p
  {
    if p > 0 {
      BitShr(x / 2, p - 1, i);
    }
  }

  lemma {:induction false} BitModulo(x: nat, w: nat, i: nat)
    ensures Bit(x % Pow2(w), i) == (i < w && Bit(x, i))
    decreases w
  {
    if w == 0 {
      assert x % 1 == 0;
      BitZero(i);
    } else {
      var k, r := Divided(Pow2(w - 1), x / 2);
      assert Pow2(w) * k == 2 * (Pow2(w - 1) * k);
      Quotient(Pow2(w), k, 2 * r + x % 2, x);
      assert (2 * r + x % 2) / 2 == r && (2 * r + x % 2) % 2 == x % 2;
      if i > 0 {
        BitModulo(x / 2, w - 1, i - 1);
      }
    }
  }

  lemma {:induction false} BitZero(i: nat)
    ensures !Bit(0, i)
    decreases i
  {
    if i > 0 {
      BitZero(i - 1);
    }
  }

  lemma {:induction false} BitScaled(x: nat, p: nat, i: nat)
    ensures Bit(x * Pow2(p), i) == (i >= p && Bit(x, i - p))
    decreases p
  {
    if p > 0 {
      assert x * Pow2(p) == 2 * (x * Pow2(p - 1));
      if i > 0 {
        BitScaled(x, p - 1, i - 1);
      }
    }
  }

  lemma BitShl(x: nat, p: nat, w: nat, i: nat)
    ensures Bit(Shl(x, p, w), i) == (p <= i < w && Bit(x, i - p))
    ensures Shl(x, p, w) < Pow2(w)
  {
    BitScaled(x, p, i);
    BitModulo(x * Pow2(p), w, i);
  }

  lemma {:induction false} BitAnd(x: nat, y: nat, i: nat)
    ensures Bit(And(x, y), i) == (Bit(x, i) && Bit(y, i))
    decreases i
  {
    if x == 0 {
      BitZero(i);
    } else if i > 0 {
      BitAnd(x / 2, y / 2, i - 1);
    }
  }

  lemma {:induction false} BitOr(x: nat, y: nat, i: nat)
    ensures Bit(Or(x, y), i) == (Bit(x, i) || Bit(y, i))
    decreases i
  {
    if x == 0 {
      BitZero(i);
    } else if i > 0 {
      BitOr(x / 2, y / 2, i - 1);
    }
  }

  lemma NotStep(x: nat, w: nat)
    requires w > 0 && x < Pow2(w)
    ensures x / 2 < Pow2(w - 1)
    ensures Not(x, w) / 2 == Not(x / 2, w - 1) && Not(x, w) % 2 == 1 - x % 2
  {
  }

  lemma {:induction false} BitNot(x: nat, w: nat, i: nat)
    requires x < Pow2(w) && i < w
    ensures Bit(Not(x, w), i) == !Bit(x, i)
    decreases i
  {
    NotStep(x, w);
    if i > 0 {
      BitNot(x / 2, w - 1, i - 1);
    }
  }

  lemma {:induction false} BitsAbove(x: nat, w: nat, i: nat)
    requires x < Pow2(w) && i >= w
    ensures !Bit(x, i)
    decreases w
  {
    if w == 0 {
      BitZero(i);
    } else {
      BitsAbove(x / 2, w - 1, i - 1);
    }
  }

  /** The mask `(1 << k) - 1` is the k low bits. */
  lemma {:induction false} BitMask(k: nat, i: nat)
    ensures Bit(Pow2(k) - 1, i) == (i < k)
    decreases k
  {
    if k == 0 {
      BitZero(i);
    } else {
      assert (Pow2(k) - 1) / 2 == Pow2(k - 1) - 1;
      if i > 0 {
        BitMask(k - 1, i - 1);
      }
    }
  }

  lemma {:induction false} OrBound(x: nat, y: nat, w: nat)
    requires x < Pow2(w) && y < Pow2(w)
    ensures Or(x, y) < Pow2(w)
    decreases w
  {
    if x > 0 {
      OrBound(x / 2, y / 2, w - 1);
    }
  }

  lemma {:induction false} AndBound(x: nat, y: nat)
    ensures And(x, y) <= x && And(x, y) <= y
    decreases x
  {
    if x > 0 {
      AndBound(x / 2, y / 2);
    }
  }

  /** A word is its bits. */
  lemma {:induction false} SameBits(x: nat, y: nat, w: nat)
    requires x < Pow2(w) && y < Pow2(w)
    requires forall i: nat :: i < w ==> Bit(x, i) == Bit(y, i)
    ensures x == y
    decreases w
  {
    if w > 0 {
      forall i: nat | i < w - 1 ensures Bit(x / 2, i) == Bit(y / 2, i) {
        assert Bit(x, i + 1) == Bit(y, i + 1);
      }
      SameBits(x / 2, y / 2, w - 1);
      assert Bit(x, 0) == Bit(y, 0);
    }
  }

  /** The word with only bit p set, as `1 << p` makes it. */
  lemma BitOne(p: nat, w: nat, i: nat)
    requires p < w
    ensures Bit(Shl(1, p, w), i) == (i == p)
  {
    BitShl(1, p, w, i);
    if i > p {
      BitsAbove(1, 1, i - p);
    }
  }

  lemma BitTest(x: nat, p: nat, w: nat)
    requires x < Pow2(w) && p < w
    ensures And(x, Shl(1, p, w)) != 0 <==> Bit(x, p)
  {
    var y := And(x, Shl(1, p, w));
    forall i: nat ensures Bit(y, i) == (i == p && Bit(x, p)) {
      BitAnd(x, Shl(1, p, w), i);
      BitOne(p, w, i);
    }
    if Bit(x, p) {
      BitZero(p);
    } else {
      AndBound(x, Shl(1, p, w));
      forall i: nat | i < w ensures Bit(y, i) == Bit(0, i) {
        BitZero(i);
      }
      SameBits(y, 0, w);
    }
  }

  ghost predicate LowOnes(x: nat, k: nat) {
    forall i: nat :: i < k ==> Bit(x, i)
  }

  /** A word equals the mask of its k low bits just when those are its ones. */
  lemma MaskTest(x: nat, k: nat, w: nat)
    requires x < Pow2(w) && k <= w && forall i: nat :: k <= i < w ==> !Bit(x, i)
    ensures x == Pow2(k) - 1 <==> LowOnes(x, k)
  {
    Pow2Grows(k, w);
    var mask := Pow2(k) - 1;
    forall i: nat ensures Bit(mask, i) == (i < k) {
      BitMask(k, i);
    }
    if LowOnes(x, k) {
      SameBits(x, mask, w);
    }
  }
}
