/** `countl_zero` and `countr_zero`: counting bits by halving. */
module Bits {
  import opened Words

  /** The number of bits up to and including the highest one set. */
  function BitLength(x: nat): nat {
    if x == 0 then 0 else 1 + BitLength(x / 2)
  }

  /** The number of zero bits below the lowest one set. */
  function Trailing(x: nat): nat
    requires x > 0
  {
    if x % 2 == 1 then 0 else 1 + Trailing(x / 2)
  }

  lemma {:induction false} BitLengthBounds(x: nat)
    ensures x < Pow2(BitLength(x))
    ensures x > 0 ==> Pow2(BitLength(x) - 1) <= x && Bit(x, BitLength(x) - 1)
  {
    if x > 1 {
      BitLengthBounds(x / 2);
    }
  }

  lemma {:induction false} BitLengthFits(x: nat, w: nat)
    requires x < Pow2(w)
    ensures BitLength(x) <= w
    decreases w
  {
    if x > 0 {
      BitLengthFits(x / 2, w - 1);
    }
  }

  lemma {:induction false} BitLengthShr(x: nat, c: nat)
    requires Shr(x, c) != 0
    ensures BitLength(x) == BitLength(Shr(x, c)) + c
    decreases c
  {
    if c > 0 {
      BitLengthShr(x / 2, c - 1);
      ShrFits(x, c, 0);
    }
  }

  /** Each round tests half as many bits as the one before; the word has w = 2^k of them. */
  method CountlZero(val0: nat, w: nat, ghost k: nat) returns (count: int)
    requires w == Pow2(k) && k > 0 && val0 < Pow2(w)
    ensures count == w - BitLength(val0) && 0 <= count <= w
    ensures forall i :: w - count <= i < w ==> !Bit(val0, i)
    ensures count < w ==> Bit(val0, w - count - 1)
  {
    var val: nat, nn, cc: nat := val0, w, w / 2;
    ghost var j: nat := k - 1;
    while cc != 0
      invariant (cc == 0 || cc == Pow2(j))
      invariant val < Pow2(if cc == 0 then 1 else 2 * cc)
      invariant nn - BitLength(val) == w - BitLength(val0)
      decreases cc
    {
      var yy := Shr(val, cc);
      ShrFits(val, cc, cc);
      if yy != 0 {
        BitLengthShr(val, cc);
        nn := nn - cc;
        val := yy;
      }
      assert Shr(cc, 1) == cc / 2;
      cc := Shr(cc, 1);
      j := if j == 0 then 0 else j - 1;
    }
    BitLengthBounds(val0);
    BitLengthFits(val0, w);
    forall i | BitLength(val0) <= i < w ensures !Bit(val0, i) {
      BitsAbove(val0, BitLength(val0), i);
    }
    count := nn - val;
  }

  lemma {:induction false} TrailingMask(x: nat, w: nat)
    requires 0 < x < Pow2(w)
    ensures And(Not(x, w), x - 1) == Pow2(Trailing(x)) - 1 && Trailing(x) < w
    decreases w
  {
    NotStep(x, w);
    if x % 2 == 1 {
      NoneInCommon(x / 2, w - 1);
    } else {
      TrailingMask(x / 2, w - 1);
    }
  }

  lemma {:induction false} NoneInCommon(x: nat, w: nat)
    requires x < Pow2(w)
    ensures And(Not(x, w), x) == 0
    decreases w
  {
    if w > 0 {
      NotStep(x, w);
      NoneInCommon(x / 2, w - 1);
    }
  }

  lemma {:induction false} AndSelf(x: nat)
    ensures And(x, x) == x
  {
    if x > 0 {
      AndSelf(x / 2);
    }
  }

  lemma {:induction false} BitLengthMask(k: nat)
    ensures BitLength(Pow2(k) - 1) == k
  {
    if k > 0 {
      BitLengthMask(k - 1);
    }
  }

  /** The zeros below the lowest set bit are the exact power of two in x. */
  lemma {:induction false} TrailingIsExact(x: nat)
    requires x > 0
    ensures x == Pow2(Trailing(x)) * Shr(x, Trailing(x)) && Shr(x, Trailing(x)) % 2 == 1
  {
    if x % 2 == 0 {
      var h, t := x / 2, Trailing(x / 2);
      TrailingIsExact(h);
      Doubled(Pow2(t), Shr(h, t));
      assert Pow2(t + 1) == 2 * Pow2(t) && Shr(x, t + 1) == Shr(h, t);
    }
  }

  lemma Doubled(m: int, n: int)
    ensures 2 * m * n == 2 * (m * n)
  {
  }

  method CountrZero(val: nat, w: nat, ghost k: nat) returns (count: int)
    requires w == Pow2(k) && k > 0 && val < Pow2(w)
    ensures val == 0 ==> count == w
    ensures val > 0 ==> count == Trailing(val) < w
    ensures val > 0 ==> val == Pow2(count) * Shr(val, count) && Shr(val, count) % 2 == 1
  {
    AndBound(Not(val, w), Minus(val, 1, w));
    var leading := CountlZero(And(Not(val, w), Minus(val, 1, w)), w, k);
    count := w - leading;
    if val == 0 {
      AndSelf(Pow2(w) - 1);
      BitLengthMask(w);
    } else {
      TrailingMask(val, w);
      BitLengthMask(Trailing(val));
      TrailingIsExact(val);
    }
  }
}
