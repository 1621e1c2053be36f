/** Sequences of words read as one long bit string, lowest bit of the first word first. */
module BitBlocks {
  import opened Division
  import opened Words

  /** Bit i of the blocks; there are no ones outside them. */
  ghost predicate Flat(blocks: seq<nat>, w: nat, i: int) {
    w > 0 && 0 <= i < |blocks| * w && i / w < |blocks| && Bit(blocks[i / w], i % w)
  }

  ghost predicate Fits(blocks: seq<nat>, w: nat) {
    forall b :: 0 <= b < |blocks| ==> blocks[b] < Pow2(w)
  }

  lemma BlockOf(n: nat, w: nat, i: nat) returns (b: nat, c: nat)
    requires w > 0
    ensures b == i / w && c == i % w && i == w * b + c && c < w
    ensures i < n * w <==> b < n
  {
    b, c := Divided(w, i);
    var d := b - n;
    assert w * b == w * n + w * d && n * w == w * n;
    Multiple(w, d);
  }

  lemma FlatAt(blocks: seq<nat>, w: nat, b: int, c: nat)
    requires w > 0 && c < w
    ensures Flat(blocks, w, w * b + c) == (0 <= b < |blocks| && Bit(blocks[b], c))
  {
    Quotient(w, b, c, w * b + c);
    var d := b - |blocks|;
    assert w * b == w * |blocks| + w * d && |blocks| * w == w * |blocks|;
    Multiple(w, d);
    Multiple(w, b);
  }

  // Shifting by whole blocks, then by the rest.

  ghost function BlocksUp(blocks: seq<nat>, s: nat): (moved: seq<nat>)
    ensures |moved| == |blocks|
  {
    seq(|blocks|, b requires 0 <= b < |blocks| => if s <= b then blocks[b - s] else 0)
  }

  ghost function BlocksDown(blocks: seq<nat>, s: nat): (moved: seq<nat>)
    ensures |moved| == |blocks|
  {
    seq(|blocks|, b requires 0 <= b < |blocks| => if s < |blocks| - b then blocks[b + s] else 0)
  }

  ghost function BitsUp(blocks: seq<nat>, w: nat, p: nat): (moved: seq<nat>)
    requires p <= w
    ensures |moved| == |blocks|
  {
    seq(|blocks|, b requires 0 <= b < |blocks| =>
      if b == 0 then Shl(blocks[0], p, w) else Or(Shl(blocks[b], p, w), Shr(blocks[b - 1], w - p)))
  }

  ghost function BitsDown(blocks: seq<nat>, w: nat, p: nat): (moved: seq<nat>)
    requires p <= w
    ensures |moved| == |blocks|
  {
    seq(|blocks|, b requires 0 <= b < |blocks| =>
      if b == |blocks| - 1 then Shr(blocks[b], p) else Or(Shr(blocks[b], p), Shl(blocks[b + 1], w - p, w)))
  }

  lemma BitsUpAt(blocks: seq<nat>, w: nat, p: nat, b: nat)
    requires p <= w && b < |blocks|
    ensures BitsUp(blocks, w, p)[b] ==
            if b == 0 then Shl(blocks[0], p, w) else Or(Shl(blocks[b], p, w), Shr(blocks[b - 1], w - p))
  {
  }

  lemma BitsDownAt(blocks: seq<nat>, w: nat, p: nat, b: nat)
    requires p <= w && b < |blocks|
    ensures BitsDown(blocks, w, p)[b] ==
            if b == |blocks| - 1 then Shr(blocks[b], p) else Or(Shr(blocks[b], p), Shl(blocks[b + 1], w - p, w))
  {
  }

  lemma BlocksUpFlat(blocks: seq<nat>, w: nat, s: nat, i: nat)
    requires w > 0 && i < |blocks| * w
    ensures Flat(BlocksUp(blocks, s), w, i) == Flat(blocks, w, i - w * s)
  {
    var b, c := BlockOf(|blocks|, w, i);
    FlatAt(BlocksUp(blocks, s), w, b, c);
    FlatAt(blocks, w, b - s, c);
    assert w * (b - s) + c == i - w * s;
    BitZero(c);
  }

  lemma BlocksDownFlat(blocks: seq<nat>, w: nat, s: nat, i: nat)
    requires w > 0 && i < |blocks| * w
    ensures Flat(BlocksDown(blocks, s), w, i) == Flat(blocks, w, i + w * s)
  {
    var b, c := BlockOf(|blocks|, w, i);
    FlatAt(BlocksDown(blocks, s), w, b, c);
    FlatAt(blocks, w, b + s, c);
    assert w * (b + s) + c == i + w * s;
    BitZero(c);
  }

  lemma WordUp(x: nat, y: nat, p: nat, w: nat, c: nat)
    requires 0 < p < w && c < w && y < Pow2(w)
    ensures Bit(Or(Shl(x, p, w), Shr(y, w - p)), c) == if c >= p then Bit(x, c - p) else Bit(y, w - p + c)
  {
    BitShl(x, p, w, c);
    BitShr(y, w - p, c);
    BitOr(Shl(x, p, w), Shr(y, w - p), c);
    if c >= p {
      BitsAbove(y, w, w - p + c);
    }
  }

  lemma WordDown(x: nat, y: nat, p: nat, w: nat, c: nat)
    requires 0 < p < w && c < w && x < Pow2(w)
    ensures Bit(Or(Shr(x, p), Shl(y, w - p, w)), c) == if c + p < w then Bit(x, c + p) else Bit(y, c + p - w)
  {
    BitShr(x, p, c);
    BitShl(y, w - p, w, c);
    BitOr(Shr(x, p), Shl(y, w - p, w), c);
    if c + p >= w {
      BitsAbove(x, w, p + c);
    }
  }

  lemma BitsUpFlat(blocks: seq<nat>, w: nat, p: nat, i: nat)
    requires 0 < p < w && i < |blocks| * w && Fits(blocks, w)
    ensures Flat(BitsUp(blocks, w, p), w, i) == Flat(blocks, w, i - p)
  {
    hide Flat, Bit, Shr, Shl, Or, Pow2;
    var b: int, c: nat := BlockOf(|blocks|, w, i);
    FlatAt(BitsUp(blocks, w, p), w, b, c);
    if b > 0 {
      WordUp(blocks[b], blocks[b - 1], p, w, c);
    } else {
      BitShl(blocks[0], p, w, c);
    }
    if c >= p {
      FlatAt(blocks, w, b, c - p);
    } else {
      Before(w, b, c, p);
      FlatAt(blocks, w, b - 1, w - p + c);
    }
  }

  lemma Before(w: int, b: int, c: int, p: int)
    ensures w * (b - 1) + (w - p + c) == w * b + c - p
    ensures w * (b + 1) + (c + p - w) == w * b + c + p
  {
  }

  lemma BitsDownFlat(blocks: seq<nat>, w: nat, p: nat, i: nat)
    requires 0 < p < w && i < |blocks| * w && Fits(blocks, w)
    ensures Flat(BitsDown(blocks, w, p), w, i) == Flat(blocks, w, i + p)
  {
    hide Flat, Bit, Shr, Shl, Or, Pow2;
    var b: int, c: nat := BlockOf(|blocks|, w, i);
    FlatAt(BitsDown(blocks, w, p), w, b, c);
    if b < |blocks| - 1 {
      WordDown(blocks[b], blocks[b + 1], p, w, c);
    } else {
      BitShr(blocks[b], p, c);
    }
    if c + p < w {
      FlatAt(blocks, w, b, c + p);
    } else {
      Before(w, b, c, p);
      FlatAt(blocks, w, b + 1, c + p - w);
      if b == |blocks| - 1 {
        BitsAbove(blocks[b], w, p + c);
      }
    }
  }

  lemma UpFits(blocks: seq<nat>, w: nat, p: nat)
    requires 0 < p < w && Fits(blocks, w)
    ensures Fits(BitsUp(blocks, w, p), w)
  {
    forall b | 0 <= b < |blocks| ensures BitsUp(blocks, w, p)[b] < Pow2(w) {
      UpFitsAt(blocks, w, p, b);
    }
  }

  lemma UpFitsAt(blocks: seq<nat>, w: nat, p: nat, b: nat)
    requires 0 < p < w && Fits(blocks, w) && b < |blocks|
    ensures BitsUp(blocks, w, p)[b] < Pow2(w)
  {
    hide Or, Shl, Shr, Pow2;
    BitShl(blocks[b], p, w, 0);
    if b > 0 {
      ShrBound(blocks[b - 1], w - p);
      OrBound(Shl(blocks[b], p, w), Shr(blocks[b - 1], w - p), w);
    }
  }

  lemma DownFits(blocks: seq<nat>, w: nat, p: nat)
    requires 0 < p < w && Fits(blocks, w)
    ensures Fits(BitsDown(blocks, w, p), w)
  {
    forall b | 0 <= b < |blocks| ensures BitsDown(blocks, w, p)[b] < Pow2(w) {
      ShrBound(blocks[b], p);
      if b < |blocks| - 1 {
        BitShl(blocks[b + 1], w - p, w, 0);
        OrBound(Shr(blocks[b], p), Shl(blocks[b + 1], w - p, w), w);
      }
    }
  }

  // Trimming.

  /** The number of blocks, one at least, and the bits of the last one that count. */
  function LastBlock(bits: nat, w: nat): int
    requires w > 0
  {
    if bits == 0 then 0 else (bits - 1) / w
  }

  ghost function Trimmed(blocks: seq<nat>, bits: nat, w: nat): (moved: seq<nat>)
    requires w > 0 && |blocks| > 0
    ensures |moved| == |blocks|
  {
    var last := |blocks| - 1;
    if bits == 0 || bits % w != 0 then blocks[last := And(blocks[last], Pow2(bits % w) - 1)] else blocks
  }

  lemma TrimmedFits(blocks: seq<nat>, bits: nat, w: nat)
    requires w > 0 && |blocks| > 0 && Fits(blocks, w)
    ensures Fits(Trimmed(blocks, bits, w), w)
  {
    AndBound(blocks[|blocks| - 1], Pow2(bits % w) - 1);
  }

  /** Trimming clears the padding, and only that. */
  lemma TrimmedFlat(blocks: seq<nat>, bits: nat, w: nat, i: nat)
    requires w > 0 && |blocks| == LastBlock(bits, w) + 1 && i < |blocks| * w
    ensures Flat(Trimmed(blocks, bits, w), w, i) == (i < bits && Flat(blocks, w, i))
  {
    var last := LastBlock(bits, w);
    var b, c := BlockOf(last + 1, w, i);
    FlatAt(Trimmed(blocks, bits, w), w, b, c);
    FlatAt(blocks, w, b, c);
    BitAnd(blocks[last], Pow2(bits % w) - 1, c);
    BitMask(bits % w, c);
    PaddingOf(bits, w, b, c);
  }

  /** Which bits of which block are padding. */
  lemma PaddingOf(bits: nat, w: nat, b: nat, c: nat)
    requires w > 0 && c < w && b <= LastBlock(bits, w)
    ensures LastBlock(bits, w) >= 0
    ensures w * b + c < bits <==> b < LastBlock(bits, w) || (bits > 0 && bits % w == 0) || c < bits % w
  {
    if bits > 0 {
      var q, r := Divided(w, bits - 1);
      var d := b - q;
      assert w * b == w * q + w * d;
      Multiple(w, d);
      if r + 1 < w {
        Quotient(w, q, r + 1, bits);
      } else {
        Quotient(w, q + 1, 0, bits);
      }
    } else {
      Quotient(w, 0, 0, 0);
    }
  }

  lemma InRange(w: nat, b: nat, c: nat, n: nat)
    requires c < w && b < n
    ensures 0 <= w * b + c < n * w
  {
    var d := n - b;
    assert n * w == w * b + w * d;
    Multiple(w, d - 1);
    Multiple(w, b);
    assert w * d == w + w * (d - 1);
  }

  lemma BlockInRange(bits: nat, w: nat, b: nat)
    requires w > 0 && w * b < bits
    ensures b <= LastBlock(bits, w)
  {
    var q, r := Divided(w, bits - 1);
    if b > q {
      TimesMore(w, q, b);
    }
  }

  lemma TimesMore(w: nat, q: int, b: int)
    requires w > 0 && b > q
    ensures w * b >= w * q + w
  {
    Multiple(w, b - q);
    assert w * b == w * q + w * (b - q);
  }

  /** Replacing one bit of one word. */
  lemma OneBit(blocks: seq<nat>, w: nat, b: nat, c: nat, x: nat, v: bool, i: nat)
    requires w > 0 && b < |blocks| && c < w && i < |blocks| * w
    requires Bit(x, i % w) == if i % w == c then v else Bit(blocks[b], i % w)
    ensures Flat(blocks[b := x], w, i) == if i == w * b + c then v else Flat(blocks, w, i)
  {
    var a, d := BlockOf(|blocks|, w, i);
    FlatAt(blocks[b := x], w, a, d);
    FlatAt(blocks, w, a, d);
    if a != b {
      Quotient(w, b, c, w * b + c);
    }
  }

  // Blocks that say the same are the same.

  lemma SameBlocks(x: seq<nat>, y: seq<nat>, w: nat)
    requires w > 0 && |x| == |y| && Fits(x, w) && Fits(y, w)
    requires forall i :: 0 <= i < |x| * w ==> Flat(x, w, i) == Flat(y, w, i)
    ensures x == y
  {
    forall b | 0 <= b < |x| ensures x[b] == y[b] {
      forall c: nat | c < w ensures Bit(x[b], c) == Bit(y[b], c) {
        FlatAt(x, w, b, c);
        FlatAt(y, w, b, c);
        var i := w * b + c;
        assert 0 <= i < |x| * w by { InRange(w, b, c, |x|); }
      }
      SameBits(x[b], y[b], w);
    }
  }
}
