/** `bitset`: a fixed number of bits in an array of words, as a plain sequence of booleans. */
module Bitset {
  import opened Division
  import opened Words
  import opened BitBlocks

  // What the operations mean on a sequence of bits, bit 0 first.

  function ShiftedLeft(s: seq<bool>, pos: nat): seq<bool> {
    seq(|s|, i requires 0 <= i < |s| => i >= pos && s[i - pos])
  }

  function ShiftedRight(s: seq<bool>, pos: nat): seq<bool> {
    seq(|s|, i requires 0 <= i < |s| => i + pos < |s| && s[i + pos])
  }

  function Flipped(s: seq<bool>): seq<bool> {
    seq(|s|, i requires 0 <= i < |s| => !s[i])
  }

  /** The highest bit is written first. */
  function ToChars(s: seq<bool>, placeholder0: char, placeholder1: char): string {
    seq(|s|, k requires 0 <= k < |s| => if s[|s| - 1 - k] then placeholder1 else placeholder0)
  }

  /** Only the first `bits` characters are used; what they do not reach is zero. */
  function FromChars(chars: string, bits: nat, placeholder1: char): seq<bool> {
    var count := if |chars| > bits then bits else |chars|;
    seq(bits, i requires 0 <= i < bits => i < count && chars[count - 1 - i] == placeholder1)
  }

  predicate Readable(chars: string, placeholder0: char, placeholder1: char) {
    forall i :: 0 <= i < |chars| ==> chars[i] == placeholder0 || chars[i] == placeholder1
  }

  /** A bitset read back from what it is written as is the same bitset. */
  lemma ReadAfterWrite(s: seq<bool>, placeholder0: char, placeholder1: char)
    requires placeholder0 != placeholder1
    ensures Readable(ToChars(s, placeholder0, placeholder1), placeholder0, placeholder1)
    ensures FromChars(ToChars(s, placeholder0, placeholder1), |s|, placeholder1) == s
  {
  }

  /** A string written back after it was read is the part that was used, filled up with zeros in front. */
  lemma WriteAfterRead(chars: string, bits: nat, placeholder0: char, placeholder1: char)
    requires Readable(chars, placeholder0, placeholder1)
    ensures var count := if |chars| > bits then bits else |chars|;
      ToChars(FromChars(chars, bits, placeholder1), placeholder0, placeholder1)
        == seq(bits - count, _ => placeholder0) + chars[..count]
  {
    var count := if |chars| > bits then bits else |chars|;
    var t := ToChars(FromChars(chars, bits, placeholder1), placeholder0, placeholder1);
    var u := seq(bits - count, _ => placeholder0) + chars[..count];
    forall k | 0 <= k < bits ensures t[k] == u[k] {
      var i := bits - 1 - k;
      if i < count {
        assert count - 1 - i == k - (bits - count);
      }
    }
  }

  /** Shifting up and down again clears the bits that fell off, and only those. */
  lemma LeftThenRight(s: seq<bool>, pos: nat, i: nat)
    requires i < |s|
    ensures ShiftedRight(ShiftedLeft(s, pos), pos)[i] == (i + pos < |s| && s[i])
  {
  }

  // The words.

  /** The padding of the last word is zero. */
  ghost predicate Padded(blocks: seq<nat>, bits: nat, w: nat) {
    forall i :: bits <= i < |blocks| * w ==> !Flat(blocks, w, i)
  }

  ghost function BitsOf(blocks: seq<nat>, bits: nat, w: nat): (s: seq<bool>)
    ensures |s| == bits
    ensures forall i :: 0 <= i < bits ==> s[i] == Flat(blocks, w, i)
  {
    seq(bits, i requires 0 <= i < bits => Flat(blocks, w, i))
  }

  /** With the padding zero, the words are determined by the bits. */
  lemma WordsFromBits(x: seq<nat>, y: seq<nat>, bits: nat, w: nat)
    requires w > 0 && |x| == |y| && Fits(x, w) && Fits(y, w) && Padded(x, bits, w) && Padded(y, bits, w)
    requires BitsOf(x, bits, w) == BitsOf(y, bits, w)
    ensures x == y
  {
    forall i | 0 <= i < |x| * w ensures Flat(x, w, i) == Flat(y, w, i) {
      if i < bits {
        assert BitsOf(x, bits, w)[i] == BitsOf(y, bits, w)[i];
      }
    }
    SameBlocks(x, y, w);
  }

  ghost function UpBy(blocks: seq<nat>, bits: nat, w: nat, pos: nat): (t: seq<nat>)
    requires w > 0 && |blocks| > 0
    ensures |t| == |blocks|
  {
    var moved := BlocksUp(blocks, pos / w);
    Trimmed(if pos % w != 0 then BitsUp(moved, w, pos % w) else moved, bits, w)
  }

  ghost function DownBy(blocks: seq<nat>, w: nat, pos: nat): (t: seq<nat>)
    requires w > 0
    ensures |t| == |blocks|
  {
    var moved := BlocksDown(blocks, pos / w);
    if pos % w != 0 then BitsDown(moved, w, pos % w) else moved
  }

  lemma BlocksUpNone(blocks: seq<nat>)
    ensures BlocksUp(blocks, 0) == blocks
  {
  }

  lemma BlocksDownNone(blocks: seq<nat>)
    ensures BlocksDown(blocks, 0) == blocks
  {
  }

  lemma BlocksFit(blocks: seq<nat>, w: nat, s: nat)
    requires Fits(blocks, w)
    ensures Fits(BlocksUp(blocks, s), w) && Fits(BlocksDown(blocks, s), w)
  {
  }

  lemma BlocksUpRange(blocks: seq<nat>, w: nat, s: nat, i: int)
    requires w > 0 && i < |blocks| * w
    ensures Flat(BlocksUp(blocks, s), w, i) == Flat(blocks, w, i - w * s)
  {
    if i >= 0 {
      BlocksUpFlat(blocks, w, s, i);
    } else {
      Multiple(w, s);
    }
  }

  lemma UpByFlat(blocks: seq<nat>, bits: nat, w: nat, pos: nat, i: nat)
    requires w > 0 && |blocks| == LastBlock(bits, w) + 1 > 0 && Fits(blocks, w) && i < |blocks| * w
    ensures Flat(UpBy(blocks, bits, w, pos), w, i) == (i < bits && Flat(blocks, w, i - pos))
  {
    hide Flat, BlocksUp, BitsUp, Trimmed, Fits;
    var s, p := Divided(w, pos);
    var moved := BlocksUp(blocks, s);
    BlocksFit(blocks, w, s);
    TrimmedFlat(if p != 0 then BitsUp(moved, w, p) else moved, bits, w, i);
    if p != 0 {
      BitsUpFlat(moved, w, p, i);
    }
    BlocksUpRange(blocks, w, s, i - p);
  }

  lemma DownByFlat(blocks: seq<nat>, w: nat, pos: nat, i: nat)
    requires w > 0 && |blocks| > 0 && Fits(blocks, w) && i < |blocks| * w
    ensures Flat(DownBy(blocks, w, pos), w, i) == Flat(blocks, w, i + pos)
  {
    var s, p := Divided(w, pos);
    var moved := BlocksDown(blocks, s);
    BlocksFit(blocks, w, s);
    if p != 0 {
      BitsDownFlat(moved, w, p, i);
    }
    if i + p < |blocks| * w {
      BlocksDownFlat(blocks, w, s, i + p);
    } else {
      Multiple(w, s);
    }
  }

  lemma UpByFits(blocks: seq<nat>, bits: nat, w: nat, pos: nat)
    requires w > 0 && |blocks| > 0 && Fits(blocks, w)
    ensures Fits(UpBy(blocks, bits, w, pos), w)
  {
    var moved := BlocksUp(blocks, pos / w);
    BlocksFit(blocks, w, pos / w);
    if pos % w != 0 {
      UpFits(moved, w, pos % w);
      TrimmedFits(BitsUp(moved, w, pos % w), bits, w);
    } else {
      TrimmedFits(moved, bits, w);
    }
    hide Fits, BlocksUp, BitsUp, Trimmed;
  }

  lemma UpByShifts(blocks: seq<nat>, bits: nat, w: nat, pos: nat)
    requires w > 0 && |blocks| == LastBlock(bits, w) + 1 > 0 && Fits(blocks, w)
    ensures Fits(UpBy(blocks, bits, w, pos), w) && Padded(UpBy(blocks, bits, w, pos), bits, w)
    ensures BitsOf(UpBy(blocks, bits, w, pos), bits, w) == ShiftedLeft(BitsOf(blocks, bits, w), pos)
  {
    hide Flat, UpBy, Fits;
    UpByFits(blocks, bits, w, pos);
    EnoughBlocks(bits, w);
    hide LastBlock;
    var t := UpBy(blocks, bits, w, pos);
    forall i | 0 <= i < |t| * w ensures Flat(t, w, i) == (i < bits && Flat(blocks, w, i - pos)) {
      UpByFlat(blocks, bits, w, pos, i);
    }
    NegativeFlat(blocks, w);
  }

  lemma NegativeFlat(blocks: seq<nat>, w: nat)
    ensures forall i :: i < 0 ==> !Flat(blocks, w, i)
  {
  }

  lemma EnoughBlocks(bits: nat, w: nat)
    requires w > 0
    ensures LastBlock(bits, w) >= 0 && bits <= (LastBlock(bits, w) + 1) * w
  {
    if bits > 0 {
      var q, r := Divided(w, bits - 1);
      assert (q + 1) * w == w * q + w;
    }
  }

  lemma DownByFits(blocks: seq<nat>, w: nat, pos: nat)
    requires w > 0 && Fits(blocks, w)
    ensures Fits(DownBy(blocks, w, pos), w)
  {
    BlocksFit(blocks, w, pos / w);
    if pos % w != 0 {
      DownFits(BlocksDown(blocks, pos / w), w, pos % w);
    }
  }

  lemma DownByShifts(blocks: seq<nat>, bits: nat, w: nat, pos: nat)
    requires w > 0 && |blocks| == LastBlock(bits, w) + 1 > 0 && Fits(blocks, w) && Padded(blocks, bits, w)
    ensures Fits(DownBy(blocks, w, pos), w) && Padded(DownBy(blocks, w, pos), bits, w)
    ensures BitsOf(DownBy(blocks, w, pos), bits, w) == ShiftedRight(BitsOf(blocks, bits, w), pos)
  {
    hide Flat, DownBy, Fits;
    DownByFits(blocks, w, pos);
    EnoughBlocks(bits, w);
    var t := DownBy(blocks, w, pos);
    forall i | 0 <= i < |t| * w ensures Flat(t, w, i) == (i + pos < bits && Flat(blocks, w, i + pos)) {
      DownByFlat(blocks, w, pos, i);
      PaddedAt(blocks, bits, w, i + pos);
    }
  }

  lemma PaddedAt(blocks: seq<nat>, bits: nat, w: nat, i: nat)
    requires Padded(blocks, bits, w)
    ensures i >= bits ==> !Flat(blocks, w, i)
  {
  }

  lemma AllZero(blocks: seq<nat>, w: nat, i: nat)
    requires w > 0 && forall b :: 0 <= b < |blocks| ==> blocks[b] == 0
    ensures !Flat(blocks, w, i)
  {
    BitZero(i % w);
  }

  lemma FlippedWords(blocks: seq<nat>, flipped: seq<nat>, bits: nat, w: nat)
    requires w > 0 && |blocks| == |flipped| == LastBlock(bits, w) + 1 > 0 && Fits(blocks, w)
    requires forall b :: 0 <= b < |blocks| ==> flipped[b] == Not(blocks[b], w)
    ensures var t := Trimmed(flipped, bits, w);
      Fits(t, w) && Padded(t, bits, w) && BitsOf(t, bits, w) == Flipped(BitsOf(blocks, bits, w))
  {
    var t := Trimmed(flipped, bits, w);
    TrimmedFits(flipped, bits, w);
    forall i: int | 0 <= i < |t| * w ensures Flat(t, w, i) == (i < bits && !Flat(blocks, w, i)) {
      TrimmedFlat(flipped, bits, w, i);
      FlippedAt(blocks, flipped, w, i);
    }
    EnoughBlocks(bits, w);
    hide Flat, Trimmed;
  }

  lemma FlippedAt(blocks: seq<nat>, flipped: seq<nat>, w: nat, i: nat)
    requires w > 0 && |blocks| == |flipped| && i < |blocks| * w && Fits(blocks, w)
    requires forall b :: 0 <= b < |blocks| ==> flipped[b] == Not(blocks[b], w)
    ensures Flat(flipped, w, i) == !Flat(blocks, w, i)
  {
    var b, c := BlockOf(|blocks|, w, i);
    FlatAt(flipped, w, b, c);
    FlatAt(blocks, w, b, c);
    BitNot(blocks[b], w, c);
  }

  function WithBit(x: nat, c: nat, w: nat, val: bool): nat
    requires c < w
  {
    BitShl(1, c, w, 0);
    if val then Or(x, Shl(1, c, w)) else And(x, Not(Shl(1, c, w), w))
  }

  lemma WithBitAt(x: nat, c: nat, w: nat, val: bool, i: nat)
    requires x < Pow2(w) && c < w && i < w
    ensures Bit(WithBit(x, c, w, val), i) == if i == c then val else Bit(x, i)
    ensures WithBit(x, c, w, val) < Pow2(w)
  {
    BitShl(1, c, w, 0);
    BitOne(c, w, i);
    BitOr(x, Shl(1, c, w), i);
    OrBound(x, Shl(1, c, w), w);
    BitNot(Shl(1, c, w), w, i);
    BitAnd(x, Not(Shl(1, c, w), w), i);
    AndBound(x, Not(Shl(1, c, w), w));
  }

  lemma BitSetIn(blocks: seq<nat>, bits: nat, w: nat, pos: nat, b: nat, c: nat, val: bool)
    requires w > 0 && Fits(blocks, w) && Padded(blocks, bits, w) && bits <= |blocks| * w
    requires pos < bits && pos == w * b + c && b < |blocks| && c < w
    ensures var t := blocks[b := WithBit(blocks[b], c, w, val)];
      && Fits(t, w)
      && Padded(t, bits, w)
      && BitsOf(t, bits, w) == BitsOf(blocks, bits, w)[pos := val]
  {
    var x := WithBit(blocks[b], c, w, val);
    WithBitAt(blocks[b], c, w, val, 0);
    var t := blocks[b := x];
    forall i | 0 <= i < |t| * w ensures Flat(t, w, i) == if i == pos then val else Flat(blocks, w, i) {
      var a, d := BlockOf(|t|, w, i);
      WithBitAt(blocks[b], c, w, val, d);
      OneBit(blocks, w, b, c, x, val, i);
    }
    hide Flat, WithBit;
  }

  // Reading a string.

  /** The blocks hold the last k of the first `count` characters, and zeros after them. */
  ghost predicate Reads(blocks: seq<nat>, w: nat, chars: string, count: nat, k: nat, placeholder1: char)
    requires k <= count <= |chars|
  {
    && Fits(blocks, w)
    && forall i :: 0 <= i < |blocks| * w ==> Flat(blocks, w, i) == (i < k && chars[count - 1 - i] == placeholder1)
  }

  lemma NextWord(w: int, b: int)
    ensures w * (b + 1) == w * b + w && w * b == b * w
  {
  }

  lemma ReadsNothing(w: nat, chars: string, count: nat, placeholder1: char)
    requires w > 0 && count <= |chars|
    ensures Reads([0], w, chars, count, 0, placeholder1) && Reads([], w, chars, count, 0, placeholder1)
  {
    forall i: nat ensures !Flat([0], w, i) {
      AllZero([0], w, i);
    }
  }

  lemma ReadsMore(blocks: seq<nat>, w: nat, chars: string, count: nat, k: nat, placeholder1: char)
    requires w > 0 && k <= count <= |chars| && k <= w * |blocks| && Reads(blocks, w, chars, count, k, placeholder1)
    ensures Reads(blocks + [0], w, chars, count, k, placeholder1)
  {
    var t := blocks + [0];
    forall i | 0 <= i < |t| * w ensures Flat(t, w, i) == (i < k && chars[count - 1 - i] == placeholder1) {
      var b, c := BlockOf(|blocks|, w, i);
      FlatAt(t, w, b, c);
      FlatAt(blocks, w, b, c);
      BitZero(c);
      hide Flat;
    }
  }

  lemma ReadsLess(blocks: seq<nat>, x: nat, w: nat, chars: string, count: nat, placeholder1: char)
    requires w > 0 && count <= |chars| && count == w * |blocks| &&
             Reads(blocks + [x], w, chars, count, count, placeholder1)
    ensures Reads(blocks, w, chars, count, count, placeholder1)
  {
    forall b | 0 <= b < |blocks| ensures blocks[b] < Pow2(w) {
      assert blocks[b] == (blocks + [x])[b];
    }
    NextWord(w, |blocks|);
    forall i | 0 <= i < |blocks| * w ensures Flat(blocks, w, i) == (chars[count - 1 - i] == placeholder1) {
      var b, c := BlockOf(|blocks|, w, i);
      FlatAt(blocks + [x], w, b, c);
      FlatAt(blocks, w, b, c);
      hide Flat;
      assert i < |blocks + [x]| * w;
    }
  }

  lemma NewBitAt(x: nat, c: nat, w: nat, v: bool, d: nat)
    requires x < Pow2(w) && c < w && d < w
    ensures var y := Or(x, Shl(if v then 1 else 0, c, w));
      y < Pow2(w) && Bit(y, d) == (Bit(x, d) || (v && d == c))
  {
    var bit := Shl(if v then 1 else 0, c, w);
    BitShl(if v then 1 else 0, c, w, d);
    if v {
      BitOne(c, w, d);
    } else if d >= c {
      BitZero(d - c);
    }
    BitOr(x, bit, d);
    OrBound(x, bit, w);
  }

  /** The bit about to be written is still clear. */
  lemma NextIsClear(blocks: seq<nat>, x: nat, w: nat, chars: string, count: nat, b: nat, c: nat, placeholder1: char)
    requires w > 0 && b == |blocks| && c < w && w * b + c < count <= |chars|
    requires Reads(blocks + [x], w, chars, count, w * b + c, placeholder1)
    ensures x < Pow2(w) && !Bit(x, c)
  {
    var s := blocks + [x];
    assert s[b] == x;
    FlatAt(s, w, b, c);
    InRange(w, b, c, |s|);
  }

  lemma ReadsStep(blocks: seq<nat>, x: nat, w: nat, chars: string, count: nat, b: nat, c: nat, placeholder1: char)
    requires w > 0 && b == |blocks| && c < w && w * b + c < count <= |chars|
    requires Reads(blocks + [x], w, chars, count, w * b + c, placeholder1)
    ensures var eq := if placeholder1 == chars[count - 1 - (w * b + c)] then 1 else 0;
      Reads(blocks + [Or(x, Shl(eq, c, w))], w, chars, count, w * b + c + 1, placeholder1)
  {
    var k := w * b + c;
    var v := placeholder1 == chars[count - 1 - k];
    var s, y := blocks + [x], Or(x, Shl(if v then 1 else 0, c, w));
    var t := blocks + [y];
    assert t == s[b := y];
    NextIsClear(blocks, x, w, chars, count, b, c, placeholder1);
    NewBitAt(x, c, w, v, c);
    assert Fits(t, w);
    forall i | 0 <= i < |t| * w ensures Flat(t, w, i) == (i < k + 1 && chars[count - 1 - i] == placeholder1) {
      NewBitAt(x, c, w, v, i % w);
      OneBit(s, w, b, c, y, v, i);
      hide Flat;
    }
  }

  /** Reading has come down to character `last`: whole words are in `done`, c bits are in x. */
  ghost predicate ReadTo(done: seq<nat>, x: nat, c: nat, w: nat, chars: string, count: nat, last: nat,
                         placeholder1: char) {
    && c < w && last <= count <= |chars|
    && count - last == w * |done| + c
    && Reads(done + [x], w, chars, count, count - last, placeholder1)
  }

  lemma ReadToStart(w: nat, chars: string, count: nat, placeholder1: char)
    requires w > 0 && count <= |chars|
    ensures ReadTo([], 0, 0, w, chars, count, count, placeholder1)
  {
    ReadsNothing(w, chars, count, placeholder1);
    assert [] + [0] == [0];
  }

  lemma ReadToNext(done: seq<nat>, x: nat, c: nat, w: nat, chars: string, count: nat, last: nat, placeholder1: char)
    requires ReadTo(done, x, c, w, chars, count, last, placeholder1) && last > 0
    ensures var y := Or(x, Shl(if placeholder1 == chars[last - 1] then 1 else 0, c, w));
      && (c + 1 < w ==> ReadTo(done, y, c + 1, w, chars, count, last - 1, placeholder1))
      && (c + 1 == w ==> ReadTo(done + [y], 0, 0, w, chars, count, last - 1, placeholder1))
  {
    hide Reads, Or, Shl;
    ReadsStep(done, x, w, chars, count, |done|, c, placeholder1);
    var y := Or(x, Shl(if placeholder1 == chars[last - 1] then 1 else 0, c, w));
    NextWord(w, |done|);
    if c + 1 == w {
      ReadsMore(done + [y], w, chars, count, count - last + 1, placeholder1);
    }
  }

  /** There is room for the word being read. */
  lemma ReadToRoom(done: seq<nat>, x: nat, c: nat, w: nat, chars: string, count: nat, last: nat, placeholder1: char,
                   bits: nat)
    requires ReadTo(done, x, c, w, chars, count, last, placeholder1) && count <= bits && (last > 0 || c > 0)
    ensures |done| <= LastBlock(bits, w)
  {
    BlockInRange(bits, w, |done|);
  }

  lemma ReadToEnd(done: seq<nat>, x: nat, c: nat, w: nat, chars: string, count: nat, placeholder1: char)
    requires ReadTo(done, x, c, w, chars, count, 0, placeholder1)
    ensures c != 0 ==> count <= w * |done + [x]| && Reads(done + [x], w, chars, count, count, placeholder1)
    ensures c == 0 ==> count <= w * |done| && Reads(done, w, chars, count, count, placeholder1)
  {
    NextWord(w, |done|);
    if c == 0 {
      ReadsLess(done, x, w, chars, count, placeholder1);
    }
  }

  // Testing that all bits are set.

  predicate AllSet(s: seq<bool>) {
    forall i :: 0 <= i < |s| ==> s[i]
  }

  ghost predicate CountedBit(blocks: seq<nat>, bits: nat, w: nat, b: int, c: int) {
    w * b + c < bits ==> Flat(blocks, w, w * b + c)
  }

  /** The bits of word b that count are all set. */
  ghost predicate WordFull(blocks: seq<nat>, bits: nat, w: nat, b: int) {
    forall c: nat :: c < w ==> CountedBit(blocks, bits, w, b, c)
  }

  lemma ShlOne(k: nat, w: nat)
    requires k < w
    ensures Shl(1, k, w) == Pow2(k)
  {
    Pow2Grows(k, w);
    Quotient(Pow2(w), 0, Pow2(k), Pow2(k));
  }

  function FullWord(bits: nat, w: nat, last: bool): int
    requires w > 0
  {
    if last && bits % w != 0 then Shl(1, bits % w, w) - 1 else Pow2(w) - 1
  }

  lemma FullWordIs(bits: nat, w: nat, b: int, n: int)
    requires w > 0
    ensures b < n - 1 || bits % w == 0 ==> FullWord(bits, w, b == n - 1) == Pow2(w) - 1
    ensures b == n - 1 && bits % w != 0 ==> FullWord(bits, w, b == n - 1) == Shl(1, bits % w, w) - 1
  {
  }

  lemma CountedBitAt(blocks: seq<nat>, bits: nat, w: nat, b: nat, k: nat, c: nat)
    requires w > 0 && |blocks| == LastBlock(bits, w) + 1 && Padded(blocks, bits, w) && bits > 0 && b < |blocks| && c < w
    requires k == if b == |blocks| - 1 && bits % w != 0 then bits % w else w
    ensures CountedBit(blocks, bits, w, b, c) <==> (c < k ==> Bit(blocks[b], c))
    ensures c >= k ==> !Bit(blocks[b], c)
  {
    FlatAt(blocks, w, b, c);
    PaddingOf(bits, w, b, c);
    InRange(w, b, c, |blocks|);
  }

  /** Comparing a word with all ones, or the last one with the mask, tests the bits that count. */
  lemma WordFullTest(blocks: seq<nat>, bits: nat, w: nat, b: nat)
    requires w > 0 && |blocks| == LastBlock(bits, w) + 1 && Fits(blocks, w) && Padded(blocks, bits, w)
    requires bits > 0 && b < |blocks|
    ensures blocks[b] == FullWord(bits, w, b == |blocks| - 1) <==> WordFull(blocks, bits, w, b)
  {
    var k := if b == |blocks| - 1 && bits % w != 0 then bits % w else w;
    if k < w {
      ShlOne(k, w);
    }
    assert FullWord(bits, w, b == |blocks| - 1) == Pow2(k) - 1;
    hide Flat, Bit, Padded, Shl, Pow2, CountedBit, LastBlock;
    forall c: nat | c < w
      ensures CountedBit(blocks, bits, w, b, c) <==> (c < k ==> Bit(blocks[b], c))
      ensures c >= k ==> !Bit(blocks[b], c)
    {
      CountedBitAt(blocks, bits, w, b, k, c);
    }
    MaskTest(blocks[b], k, w);
  }

  lemma SomeWordNotFull(blocks: seq<nat>, bits: nat, w: nat, b: nat)
    requires !WordFull(blocks, bits, w, b)
    ensures !AllSet(BitsOf(blocks, bits, w))
  {
    var c: nat :| c < w && !CountedBit(blocks, bits, w, b, c);
    var i := w * b + c;
    assert !Flat(blocks, w, i) && i < bits;
    Multiple(w, b);
    hide Flat;
    assert !BitsOf(blocks, bits, w)[i];
  }

  lemma WordsFull(blocks: seq<nat>, bits: nat, w: nat)
    requires w > 0 && bits <= |blocks| * w && forall b :: 0 <= b < |blocks| ==> WordFull(blocks, bits, w, b)
    ensures AllSet(BitsOf(blocks, bits, w))
  {
    hide Flat;
    forall i | 0 <= i < bits ensures BitsOf(blocks, bits, w)[i] {
      var b, c := BlockOf(|blocks|, w, i);
      assert WordFull(blocks, bits, w, b);
      assert CountedBit(blocks, bits, w, b, c);
    }
  }

  lemma ReadsAll(blocks: seq<nat>, w: nat, chars: string, bits: nat, count: nat, placeholder1: char)
    requires w > 0 && bits <= |blocks| * w && count == (if |chars| > bits then bits else |chars|)
    requires Reads(blocks, w, chars, count, count, placeholder1)
    ensures Fits(blocks, w) && Padded(blocks, bits, w) &&
            BitsOf(blocks, bits, w) == FromChars(chars, bits, placeholder1)
  {
  }

  class Bitset {
    const bits: nat
    const width: nat
    const blocks: array<nat>

    ghost predicate Valid()
      reads this, blocks
    {
      && width > 0
      && blocks.Length == LastBlock(bits, width) + 1
      && Fits(blocks[..], width)
      && Padded(blocks[..], bits, width)
    }

    /** The bits, lowest first. */
    ghost function View(): (s: seq<bool>)
      reads this, blocks
      ensures |s| == bits
    {
      BitsOf(blocks[..], bits, width)
    }

    constructor (bits: nat, width: nat)
      requires width > 0
      ensures Valid() && fresh(blocks) && this.bits == bits && this.width == width
      ensures View() == seq(bits, _ => false)
    {
      this.bits, this.width := bits, width;
      EnoughBlocks(bits, width);
      blocks := new nat[LastBlock(bits, width) + 1](_ => 0);
      new;
      forall i: nat ensures !Flat(blocks[..], width, i) {
        AllZero(blocks[..], width, i);
      }
    }

    method Trim()
      requires width > 0 && blocks.Length > 0
      modifies blocks
      ensures blocks[..] == Trimmed(old(blocks[..]), bits, width)
    {
      if bits == 0 || bits % width != 0 {
        blocks[blocks.Length - 1] := And(blocks[blocks.Length - 1], Pow2(bits % width) - 1);
      }
    }

    /** `<<=`: whole blocks first, then the rest, in place from the top. */
    method ShiftLeft(pos: nat)
      requires Valid()
      modifies blocks
      ensures Valid() && View() == ShiftedLeft(old(View()), pos)
    {
      UpByShifts(blocks[..], bits, width, pos);
      hide Padded, BitsOf, Fits, ShiftedLeft, LastBlock, UpBy;
      MoveUp(pos);
    }

    method MoveUp(pos: nat)
      requires width > 0 && blocks.Length > 0
      modifies blocks
      ensures blocks[..] == UpBy(old(blocks[..]), bits, width, pos)
    {
      hide Trimmed, BlocksUp, BitsUp;
      var blockShift := pos / width;
      if blockShift != 0 {
        MoveBlocksUp(blockShift);
      } else {
        BlocksUpNone(blocks[..]);
      }
      var rest := pos % width;
      if rest != 0 {
        MoveBitsUp(rest);
      }
      Trim();
    }

    method MoveBlocksUp(blockShift: nat)
      modifies blocks
      ensures blocks[..] == BlocksUp(old(blocks[..]), blockShift)
    {
      ghost var moved := BlocksUp(blocks[..], blockShift);
      var block := blocks.Length - 1;
      while 0 <= block
        invariant -1 <= block < blocks.Length
        invariant forall b :: 0 <= b <= block ==> blocks[b] == old(blocks[b])
        invariant forall b :: block < b < blocks.Length ==> blocks[b] == moved[b]
      {
        blocks[block] := if blockShift <= block then blocks[block - blockShift] else 0;
        block := block - 1;
      }
    }

    method MoveBitsUp(rest: nat)
      requires 0 < rest < width && blocks.Length > 0
      modifies blocks
      ensures blocks[..] == BitsUp(old(blocks[..]), width, rest)
    {
      hide Or, Shl, Shr, BitsUp;
      ghost var was, moved := blocks[..], BitsUp(blocks[..], width, rest);
      var block := blocks.Length - 1;
      while 0 < block
        invariant 0 <= block < blocks.Length
        invariant forall b :: 0 <= b <= block ==> blocks[b] == was[b]
        invariant forall b :: block < b < blocks.Length ==> blocks[b] == moved[b]
      {
        BitsUpAt(was, width, rest, block);
        blocks[block] := Or(Shl(blocks[block], rest, width), Shr(blocks[block - 1], width - rest));
        block := block - 1;
      }
      BitsUpAt(was, width, rest, 0);
      blocks[0] := Shl(blocks[0], rest, width);
    }

    /** `>>=`: the same from the bottom; no trimming, zeros come down from the padding. */
    method ShiftRight(pos: nat)
      requires Valid()
      modifies blocks
      ensures Valid() && View() == ShiftedRight(old(View()), pos)
    {
      DownByShifts(blocks[..], bits, width, pos);
      hide Padded, BitsOf, Fits, ShiftedRight, LastBlock, DownBy;
      MoveDown(pos);
    }

    method MoveDown(pos: nat)
      requires width > 0 && blocks.Length > 0
      modifies blocks
      ensures blocks[..] == DownBy(old(blocks[..]), width, pos)
    {
      hide BlocksDown, BitsDown;
      var blockShift := pos / width;
      if blockShift != 0 {
        MoveBlocksDown(blockShift);
      } else {
        BlocksDownNone(blocks[..]);
      }
      var rest := pos % width;
      if rest != 0 {
        MoveBitsDown(rest);
      }
    }

    method MoveBlocksDown(blockShift: nat)
      requires blocks.Length > 0
      modifies blocks
      ensures blocks[..] == BlocksDown(old(blocks[..]), blockShift)
    {
      ghost var moved := BlocksDown(blocks[..], blockShift);
      var last := blocks.Length - 1;
      var block := 0;
      while block <= last
        invariant 0 <= block <= blocks.Length
        invariant forall b :: block <= b < blocks.Length ==> blocks[b] == old(blocks[b])
        invariant forall b :: 0 <= b < block ==> blocks[b] == moved[b]
      {
        blocks[block] := if blockShift <= last - block then blocks[block + blockShift] else 0;
        block := block + 1;
      }
    }

    method MoveBitsDown(rest: nat)
      requires 0 < rest < width && blocks.Length > 0
      modifies blocks
      ensures blocks[..] == BitsDown(old(blocks[..]), width, rest)
    {
      hide Or, Shl, Shr, BitsDown;
      ghost var was, moved := blocks[..], BitsDown(blocks[..], width, rest);
      var last := blocks.Length - 1;
      var block := 0;
      while block < last
        invariant 0 <= block <= last
        invariant forall b :: block <= b < blocks.Length ==> blocks[b] == was[b]
        invariant forall b :: 0 <= b < block ==> blocks[b] == moved[b]
      {
        BitsDownAt(was, width, rest, block);
        blocks[block] := Or(Shr(blocks[block], rest), Shl(blocks[block + 1], width - rest, width));
        block := block + 1;
      }
      BitsDownAt(was, width, rest, last);
      blocks[last] := Shr(blocks[last], rest);
    }

    method Flip()
      requires Valid()
      modifies blocks
      ensures Valid() && View() == Flipped(old(View()))
    {
      var block := 0;
      while block < blocks.Length
        invariant 0 <= block <= blocks.Length
        invariant forall b :: 0 <= b < blocks.Length ==>
          blocks[b] == if b < block then Not(old(blocks[..])[b], width) else old(blocks[..])[b]
      {
        blocks[block] := Not(blocks[block], width);
        block := block + 1;
      }
      FlippedWords(old(blocks[..]), blocks[..], bits, width);
      hide Padded, BitsOf, Fits, Flipped, Trimmed, LastBlock;
      Trim();
    }

    // Single bits.

    method GetBit(pos: nat) returns (bit: bool)
      requires Valid() && pos < bits
      ensures bit == View()[pos]
    {
      EnoughBlocks(bits, width);
      var at, within := BlockOf(blocks.Length, width, pos);
      FlatAt(blocks[..], width, at, within);
      BitTest(blocks[at], within, width);
      bit := And(blocks[pos / width], Shl(1, pos % width, width)) != 0;
    }

    /** `set`: a position beyond the end throws `out_of_range` and changes nothing. */
    method Set(pos: nat, val: bool) returns (ok: bool)
      requires Valid()
      modifies blocks
      ensures Valid() && (ok <==> pos < bits)
      ensures View() == if ok then old(View())[pos := val] else old(View())
    {
      if bits <= pos {
        return false;
      }
      EnoughBlocks(bits, width);
      var at, within := BlockOf(blocks.Length, width, pos);
      BitSetIn(blocks[..], bits, width, pos, at, within, val);
      var b, c := pos / width, pos % width;
      var bit := Shl(1, c, width);
      hide Flat, Padded, Fits, And, Or, Not, Shl;
      if val {
        blocks[b] := Or(blocks[b], bit);
      } else {
        blocks[b] := And(blocks[b], Not(bit, width));
      }
      return true;
    }

    /** All bits set: full words first, then the last one against the mask of the bits that count. */
    method All() returns (all: bool)
      requires Valid()
      ensures all <==> AllSet(View())
    {
      if bits == 0 {
        return true;
      }
      EnoughBlocks(bits, width);
      ghost var words := blocks[..];
      var noPadding := bits % width == 0;
      var full := blocks.Length - 1 + if noPadding then 1 else 0;
      hide Flat, Fits, Padded, WordFull, BitsOf, Pow2, Shl, FullWord, AllSet, LastBlock;
      var block := 0;
      while block < full
        invariant 0 <= block <= full
        invariant forall b :: 0 <= b < block ==> WordFull(words, bits, width, b)
      {
        WordFullTest(words, bits, width, block);
        FullWordIs(bits, width, block, |words|);
        if blocks[block] != Pow2(width) - 1 {
          SomeWordNotFull(words, bits, width, block);
          return false;
        }
        block := block + 1;
      }
      if !noPadding {
        WordFullTest(words, bits, width, full);
        FullWordIs(bits, width, full, |words|);
        if blocks[full] != Shl(1, bits % width, width) - 1 {
          SomeWordNotFull(words, bits, width, full);
          return false;
        }
      }
      WordsFull(words, bits, width);
      return true;
    }

    method ToString(placeholder0: char, placeholder1: char) returns (chars: string)
      requires Valid()
      ensures chars == ToChars(View(), placeholder0, placeholder1)
    {
      chars := "";
      var pos := bits;
      while 0 < pos
        invariant 0 <= pos <= bits
        invariant chars == ToChars(View(), placeholder0, placeholder1)[..bits - pos]
      {
        pos := pos - 1;
        var bit := GetBit(pos);
        chars := chars + [if bit then placeholder1 else placeholder0];
      }
    }

    /**
     * `_construct_from_cstring`, on an array not initialised yet; false stands for the `invalid_argument` it throws.
     */
    method ConstructFromChars(chars: string, placeholder0: char, placeholder1: char) returns (ok: bool)
      requires width > 0 && blocks.Length == LastBlock(bits, width) + 1
      modifies blocks
      ensures ok <==> Readable(chars, placeholder0, placeholder1)
      ensures ok ==> Valid() && View() == FromChars(chars, bits, placeholder1)
    {
      var count := |chars|;
      if count > bits {
        var pos := bits;
        while pos < count
          invariant bits <= pos <= count
          invariant forall k :: bits <= k < pos ==> chars[k] == placeholder0 || chars[k] == placeholder1
        {
          if placeholder1 != chars[pos] && placeholder0 != chars[pos] {
            return false;
          }
          pos := pos + 1;
        }
        count := bits;
      }
      EnoughBlocks(bits, width);
      hide Reads, Fits, Padded, BitsOf, FromChars, LastBlock;
      var read, block := ReadBlocks(chars, count, placeholder0, placeholder1);
      if read {
        ClearFrom(block, chars, count, placeholder1);
        ReadsAll(blocks[..], width, chars, bits, count, placeholder1);
      }
      return read;
    }

    method ClearFrom(from: nat, ghost chars: string, ghost count: nat, ghost placeholder1: char)
      requires width > 0 && from <= blocks.Length && count <= |chars| && count <= width * from
      requires Reads(blocks[..from], width, chars, count, count, placeholder1)
      modifies blocks
      ensures Reads(blocks[..], width, chars, count, count, placeholder1)
    {
      hide Reads;
      var block := from;
      while block < blocks.Length
        invariant 0 <= block <= blocks.Length && count <= width * block
        invariant Reads(blocks[..block], width, chars, count, count, placeholder1)
      {
        ReadsMore(blocks[..block], width, chars, count, count, placeholder1);
        blocks[block] := 0;
        block := block + 1;
        assert blocks[..block] == blocks[..block - 1] + [0];
        NextWord(width, block - 1);
      }
      assert blocks[..block] == blocks[..];
    }

    /** The first `count` characters, last one first, one word at a time. */
    method ReadBlocks(chars: string, count: nat, placeholder0: char, placeholder1: char) returns (ok: bool, block: nat)
      requires width > 0 && blocks.Length == LastBlock(bits, width) + 1 && count <= bits && count <= |chars|
      modifies blocks
      ensures ok <==> Readable(chars[..count], placeholder0, placeholder1)
      ensures ok ==> block <= blocks.Length && count <= width * block
      ensures ok ==> Reads(blocks[..block], width, chars, count, count, placeholder1)
    {
      block := 0;
      ReadToStart(width, chars, count, placeholder1);
      ReadsNothing(width, chars, count, placeholder1);
      if count == 0 {
        return true, 0;
      }
      hide Reads, Or, Shl, LastBlock, ReadTo;
      var bitsInBlock: nat, thisBlock: nat, last := 0, 0, count;
      while last != 0
        invariant 0 <= last <= count && bitsInBlock < width && block <= blocks.Length
        invariant ReadTo(blocks[..block], thisBlock, bitsInBlock, width, chars, count, last, placeholder1)
        invariant forall k :: last <= k < count ==> chars[k] == placeholder0 || chars[k] == placeholder1
      {
        ReadToRoom(blocks[..block], thisBlock, bitsInBlock, width, chars, count, last, placeholder1, bits);
        ReadToNext(blocks[..block], thisBlock, bitsInBlock, width, chars, count, last, placeholder1);
        last := last - 1;
        thisBlock := Or(thisBlock, Shl(if placeholder1 == chars[last] then 1 else 0, bitsInBlock, width));
        if placeholder1 != chars[last] && placeholder0 != chars[last] {
          assert chars[..count][last] == chars[last];
          return false, block;
        }
        bitsInBlock := bitsInBlock + 1;
        if bitsInBlock == width {
          blocks[block] := thisBlock;
          block := block + 1;
          assert blocks[..block] == blocks[..block - 1] + [thisBlock];
          thisBlock := 0;
          bitsInBlock := 0;
        }
      }
      ReadToEnd(blocks[..block], thisBlock, bitsInBlock, width, chars, count, placeholder1);
      if bitsInBlock != 0 {
        ReadToRoom(blocks[..block], thisBlock, bitsInBlock, width, chars, count, last, placeholder1, bits);
        blocks[block] := thisBlock;
        block := block + 1;
        assert blocks[..block] == blocks[..block - 1] + [thisBlock];
      }
      return true, block;
    }
  }
}
