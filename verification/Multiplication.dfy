/** The simulated MIPS multiplication (code/machine/mipssim.cc:771-828): shift and add over pairs of
    32-bit words, for signed and unsigned operands. */
module Multiplication {
  import opened Base

  const Two32 := 0x1_0000_0000

  /** A C int and a C unsigned int. */
  type Int = x: int | -0x8000_0000 <= x < 0x8000_0000
  type Word = x: int | 0 <= x < 0x1_0000_0000

  // ---------- The C operators the loop uses ----------

  function ToWord(x: Int): Word {
    if x < 0 then x + Two32 else x
  }

  function ToInt(w: Word): Int {
    if w >= 0x8000_0000 then w - Two32 else w
  }

  /** -x, which wraps around for the most negative int. */
  function Negate(x: Int): Int {
    if x == -0x8000_0000 then x else -x
  }

  function Add(x: Word, y: Word): Word {
    (x + y) % Two32
  }

  /** A word shifted up by one bit. */
  function ShiftLeft(x: Word): Word {
    (2 * x) % Two32
  }

  /** An int shifted down by one bit: arithmetic, rounding towards minus infinity. */
  function ShiftRight(a: Int): Int {
    a / 2
  }

  /** ~x */
  function Complement(x: Word): Word {
    Two32 - 1 - x
  }

  // ---------- What the words mean ----------

  /** The 64-bit number a pair of words stands for. */
  function Pair(hi: Word, lo: Word): nat {
    hi * Two32 + lo
  }

  /** The low i bits of an int, as a number. */
  function LowBits(a: Int, i: nat): nat
    decreases i
  {
    if i == 0 then 0 else a % 2 + 2 * LowBits(a / 2, i - 1)
  }

  /** a shifted right i times. */
  function Shifted(a: Int, i: nat): Int
    decreases i
  {
    if i == 0 then a else Shifted(a / 2, i - 1)
  }

  lemma Doubled(x: int, p: int)
    ensures 2 * (x * p) == x * (2 * p)
  {
  }

  lemma {:induction false} ShiftedStep(a: Int, i: nat)
    ensures Shifted(a, i + 1) == Shifted(a, i) / 2
    ensures LowBits(a, i + 1) == LowBits(a, i) + (Shifted(a, i) % 2) * Pow2(i)
    decreases i
  {
    if i > 0 {
      ShiftedStep(a / 2, i - 1);
      Doubled(Shifted(a / 2, i - 1) % 2, Pow2(i - 1));
      assert Shifted(a, i) == Shifted(a / 2, i - 1) && Pow2(i) == 2 * Pow2(i - 1);
    }
  }

  /** An int is its low bits plus the rest, shifted back. */
  lemma {:induction false} Split(a: Int, i: nat)
    ensures a == LowBits(a, i) + Shifted(a, i) * Pow2(i)
    decreases i
  {
    if i > 0 {
      Split(a / 2, i - 1);
      assert a == a % 2 + 2 * (a / 2);
      Doubled(Shifted(a / 2, i - 1), Pow2(i - 1));
      assert Shifted(a, i) == Shifted(a / 2, i - 1) && Pow2(i) == 2 * Pow2(i - 1);
    }
  }

  lemma {:induction false} LowBitsBound(a: Int, i: nat)
    ensures LowBits(a, i) < Pow2(i)
    decreases i
  {
    if i > 0 {
      LowBitsBound(a / 2, i - 1);
    }
  }

  lemma PowersOfTwo()
    ensures Pow2(32) == Two32
  {
    assert Pow2(8) == 0x100;
    assert Pow2(16) == 0x1_0000;
    assert Pow2(24) == 0x100_0000;
  }

  lemma {:induction false} Pow2Monotone(i: nat, j: nat)
    requires i <= j
    ensures Pow2(i) <= Pow2(j)
    decreases j
  {
    if i < j {
      Pow2Monotone(i, j - 1);
    }
  }

  lemma {:induction false} ShiftedBound(a: Int, i: nat)
    requires i <= 31
    ensures 0 - Pow2(31 - i) <= Shifted(a, i) < Pow2(31 - i)
  {
    PowersOfTwo();
    assert Pow2(32) == 2 * Pow2(31);
    if i > 0 {
      ShiftedBound(a, i - 1);
      ShiftedStep(a, i - 1);
      assert Pow2(31 - (i - 1)) == 2 * Pow2(31 - i);
    }
  }

  /** All 32 bits of an int, read as a number, are its value as an unsigned int. */
  lemma AllBits(a: Int)
    ensures LowBits(a, 32) == ToWord(a)
  {
    var s := Shifted(a, 32);
    assert s == 0 || s == -1 by {
      ShiftedBound(a, 31);
      ShiftedStep(a, 31);
      assert Pow2(0) == 1;
    }
    assert a == LowBits(a, 32) + s * Two32 && LowBits(a, 32) < Two32 by {
      PowersOfTwo();
      Split(a, 32);
      LowBitsBound(a, 32);
    }
  }

  // ---------- Double-word arithmetic ----------

  /** Adding the low words, finding the carry by comparison, and adding the high words and the carry adds the
      pairs, if the sum fits in 64 bits. */
  lemma AddPairs(hi: Word, lo: Word, bHi: Word, bLo: Word)
    requires Pair(hi, lo) + Pair(bHi, bLo) < Two32 * Two32
    ensures var lo' := Add(lo, bLo); var carry := if lo' < bLo then 1 else 0;
      Pair(Add(Add(hi, carry), bHi), lo') == Pair(hi, lo) + Pair(bHi, bLo)
  {
  }

  /** Shifting both words left, carrying bit 31 of the low word over, doubles the pair. */
  lemma DoublePair(bHi: Word, bLo: Word)
    requires 2 * Pair(bHi, bLo) < Two32 * Two32
    ensures ShiftLeft(bHi) % 2 == 0
    ensures var carry := if bLo >= 0x8000_0000 then 1 else 0;
      ShiftLeft(bHi) + carry < Two32 && Pair(ShiftLeft(bHi) + carry, ShiftLeft(bLo)) == 2 * Pair(bHi, bLo)
  {
  }

  /** Complementing both words and adding one is negation modulo 2^64. */
  lemma NegatePair(hi: Word, lo: Word)
    ensures var lo' := Add(Complement(lo), 1); var hi' := if lo' == 0 then Add(Complement(hi), 1) else Complement(hi);
      Pair(hi', lo') == (0 - Pair(hi, lo)) % (Two32 * Two32)
  {
  }

  // ---------- The loop's partial products ----------

  /** The multiplicand shifted left i times. */
  function ShiftedUp(b: nat, i: nat): nat {
    if i == 0 then b else 2 * ShiftedUp(b, i - 1)
  }

  /** The sum over the bits of a looked at so far. */
  function Partial(a: Int, b: nat, i: nat): nat {
    if i == 0 then 0
    else Partial(a, b, i - 1) + if Shifted(a, i - 1) % 2 == 1 then ShiftedUp(b, i - 1) else 0
  }

  lemma {:induction false} ShiftedUpIs(b: nat, i: nat)
    ensures ShiftedUp(b, i) == b * Pow2(i)
  {
    if i > 0 {
      ShiftedUpIs(b, i - 1);
      Doubled(b, Pow2(i - 1));
    }
  }

  lemma Distribute(x: nat, bit: nat, p: nat, b: nat)
    requires bit == 0 || bit == 1
    ensures (x + bit * p) * b == x * b + if bit == 1 then b * p else 0
  {
  }

  lemma {:induction false} PartialIs(a: Int, b: nat, i: nat)
    ensures Partial(a, b, i) == LowBits(a, i) * b
  {
    if i > 0 {
      PartialIs(a, b, i - 1);
      ShiftedUpIs(b, i - 1);
      ShiftedStep(a, i - 1);
      Distribute(LowBits(a, i - 1), Shifted(a, i - 1) % 2, Pow2(i - 1), b);
    }
  }

  lemma MulMonotone(x: nat, y: nat, b: nat)
    requires x <= y
    ensures x * b <= y * b
  {
  }

  lemma ShiftedUpFits(b: Word, i: nat)
    requires i <= 32
    ensures ShiftedUp(b, i) < Two32 * Two32
  {
    PowersOfTwo();
    Pow2Monotone(i, 32);
    ShiftedUpIs(b, i);
    MulMonotone(Pow2(i), Two32, b);
  }

  lemma SumFits(x: nat, y: nat, b: Word)
    requires x + y <= Two32
    ensures x * b + b * y < Two32 * Two32
  {
    MulMonotone(x + y, Two32, b);
    assert (x + y) * b == x * b + b * y;
  }

  /** Nothing the loop computes exceeds 64 bits. */
  lemma Fits(a: Int, b: Word, i: nat)
    requires i < 32
    ensures Partial(a, b, i) + ShiftedUp(b, i) < Two32 * Two32
    ensures ShiftedUp(b, i + 1) < Two32 * Two32
  {
    ShiftedUpFits(b, i + 1);
    assert LowBits(a, i) + Pow2(i) <= Two32 by {
      PowersOfTwo();
      Pow2Monotone(i + 1, 32);
      LowBitsBound(a, i);
    }
    PartialIs(a, b, i);
    ShiftedUpIs(b, i);
    SumFits(LowBits(a, i), Pow2(i), b);
  }

  /** All 32 bits make the whole product. */
  lemma PartialIsProduct(a: Int, b: Word)
    ensures Partial(a, b, 32) == ToWord(a) * b
  {
    PartialIs(a, b, 32);
    AllBits(a);
  }

  /** So do fewer, if only one bit is left and that one is added. */
  lemma EarlyExit(a: Int, b: Word, i: nat)
    requires i < 32 && Shifted(a, i) == 1
    ensures Partial(a, b, i) + ShiftedUp(b, i) == ToWord(a) * b
  {
    PartialIs(a, b, i);
    ShiftedUpIs(b, i);
    assert ToWord(a) == LowBits(a, i) + Pow2(i) by {
      Split(a, i);
    }
    Distribute(LowBits(a, i), 1, Pow2(i), b);
  }

  // ---------- Mult ----------

  /** Add a pair of words to another: low words first, then the carry and the high words. */
  method AddInto(hi: Word, lo: Word, bHi: Word, bLo: Word) returns (hi': Word, lo': Word)
    requires Pair(hi, lo) + Pair(bHi, bLo) < Two32 * Two32
    ensures Pair(hi', lo') == Pair(hi, lo) + Pair(bHi, bLo)
  {
    AddPairs(hi, lo, bHi, bLo);
    hi', lo' := hi, Add(lo, bLo);
    if lo' < bLo {
      hi' := Add(hi', 1);
    }
    hi' := Add(hi', bHi);
  }

  /** Shift both words of a pair left by one, carrying the top bit of the low word into the high one. */
  method Double(bHi: Word, bLo: Word) returns (bHi': Word, bLo': Word)
    requires 2 * Pair(bHi, bLo) < Two32 * Two32
    ensures Pair(bHi', bLo') == 2 * Pair(bHi, bLo)
  {
    DoublePair(bHi, bLo);
    bHi' := ShiftLeft(bHi);
    if bLo >= 0x8000_0000 {
      bHi' := bHi' + 1;             // the low bit is clear, so this sets it
    }
    bLo' := ShiftLeft(bLo);
  }

  /** The unsigned loop: the words of a times the words of b, exactly. */
  method MultiplyWords(a0: Int, b: Word) returns (hi: Word, lo: Word)
    ensures Pair(hi, lo) == ToWord(a0) * b
  {
    var a := a0;
    var bLo: Word, bHi: Word := b, 0;
    hi, lo := 0, 0;
    var i := 0;
    while i < 32
      invariant 0 <= i <= 32 && a == Shifted(a0, i)
      invariant Pair(bHi, bLo) == ShiftedUp(b, i)
      invariant Pair(hi, lo) == Partial(a0, b, i)
    {
      Fits(a0, b, i);
      if a % 2 == 1 {
        hi, lo := AddInto(hi, lo, bHi, bLo);
        if a == 1 {                 // no other bit is set
          EarlyExit(a0, b, i);
          return;
        }
      }
      ShiftedStep(a0, i);
      bHi, bLo := Double(bHi, bLo);
      a := ShiftRight(a);
      i := i + 1;
    }
    PartialIsProduct(a0, b);
  }

  /** The sign of the product, and what negation does to the operands. */
  lemma Signs(a: Int, b: Int)
    ensures a < 0 ==> ToWord(Negate(a)) == 0 - a
    ensures a >= 0 ==> ToWord(a) == a
    ensures (a < 0) != (b < 0) && a != 0 && b != 0 ==> a * b == 0 - Abs(a) * Abs(b)
    ensures (a < 0) == (b < 0) ==> a * b == Abs(a) * Abs(b) && Abs(a) * Abs(b) < Two32 * Two32
  {
    MulMonotone(Abs(a), Two32 - 1, Abs(b));
  }

  /** Mult leaves the exact product modulo 2^64 in hi and lo, signed or unsigned, also for the most
      negative operands, whose negation wraps around. */
  method Mult(a: Int, b: Int, signedArith: bool) returns (hi: Int, lo: Int)
    ensures Pair(ToWord(hi), ToWord(lo)) == if signedArith then (a * b) % (Two32 * Two32) else ToWord(a) * ToWord(b)
  {
    if a == 0 || b == 0 {
      return 0, 0;
    }
    var negative, a', b' := false, a, b;
    if signedArith {
      if a < 0 {
        negative := !negative;
        a' := Negate(a);
      }
      if b < 0 {
        negative := !negative;
        b' := Negate(b);
      }
      Signs(a, b);
      Signs(b, a);
    }
    var h, l := MultiplyWords(a', ToWord(b'));
    if negative {
      NegatePair(h, l);
      h, l := Complement(h), Complement(l);
      l := Add(l, 1);
      if l == 0 {
        h := Add(h, 1);
      }
    }
    hi, lo := ToInt(h), ToInt(l);
  }
}
