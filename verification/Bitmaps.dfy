/** Bitmaps over 32-bit words (code/lib/bitmap.cc) and their image in a file (code/filesys/pbitmap.cc). */
module Bitmaps {
  import opened Base
  import opened Disks

  // ---------- One word ----------

  type Word = w: int | 0 <= w < 0x1_0000_0000

  /** Bit k of a number: what `w & (1 << k)` tests. */
  predicate BitOf(w: nat, k: nat) {
    if k == 0 then w % 2 == 1 else BitOf(w / 2, k - 1)
  }

  /** `w | (1 << k)`. */
  function WithBit(w: nat, k: nat): nat {
    if k == 0 then w - w % 2 + 1 else 2 * WithBit(w / 2, k - 1) + w % 2
  }

  /** `w & ~(1 << k)`. */
  function WithoutBit(w: nat, k: nat): nat {
    if k == 0 then w - w % 2 else 2 * WithoutBit(w / 2, k - 1) + w % 2
  }

  /** Setting or clearing bit k changes that bit and no other. */
  lemma {:induction false} BitAfterUpdate(w: nat, k: nat, j: nat)
    ensures BitOf(WithBit(w, k), j) == (j == k || BitOf(w, j))
    ensures BitOf(WithoutBit(w, k), j) == (j != k && BitOf(w, j))
    decreases k
  {
    if k > 0 {
      assert WithBit(w, k) / 2 == WithBit(w / 2, k - 1) && WithBit(w, k) % 2 == w % 2;
      assert WithoutBit(w, k) / 2 == WithoutBit(w / 2, k - 1) && WithoutBit(w, k) % 2 == w % 2;
      if j > 0 {
        BitAfterUpdate(w / 2, k - 1, j - 1);
      }
    } else if j > 0 {
      assert WithBit(w, 0) / 2 == w / 2 && WithoutBit(w, 0) / 2 == w / 2;
    }
  }

  /** Bit k is the binary digit of weight 2^k. */
  lemma {:induction false} BitIsDigit(w: nat, k: nat) returns (high: nat, low: nat)
    ensures w == high * Pow2(k + 1) + (if BitOf(w, k) then Pow2(k) else 0) + low && low < Pow2(k)
    decreases k
  {
    if k == 0 {
      high, low := w / 2, 0;
    } else {
      var l;
      high, l := BitIsDigit(w / 2, k - 1);
      low := 2 * l + w % 2;
      assert 2 * (high * Pow2(k)) == high * Pow2(k + 1);
    }
  }

  /** In numbers: setting a clear bit adds 2^k, clearing a set bit subtracts it, and neither does
      anything otherwise. A word of n bits stays one. */
  lemma {:induction false} UpdateIsArithmetic(w: nat, k: nat, n: nat)
    requires k < n && w < Pow2(n)
    ensures WithBit(w, k) == (if BitOf(w, k) then w else w + Pow2(k)) < Pow2(n)
    ensures WithoutBit(w, k) == (if BitOf(w, k) then w - Pow2(k) else w)
  {
    if k > 0 {
      UpdateIsArithmetic(w / 2, k - 1, n - 1);
    }
  }

  lemma UpdateKeepsWord(w: Word, k: nat)
    requires k < 32
    ensures WithBit(w, k) < 0x1_0000_0000 && WithoutBit(w, k) < 0x1_0000_0000
  {
    assert Pow2(8) == 0x100;
    assert Pow2(16) == 0x1_0000;
    assert Pow2(24) == 0x100_0000;
    assert Pow2(32) == 0x1_0000_0000;
    UpdateIsArithmetic(w, k, 32);
  }

  // ---------- The whole map ----------

  function BitsOf(words: seq<Word>, n: nat): (bits: seq<bool>)
    requires n <= 32 * |words|
    ensures |bits| == n
  {
    seq(n, i requires 0 <= i < n => BitOf(words[i / 32], i % 32))
  }

  lemma BitsAfterUpdate(words: seq<Word>, n: nat, k: nat, w: Word, b: bool)
    requires n <= 32 * |words| && k < n
    requires w == if b then WithBit(words[k / 32], k % 32) else WithoutBit(words[k / 32], k % 32)
    ensures BitsOf(words[k / 32 := w], n) == BitsOf(words, n)[k := b]
  {
    var bits', updated := BitsOf(words[k / 32 := w], n), BitsOf(words, n)[k := b];
    forall i | 0 <= i < n ensures bits'[i] == updated[i] {
      if i / 32 == k / 32 {
        BitAfterUpdate(words[k / 32], k % 32, i % 32);
      }
    }
  }

  /** How many bits are clear. */
  function CountClear(bits: seq<bool>): nat {
    if bits == [] then 0
    else CountClear(bits[..|bits| - 1]) + (if bits[|bits| - 1] then 0 else 1)
  }

  /** Setting a clear bit uses up exactly one; a map with no clear bit counts zero. */
  lemma {:induction false} CountAfterSet(bits: seq<bool>, k: nat)
    requires k < |bits| && !bits[k]
    ensures CountClear(bits) == CountClear(bits[k := true]) + 1
    decreases |bits|
  {
    var n := |bits| - 1;
    if k == n {
      assert bits[k := true][..n] == bits[..n];
    } else {
      CountAfterSet(bits[..n], k);
      assert bits[k := true][..n] == bits[..n][k := true];
    }
  }

  lemma {:induction false} CountIsZero(bits: seq<bool>)
    ensures CountClear(bits) == 0 <==> forall i :: 0 <= i < |bits| ==> bits[i]
    decreases |bits|
  {
    if bits != [] {
      var n := |bits| - 1;
      CountIsZero(bits[..n]);
      assert forall i :: 0 <= i < n ==> bits[i] == bits[..n][i];
    }
  }

  lemma {:induction false} CountIsAll(bits: seq<bool>)
    requires forall i :: 0 <= i < |bits| ==> !bits[i]
    ensures CountClear(bits) == |bits|
    decreases |bits|
  {
    if bits != [] {
      CountIsAll(bits[..|bits| - 1]);
    }
  }

  // ---------- The map's image in a file ----------

  /** The words are stored like the disk's other integers; only the sign is read differently. */
  function Signed(w: Word): Int32 {
    if w >= 0x8000_0000 then w - 0x1_0000_0000 else w
  }

  function Unsigned(x: Int32): Word {
    if x < 0 then x + 0x1_0000_0000 else x
  }

  function EncodeWords(words: seq<Word>): (bytes: seq<Byte>)
    ensures |bytes| == 4 * |words|
  {
    EncodeInts(seq(|words|, i requires 0 <= i < |words| => Signed(words[i])))
  }

  function DecodeWords(bytes: seq<Byte>, n: nat): (words: seq<Word>)
    requires 4 * n <= |bytes|
    ensures |words| == n
  {
    seq(n, i requires 0 <= i < n => Unsigned(DecodeInts(bytes, n)[i]))
  }

  /** A map written to a file and read back is the same map. */
  lemma WordsRoundTrip(words: seq<Word>)
    ensures DecodeWords(EncodeWords(words), |words|) == words
  {
    IntsRoundTrip(seq(|words|, i requires 0 <= i < |words| => Signed(words[i])));
  }

  // ---------- The source's object ----------

  class Bitmap {
    const numBits: nat
    const words: array<Word>

    ghost predicate Valid() {
      numBits <= 32 * words.Length
    }

    ghost function Bits(): (bits: seq<bool>)
      requires Valid()
      reads words
      ensures |bits| == numBits
    {
      BitsOf(words[..], numBits)
    }

    constructor (numItems: nat)
      ensures Valid() && numBits == numItems && fresh(words) && words.Length == (numItems + 31) / 32
      ensures forall i :: 0 <= i < numBits ==> !Bits()[i]
    {
      numBits := numItems;
      words := new Word[(numItems + 31) / 32](_ => 0);
      new;
      var i := 0;
      while i < numBits
        invariant 0 <= i <= numBits && Valid()
        invariant forall k :: 0 <= k < i ==> !Bits()[k]
      {
        Clear(i);
        i := i + 1;
      }
    }

    method Mark(which: int)
      requires Valid() && 0 <= which < numBits
      modifies words
      ensures Bits() == old(Bits())[which := true]
    {
      UpdateKeepsWord(words[which / 32], which % 32);
      var w := WithBit(words[which / 32], which % 32);
      BitsAfterUpdate(words[..], numBits, which, w, true);
      words[which / 32] := w;
      assert words[..] == old(words[..])[which / 32 := w];
    }

    method Clear(which: int)
      requires Valid() && 0 <= which < numBits
      modifies words
      ensures Bits() == old(Bits())[which := false]
    {
      UpdateKeepsWord(words[which / 32], which % 32);
      var w := WithoutBit(words[which / 32], which % 32);
      BitsAfterUpdate(words[..], numBits, which, w, false);
      words[which / 32] := w;
      assert words[..] == old(words[..])[which / 32 := w];
    }

    method Test(which: int) returns (b: bool)
      requires Valid() && 0 <= which < numBits
      ensures b == Bits()[which]
    {
      b := BitOf(words[which / 32], which % 32);
    }

    /** Replace the whole map, as reading it from a file does. */
    method Overwrite(data: seq<Word>)
      requires Valid() && |data| == words.Length
      modifies words
      ensures Bits() == BitsOf(data, numBits)
    {
      var i := 0;
      while i < words.Length
        invariant 0 <= i <= words.Length
        invariant words[..i] == data[..i]
      {
        words[i] := data[i];
        i := i + 1;
      }
      assert words[..] == data;
    }

    /** The first clear bit, now set; -1 exactly when all bits are set. */
    method FindAndSet() returns (which: int)
      requires Valid()
      modifies words
      ensures -1 <= which < numBits
      ensures which == -1 <==> CountClear(old(Bits())) == 0
      ensures which == -1 ==> Bits() == old(Bits())
      ensures which >= 0 ==> !old(Bits())[which] && (forall i :: 0 <= i < which ==> old(Bits())[i])
      ensures which >= 0 ==> Bits() == old(Bits())[which := true]
      ensures which >= 0 ==> CountClear(Bits()) == CountClear(old(Bits())) - 1
    {
      ghost var was := Bits();
      CountIsZero(was);
      var i := 0;
      while i < numBits
        invariant 0 <= i <= numBits && Bits() == was
        invariant forall k :: 0 <= k < i ==> was[k]
      {
        var inUse := Test(i);
        if !inUse {
          CountAfterSet(was, i);
          Mark(i);
          return i;
        }
        i := i + 1;
      }
      which := -1;
    }

    method NumClear() returns (count: nat)
      requires Valid()
      ensures count == CountClear(Bits())
    {
      count := 0;
      var i := 0;
      while i < numBits
        invariant 0 <= i <= numBits && count == CountClear(Bits()[..i])
      {
        assert Bits()[..i + 1][..i] == Bits()[..i];
        var inUse := Test(i);
        if !inUse {
          count := count + 1;
        }
        i := i + 1;
      }
      assert Bits()[..numBits] == Bits();
    }
  }
}
