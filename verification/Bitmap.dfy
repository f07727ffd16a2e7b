/** The word-packed bitmaps of the file system: an array of 32-bit words seen as one
    sequence of bits. */
module Bitmaps {

  const BITS_PER_WORD := 32

  const WORD_LIMIT: nat := 0x1_0000_0000

  /** A 32-bit word, `word_t`, as the number its bits spell. */
  type Word = w: nat | w < WORD_LIMIT

  function Bit(b: bool): nat {
    if b then 1 else 0
  }

  /** Bit `j` of a number. */
  predicate BitAt(w: nat, j: nat) {
    if j == 0 then w % 2 == 1 else BitAt(w / 2, j - 1)
  }

  /** The bitwise C operators, binary digit by binary digit. */
  function Or(a: nat, b: nat): nat {
    if a == 0 && b == 0 then 0 else Bit(a % 2 == 1 || b % 2 == 1) + 2 * Or(a / 2, b / 2)
  }

  function And(a: nat, b: nat): nat {
    if a == 0 && b == 0 then 0 else Bit(a % 2 == 1 && b % 2 == 1) + 2 * And(a / 2, b / 2)
  }

  function AndNot(a: nat, b: nat): nat {
    if a == 0 && b == 0 then 0 else Bit(a % 2 == 1 && b % 2 == 0) + 2 * AndNot(a / 2, b / 2)
  }

  /** `1 << j`. */
  function Mask(j: nat): (m: nat)
    ensures m > 0
  {
    if j == 0 then 1 else 2 * Mask(j - 1)
  }

  lemma {:induction false} ZeroHasNoBits(j: nat)
    ensures !BitAt(0, j)
  {
    if j > 0 {
      ZeroHasNoBits(j - 1);
    }
  }

  lemma {:induction false} BitwiseAt(a: nat, b: nat, j: nat)
    ensures BitAt(Or(a, b), j) == (BitAt(a, j) || BitAt(b, j))
    ensures BitAt(And(a, b), j) == (BitAt(a, j) && BitAt(b, j))
    ensures BitAt(AndNot(a, b), j) == (BitAt(a, j) && !BitAt(b, j))
    decreases j
  {
    if a == 0 && b == 0 {
      ZeroHasNoBits(j);
    } else if j > 0 {
      BitwiseAt(a / 2, b / 2, j - 1);
    }
  }

  lemma {:induction false} BitwiseBounds(a: nat, b: nat, n: nat)
    requires a < Mask(n) && b < Mask(n)
    ensures Or(a, b) < Mask(n) && AndNot(a, b) < Mask(n)
    decreases n
  {
    if n > 0 {
      BitwiseBounds(a / 2, b / 2, n - 1);
    }
  }

  lemma {:induction false} MaskBits(i: nat, j: nat)
    ensures BitAt(Mask(i), j) == (i == j)
  {
    if i == 0 {
      if j > 0 { ZeroHasNoBits(j - 1); }
    } else {
      MaskBits(i - 1, if j == 0 then 0 else j - 1);
    }
  }

  lemma {:induction false} MaskMonotone(i: nat, n: nat)
    requires i < n
    ensures Mask(i) < Mask(n)
    decreases n
  {
    if i < n - 1 { MaskMonotone(i, n - 1); }
    MaskBits(n - 1, 0);
  }

  lemma WordLimit()
    ensures Mask(32) == WORD_LIMIT
  {
    assert Mask(8) == 0x100;
    assert Mask(16) == 0x1_0000;
    assert Mask(24) == 0x100_0000;
  }

  /** A number with no bit set is 0. */
  lemma {:induction false} NonzeroHasBit(w: nat) returns (j: nat)
    requires w != 0
    ensures BitAt(w, j)
  {
    if w % 2 == 1 {
      j := 0;
    } else {
      j := NonzeroHasBit(w / 2);
      j := j + 1;
    }
  }

  /** The C test `(w & (1 << j)) != 0` reads bit `j`. */
  lemma MaskTest(w: nat, j: nat)
    ensures (And(w, Mask(j)) != 0) == BitAt(w, j)
  {
    MaskBits(j, j);
    BitwiseAt(w, Mask(j), j);
    ZeroHasNoBits(j);
    if And(w, Mask(j)) != 0 {
      var k := NonzeroHasBit(And(w, Mask(j)));
      BitwiseAt(w, Mask(j), k);
      MaskBits(j, k);
    }
  }

  /** Or-ing and and-not-ing a one-bit mask touches that bit and no other. */
  lemma WordUpdates(w: Word, i: nat)
    requires i < BITS_PER_WORD
    ensures Or(w, Mask(i)) < WORD_LIMIT && AndNot(w, Mask(i)) < WORD_LIMIT
    ensures forall j: nat :: BitAt(Or(w, Mask(i)), j) == (i == j || BitAt(w, j))
    ensures forall j: nat :: BitAt(AndNot(w, Mask(i)), j) == (i != j && BitAt(w, j))
  {
    WordLimit();
    MaskMonotone(i, 32);
    BitwiseBounds(w, Mask(i), 32);
    forall j: nat
      ensures BitAt(Or(w, Mask(i)), j) == (i == j || BitAt(w, j))
      ensures BitAt(AndNot(w, Mask(i)), j) == (i != j && BitAt(w, j))
    {
      BitwiseAt(w, Mask(i), j);
      MaskBits(i, j);
    }
  }

  /** The lowest clear bit, or -1 when every bit is set. */
  function FirstFree(bits: seq<bool>): (r: int)
    ensures -1 <= r < |bits|
    ensures r >= 0 ==> !bits[r]
    ensures forall k :: 0 <= k < |bits| && (r < 0 || k < r) ==> bits[k]
  {
    FirstFreeFrom(bits, 0)
  }

  function FirstFreeFrom(bits: seq<bool>, start: nat): (r: int)
    requires start <= |bits|
    ensures -1 <= r < |bits|
    ensures r >= 0 ==> start <= r && !bits[r]
    ensures forall k :: start <= k < |bits| && (r < 0 || k < r) ==> bits[k]
    decreases |bits| - start
  {
    if start == |bits| then -1
    else if !bits[start] then start
    else FirstFreeFrom(bits, start + 1)
  }

  class Bitmap {
    const words: array<Word>

    constructor (nwords: nat)
      ensures fresh(words) && words.Length == nwords
      ensures Bits() == seq(nwords * BITS_PER_WORD, _ => false)
    {
      words := new Word[nwords](_ => 0);
      new;
      forall j: nat ensures !BitAt(0, j) {
        ZeroHasNoBits(j);
      }
    }

    /** The bitmap as the sequence of its bits. */
    ghost function Bits(): (s: seq<bool>)
      reads words
      ensures |s| == words.Length * BITS_PER_WORD
    {
      seq(words.Length * BITS_PER_WORD,
          n requires 0 <= n < words.Length * BITS_PER_WORD reads words =>
            BitAt(words[n / BITS_PER_WORD], n % BITS_PER_WORD))
    }

    method SetBit(n: nat)
      requires n < words.Length * BITS_PER_WORD
      modifies words
      ensures Bits() == old(Bits())[n := true]
    {
      var k := n / BITS_PER_WORD;
      WordUpdates(words[k], n % BITS_PER_WORD);
      words[k] := Or(words[k], Mask(n % BITS_PER_WORD));
    }

    method ClearBit(n: nat)
      requires n < words.Length * BITS_PER_WORD
      modifies words
      ensures Bits() == old(Bits())[n := false]
    {
      var k := n / BITS_PER_WORD;
      WordUpdates(words[k], n % BITS_PER_WORD);
      words[k] := AndNot(words[k], Mask(n % BITS_PER_WORD));
    }

    method GetBit(n: nat) returns (bit: bool)
      requires n < words.Length * BITS_PER_WORD
      ensures bit == Bits()[n]
    {
      MaskTest(words[n / BITS_PER_WORD], n % BITS_PER_WORD);
      bit := And(words[n / BITS_PER_WORD], Mask(n % BITS_PER_WORD)) != 0;
    }

    /** Scans words, and bits within a word, in order. */
    method GetFreeBit() returns (r: int)
      ensures r == FirstFree(Bits())
    {
      for i := 0 to words.Length
        invariant forall k :: 0 <= k < i * BITS_PER_WORD ==> Bits()[k]
      {
        for j := 0 to BITS_PER_WORD
          invariant forall k :: 0 <= k < i * BITS_PER_WORD + j ==> Bits()[k]
        {
          var bitno := j + i * BITS_PER_WORD;
          var bit := GetBit(bitno);
          if !bit {
            return bitno;
          }
        }
      }
      return -1;
    }
  }
}
