/** Word-packed bitmaps, and the finite sets of bit numbers that they represent. */
module BitMaps {
  import opened Bytes
  import opened Bits

  const BitsInWord: nat := 32

  /** The set that the first `n` bits of `words` represent. */
  ghost function BitsOf(words: seq<Word>, n: nat): (s: set<int>)
    requires n <= 32 * |words|
    decreases n, words
  {
    if n == 0 then {}
    else BitsOf(words, n - 1) + if Digit(words[(n - 1) / 32], (n - 1) % 32) then {n - 1} else {}
  }

  lemma {:induction false} BitsOfAt(words: seq<Word>, n: nat, i: int)
    requires n <= 32 * |words|
    ensures i in BitsOf(words, n) <==> 0 <= i < n && Digit(words[i / 32], i % 32)
  {
    if n > 0 {
      BitsOfAt(words, n - 1, i);
    }
  }

  /** `w |= 1 << k` and `w &= ~(1 << k)` on a 32-bit word. */
  function SetBit(w: Word, k: nat): Word
    requires k < 32
  {
    Pow2Is32();
    Pow2Strict(k, 32);
    OrBelow(w, Pow2(k), 32);
    Or(w, Pow2(k))
  }

  function ResetBit(w: Word, k: nat): Word
    requires k < 32
  {
    And(w, Not(Pow2(k), 32))
  }

  lemma SetBitDigit(w: Word, k: nat, j: nat)
    requires k < 32
    ensures Digit(SetBit(w, k), j) <==> k == j || Digit(w, j)
  {
    OrDigit(w, Pow2(k), j);
    Pow2Digit(k, j);
  }

  lemma ResetBitDigit(w: Word, k: nat, j: nat)
    requires k < 32 && j < 32
    ensures Digit(ResetBit(w, k), j) <==> k != j && Digit(w, j)
  {
    AndDigit(w, Not(Pow2(k), 32), j);
    NotDigit(Pow2(k), 32, j);
    Pow2Digit(k, j);
  }

  lemma MarkWord(words: seq<Word>, n: nat, which: nat)
    requires which < n <= 32 * |words|
    ensures BitsOf(words[which / 32 := SetBit(words[which / 32], which % 32)], n) == BitsOf(words, n) + {which}
  {
    var after := words[which / 32 := SetBit(words[which / 32], which % 32)];
    forall i ensures i in BitsOf(after, n) <==> i in BitsOf(words, n) + {which} {
      BitsOfAt(after, n, i);
      BitsOfAt(words, n, i);
      if 0 <= i < n && i / 32 == which / 32 {
        SetBitDigit(words[which / 32], which % 32, i % 32);
      }
    }
  }

  lemma ClearWord(words: seq<Word>, n: nat, which: nat)
    requires which < n <= 32 * |words|
    ensures BitsOf(words[which / 32 := ResetBit(words[which / 32], which % 32)], n) == BitsOf(words, n) - {which}
  {
    var after := words[which / 32 := ResetBit(words[which / 32], which % 32)];
    forall i ensures i in BitsOf(after, n) <==> i in BitsOf(words, n) && i != which {
      ClearedBit(words, n, which, i);
    }
  }

  lemma ClearedBit(words: seq<Word>, n: nat, which: nat, i: int)
    requires which < n <= 32 * |words|
    ensures i in BitsOf(words[which / 32 := ResetBit(words[which / 32], which % 32)], n) <==> i in BitsOf(words, n) && i != which
  {
    BitsOfAt(words[which / 32 := ResetBit(words[which / 32], which % 32)], n, i);
    BitsOfAt(words, n, i);
    if 0 <= i < n && i / 32 == which / 32 {
      ResetBitDigit(words[which / 32], which % 32, i % 32);
    }
  }

  predicate TestBit(w: Word, k: nat)
    requires k < 32
    ensures TestBit(w, k) <==> Digit(w, k)
  {
    MaskTest(w, k);
    And(w, Pow2(k)) != 0
  }

  /** The least number from `i` on that is below `n` and not in `s`, or `n`. */
  function LeastClearFrom(s: set<int>, i: nat, n: nat): (r: nat)
    requires i <= n
    ensures i <= r <= n && (r < n ==> r !in s)
    ensures forall k :: i <= k < r ==> k in s
    decreases n - i, s
  {
    if i == n || i !in s then i else LeastClearFrom(s, i + 1, n)
  }

  function LeastClear(s: set<int>, n: nat): (r: nat)
    ensures r <= n
  {
    LeastClearFrom(s, 0, n)
  }

  lemma LeastClearIsLeast(s: set<int>, n: nat)
    ensures LeastClear(s, n) < n ==> LeastClear(s, n) !in s
    ensures forall k :: 0 <= k < LeastClear(s, n) ==> k in s
  {
  }

  /** The numbers below `n` that are not in `s`. */
  function Complement(s: set<int>, n: nat): (c: set<int>)
    ensures forall i :: i in c <==> 0 <= i < n && i !in s
    decreases n, s
  {
    if n == 0 then {} else Complement(s, n - 1) + if n - 1 in s then {} else {n - 1}
  }

  lemma ComplementStep(s: set<int>, n: nat)
    ensures |Complement(s, n + 1)| == |Complement(s, n)| + if n in s then 0 else 1
  {
  }

  class BitMap {
    const numBits: nat
    const words: array<Word>

    ghost predicate Valid() {
      words.Length == DivRoundUp(numBits, BitsInWord)
    }

    ghost function Marked(): (s: set<int>)
      requires Valid()
      reads this, words
    {
      BitsOf(words[..], numBits)
    }

    constructor (nitems: nat)
      ensures Valid() && numBits == nitems && Marked() == {} && fresh(words)
    {
      numBits := nitems;
      words := new Word[DivRoundUp(nitems, BitsInWord)];
      new;
      forall k ensures k in Marked() ==> 0 <= k < numBits {
        BitsOfAt(words[..], numBits, k);
      }
      for i := 0 to nitems
        invariant Valid() && forall k :: k in Marked() ==> i <= k < nitems
      {
        Clear(i);
      }
    }

    method Mark(which: nat)
      requires Valid() && which < numBits
      modifies words
      ensures Marked() == old(Marked()) + {which}
    {
      MarkWord(words[..], numBits, which);
      words[which / BitsInWord] := SetBit(words[which / BitsInWord], which % BitsInWord);
      assert words[..] == old(words[..])[which / 32 := SetBit(old(words[which / 32]), which % 32)];
    }

    method Clear(which: nat)
      requires Valid() && which < numBits
      modifies words
      ensures Marked() == old(Marked()) - {which}
    {
      ClearWord(words[..], numBits, which);
      words[which / BitsInWord] := ResetBit(words[which / BitsInWord], which % BitsInWord);
      assert words[..] == old(words[..])[which / 32 := ResetBit(old(words[which / 32]), which % 32)];
    }

    method Test(which: nat) returns (used: bool)
      requires Valid() && which < numBits
      ensures used <==> which in Marked()
    {
      BitsOfAt(words[..], numBits, which);
      used := TestBit(words[which / BitsInWord], which % BitsInWord);
    }

    /** Find and mark the least clear bit. */
    method Find() returns (which: int)
      requires Valid()
      modifies words
      ensures var least := LeastClear(old(Marked()), numBits);
              if least == numBits then which == -1 && Marked() == old(Marked())
              else which == least && Marked() == old(Marked()) + {least}
    {
      for i := 0 to numBits
        invariant forall k :: 0 <= k < i ==> k in Marked()
        invariant words[..] == old(words[..])
      {
        var used := Test(i);
        if !used {
          LeastClearIsLeast(Marked(), numBits);
          Mark(i);
          return i;
        }
      }
      LeastClearIsLeast(Marked(), numBits);
      return -1;
    }

    method NumClear() returns (count: nat)
      requires Valid()
      ensures count == |Complement(Marked(), numBits)|
    {
      count := 0;
      ghost var marked := Marked();
      for i := 0 to numBits
        invariant count == |Complement(marked, i)|
      {
        ComplementStep(marked, i);
        var used := Test(i);
        if !used {
          count := count + 1;
        }
      }
    }
  }
}
