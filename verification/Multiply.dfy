/** The multiplier of the MIPS simulator: a 64-bit product by shifting and adding 32-bit words. */
module Multiply {
  import opened Bytes
  import opened Bits

  const TwoTo32: int := 0x1_0000_0000

  /** The 64-bit pattern hi:lo as an unsigned number, and as a two's complement number. */
  function Unsigned64(hi: Word, lo: Word): int {
    (hi as int) * TwoTo32 + lo
  }

  function Signed64(hi: Int32, lo: Int32): int {
    hi * TwoTo32 + Unsigned(lo)
  }

  /** Negation of a 32-bit integer wraps around at the minimum. */
  function Negate(n: Int32): Int32 {
    if n == -0x8000_0000 then n else -n
  }

  /** One more bit of the multiplier `m` (what is left of it) is consumed. */
  lemma ShiftStep(acc: int, b: int, m: nat)
    ensures m % 2 == 1 ==> acc + b * m == (acc + b) + (2 * b) * (m / 2)
    ensures m % 2 == 0 ==> acc + b * m == acc + (2 * b) * (m / 2)
  {
    var h := m / 2;
    assert m == 2 * h + m % 2;
    if m % 2 == 1 {
      calc {
        acc + b * m;
        acc + b * (2 * h + 1);
        acc + b * (2 * h) + b;
        { Assoc(b, h); }
        acc + (2 * b) * h + b;
      }
    } else {
      Assoc(b, h);
    }
  }

  lemma Assoc(b: int, h: int)
    ensures b * (2 * h) == (2 * b) * h
  {
  }

  function Low(n: int): Word {
    n % TwoTo32
  }

  /** Double-word addition through the carry out of the low word. */
  lemma AddWords(hi: Word, lo: Word, bHi: Word, bLo: Word)
    requires Unsigned64(hi, lo) + Unsigned64(bHi, bLo) < TwoTo32 * TwoTo32
    ensures var lo' := Low(lo + bLo);
            var hi' := if lo' < bLo then Low(hi + 1) else hi;
            Unsigned64(Low(hi' + bHi), lo') == Unsigned64(hi, lo) + Unsigned64(bHi, bLo)
  {
    var lo' := Low(lo + bLo);
    var carry := if lo' < bLo then 1 else 0;
    assert (lo as int) + bLo == lo' + carry * TwoTo32;
    assert (hi as int) + bHi + carry < TwoTo32;
  }

  /** Double-word doubling through the top bit of the low word. */
  lemma DoubleWords(hi: Word, lo: Word)
    requires 2 * Unsigned64(hi, lo) < TwoTo32 * TwoTo32
    ensures var hi' := Low(2 * (hi as int)) + (if lo >= 0x8000_0000 then 1 else 0);
            hi' < TwoTo32 && Unsigned64(hi', Low(2 * (lo as int))) == 2 * Unsigned64(hi, lo)
  {
    assert 2 * (hi as int) < TwoTo32;
  }

  /** Two's complement of a double word. */
  lemma NegateWords(hi: Word, lo: Word)
    requires 0 < Unsigned64(hi, lo)
    ensures var hi' := TwoTo32 - 1 - (hi as int);
            var lo' := Low(TwoTo32 - 1 - (lo as int) + 1);
            Unsigned64(if lo' == 0 then Low(hi' + 1) else hi', lo') == TwoTo32 * TwoTo32 - Unsigned64(hi, lo)
  {
  }

  /** What the main loop keeps: `m` is the unsigned rest of the multiplier, of which `a` shows the low
      bits, and the shifted multiplicand stays within 64 bits. */
  ghost predicate Partial(i: nat, a: int, m: nat, acc: int, shifted: int, x: int, y: int) {
    && i <= 32
    && m < Pow2(32 - i)
    && (a == m || a == m - Pow2(32 - i))
    && acc >= 0 && shifted >= 0
    && acc + shifted * m == x * y
    && shifted * Pow2(32 - i) == y * TwoTo32
  }

  lemma PartialStart(a: Int32, y: Word)
    ensures Partial(0, a, Unsigned(a), 0, y, Unsigned(a), y)
  {
    Pow2Is32();
  }

  /** The loop's sums do not overflow. */
  lemma PartialBounds(i: nat, a: int, m: nat, acc: int, shifted: int, x: Word, y: Word)
    requires Partial(i, a, m, acc, shifted, x, y) && i < 32
    ensures a % 2 == m % 2
    ensures 2 * shifted < TwoTo32 * TwoTo32
    ensures m > 0 ==> acc + shifted < TwoTo32 * TwoTo32
  {
    var q := Pow2(31 - i);
    assert Pow2(32 - i) == 2 * q;
    ProductBound(x, y);
    Assoc(shifted, q);
    AtLeast(2 * shifted, q);
    if m > 0 {
      AtLeast(shifted, m);
    }
  }

  lemma ProductBound(x: Word, y: Word)
    ensures 0 <= (x as int) * (y as int) < TwoTo32 * TwoTo32 && (y as int) * TwoTo32 < TwoTo32 * TwoTo32
  {
    AtMost(x, y, TwoTo32 - 1);
    AtMost(y, TwoTo32 - 1, TwoTo32 - 1);
  }

  lemma AtMost(x: nat, y: nat, z: nat)
    requires x <= z
    ensures 0 <= x * y <= z * y && y * x == x * y
  {
  }

  lemma AtLeast(s: nat, q: nat)
    requires q > 0
    ensures s <= s * q
  {
  }

  lemma PartialStep(i: nat, a: int, m: nat, acc: int, shifted: int, x: int, y: int)
    requires Partial(i, a, m, acc, shifted, x, y) && i < 32
    ensures Partial(i + 1, a / 2, m / 2, if m % 2 == 1 then acc + shifted else acc, 2 * shifted, x, y)
  {
    var q := Pow2(31 - i);
    assert Pow2(32 - i) == 2 * q && Pow2(32 - (i + 1)) == q;
    ShiftStep(acc, shifted, m);
    Assoc(shifted, q);
  }

  /** A double word read as a two's complement number. */
  lemma SignedView(hi: Word, lo: Word)
    ensures Signed64(Signed(hi), Signed(lo))
         == if hi < 0x8000_0000 then Unsigned64(hi, lo) else Unsigned64(hi, lo) - TwoTo32 * TwoTo32
  {
  }

  function Abs(n: Int32): nat {
    if n < 0 then -(n as int) else n
  }

  lemma SignRule(a: Int32, b: Int32)
    ensures a * b == if (a < 0) != (b < 0) then -(Abs(a) * Abs(b)) else Abs(a) * Abs(b)
    ensures 0 <= Abs(a) * Abs(b) <= 0x4000_0000_0000_0000
    ensures a != 0 && b != 0 ==> 0 < Abs(a) * Abs(b)
  {
    AtMost(Abs(a), Abs(b), 0x8000_0000);
    AtMost(Abs(b), 0x8000_0000, 0x8000_0000);
  }

  /** Mult: the exact 64-bit product, signed or unsigned. */
  method Mult(a0: Int32, b0: Int32, signedArith: bool) returns (hiOut: Int32, loOut: Int32)
    ensures signedArith ==> hiOut * 0x1_0000_0000 + Unsigned(loOut) == a0 * b0
    ensures !signedArith ==> Unsigned(hiOut) * 0x1_0000_0000 + Unsigned(loOut) == Unsigned(a0) * Unsigned(b0)
  {
    var a, b := a0, b0;
    if a == 0 || b == 0 {
      return 0, 0;
    }
    var negative := false;
    if signedArith {
      if a < 0 {
        negative := !negative;
        a := Negate(a);
      }
      if b < 0 {
        negative := !negative;
        b := Negate(b);
      }
      SignRule(a0, b0);
      assert Unsigned(a) == Abs(a0) && Unsigned(b) == Abs(b0);
    }
    var hi, lo := UnsignedProduct(a, Unsigned(b));
    if negative {
      NegateWords(hi, lo);
      hi := TwoTo32 - 1 - hi;
      lo := Low(TwoTo32 - 1 - lo + 1);
      if lo == 0 {
        hi := Low(hi + 1);
      }
    }
    SignedView(hi, lo);
    hiOut, loOut := Signed(hi), Signed(lo);
  }

  /** Add a double word, with the carry out of the low word. */
  method AddIn(hi0: Word, lo0: Word, bHi: Word, bLo: Word) returns (hi: Word, lo: Word)
    requires Unsigned64(hi0, lo0) + Unsigned64(bHi, bLo) < TwoTo32 * TwoTo32
    ensures Unsigned64(hi, lo) == Unsigned64(hi0, lo0) + Unsigned64(bHi, bLo)
  {
    AddWords(hi0, lo0, bHi, bLo);
    hi, lo := hi0, Low(lo0 + bLo);
    if lo < bLo {
      hi := Low(hi + 1);
    }
    hi := Low(hi + bHi);
  }

  /** Shift a double word to the left, through the top bit of the low word. */
  method ShiftLeft(bHi0: Word, bLo0: Word) returns (bHi: Word, bLo: Word)
    requires 2 * Unsigned64(bHi0, bLo0) < TwoTo32 * TwoTo32
    ensures Unsigned64(bHi, bLo) == 2 * Unsigned64(bHi0, bLo0)
  {
    DoubleWords(bHi0, bLo0);
    bHi := Low(2 * bHi0);
    if bLo0 >= 0x8000_0000 {
      bHi := bHi + 1;
    }
    bLo := Low(2 * bLo0);
  }

  /** The main loop: check the bits of `a` one at a time, and add in a shifted value of `b`. */
  method UnsignedProduct(a0: Int32, b: Word) returns (hi: Word, lo: Word)
    ensures Unsigned64(hi, lo) == Unsigned(a0) * b
  {
    var a: int := a0;
    var bLo: Word, bHi: Word := b, 0;
    lo, hi := 0, 0;
    ghost var x: Word, m: nat := Unsigned(a0), Unsigned(a0);
    PartialStart(a0, b);
    for i := 0 to 32
      invariant Partial(i, a, m, Unsigned64(hi, lo), Unsigned64(bHi, bLo), x, b)
    {
      PartialBounds(i, a, m, Unsigned64(hi, lo), Unsigned64(bHi, bLo), x, b);
      PartialStep(i, a, m, Unsigned64(hi, lo), Unsigned64(bHi, bLo), x, b);
      if a % 2 == 1 {
        hi, lo := AddIn(hi, lo, bHi, bLo);
        if a == 0 || a == 1 {
          return;
        }
      }
      bHi, bLo := ShiftLeft(bHi, bLo);
      a := a / 2;
      m := m / 2;
    }
  }
}
