/** The bitwise operators of C on non-negative integers, defined digit by digit in base 2. */
module Bits {

  function Pow2(k: nat): (p: nat)
    ensures p > 0
  {
    if k == 0 then 1 else 2 * Pow2(k - 1)
  }

  /** Binary digit `k` of `w`. */
  predicate Digit(w: nat, k: nat) {
    if k == 0 then w % 2 == 1 else Digit(w / 2, k - 1)
  }

  lemma {:induction false} DigitIs(w: nat, k: nat)
    ensures Digit(w, k) <==> w / Pow2(k) % 2 == 1
  {
    if k > 0 {
      DigitIs(w / 2, k - 1);
      HalveFirst(w, Pow2(k - 1));
    }
  }

  lemma HalveFirst(w: nat, p: nat)
    requires p > 0
    ensures w / 2 / p == w / (2 * p)
  {
    var q, r := w / 2 / p, w / 2 % p;
    assert w == 2 * (q * p + r) + w % 2;
    assert w == q * (2 * p) + (2 * r + w % 2);
    Divides(w, q, 2 * p, 2 * r + w % 2);
  }

  lemma Divides(w: int, q: int, d: int, r: int)
    requires 0 <= r < d && w == q * d + r
    ensures w / d == q
  {
    var e := w / d - q;
    assert e * d == w / d * d - q * d == r - w % d;
    assert e >= 1 ==> e * d >= d;
    assert e <= -1 ==> e * d <= -d;
  }

  function Or(a: nat, b: nat): (r: nat) {
    if a == 0 && b == 0 then 0
    else (if a % 2 == 1 || b % 2 == 1 then 1 else 0) + 2 * Or(a / 2, b / 2)
  }

  function And(a: nat, b: nat): (r: nat)
    ensures r <= a
  {
    if a == 0 || b == 0 then 0
    else (if a % 2 == 1 && b % 2 == 1 then 1 else 0) + 2 * And(a / 2, b / 2)
  }

  /** The complement `~a` of a `width`-bit number. */
  function Not(a: nat, width: nat): (r: nat)
    ensures r < Pow2(width)
  {
    if width == 0 then 0 else 1 - a % 2 + 2 * Not(a / 2, width - 1)
  }

  lemma {:induction false} OrDigit(a: nat, b: nat, k: nat)
    ensures Digit(Or(a, b), k) <==> Digit(a, k) || Digit(b, k)
  {
    if a == 0 && b == 0 {
      ZeroDigit(k);
    } else if k > 0 {
      OrDigit(a / 2, b / 2, k - 1);
    }
  }

  lemma {:induction false} AndDigit(a: nat, b: nat, k: nat)
    ensures Digit(And(a, b), k) <==> Digit(a, k) && Digit(b, k)
  {
    if a == 0 || b == 0 {
      ZeroDigit(k);
    } else if k > 0 {
      AndDigit(a / 2, b / 2, k - 1);
    }
  }

  lemma {:induction false} NotDigit(a: nat, width: nat, k: nat)
    requires k < width
    ensures Digit(Not(a, width), k) <==> !Digit(a, k)
  {
    if k > 0 {
      NotDigit(a / 2, width - 1, k - 1);
    }
  }

  lemma {:induction false} ZeroDigit(k: nat)
    ensures !Digit(0, k)
  {
    if k > 0 {
      ZeroDigit(k - 1);
    }
  }

  lemma {:induction false} Pow2Digit(k: nat, j: nat)
    ensures Digit(Pow2(k), j) <==> k == j
  {
    if k == 0 {
      if j > 0 {
        ZeroDigit(j - 1);
      }
    } else if j > 0 {
      Pow2Digit(k - 1, j - 1);
    }
  }

  /** `w & (1 << k)` is non-zero exactly when digit `k` of `w` is 1. */
  lemma {:induction false} MaskTest(w: nat, k: nat)
    ensures And(w, Pow2(k)) != 0 <==> Digit(w, k)
  {
    if w == 0 {
      ZeroDigit(k);
    } else if k > 0 {
      MaskTest(w / 2, k - 1);
    } else {
      assert And(w / 2, 0) == 0;
    }
  }

  lemma {:induction false} OrBelow(a: nat, b: nat, n: nat)
    requires a < Pow2(n) && b < Pow2(n)
    ensures Or(a, b) < Pow2(n)
  {
    if n > 0 {
      OrBelow(a / 2, b / 2, n - 1);
    }
  }

  lemma {:induction false} Pow2Strict(j: nat, k: nat)
    requires j < k
    ensures 2 * Pow2(j) <= Pow2(k)
  {
    if j < k - 1 {
      Pow2Strict(j, k - 1);
    }
  }

  lemma Pow2Is32()
    ensures Pow2(32) == 0x1_0000_0000
  {
    assert Pow2(8) == 256 by { assert Pow2(4) == 16; }
    assert Pow2(16) == 65536 by { assert Pow2(12) == 4096; }
    assert Pow2(24) == 16777216 by { assert Pow2(20) == 1048576; }
    assert Pow2(28) == 268435456;
  }
}
