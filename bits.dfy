/**
 * Unsigned machine words as integers.
 *
 * A `u8`, `u16` or `u32` is an integer in its range.  Bitwise exclusive or
 * is defined digit by digit on the binary expansion; a shift right by `n`,
 * a shift left by `n` and a truncating cast to `n` bits are defined the same
 * way, one binary digit at a time.  The lemmas below are the algebra of
 * those operations that the CRC proofs rely on.
 */
module Bits {

  type u8 = x: nat | x < 0x100
  type u16 = x: nat | x < 0x1_0000
  type u32 = x: nat | x < 0x1_0000_0000

  function Pow2(n: nat): (r: nat)
    ensures r >= 1
  {
    if n == 0 then 1 else 2 * Pow2(n - 1)
  }

  lemma Pow2Of8()
    ensures Pow2(8) == 0x100
  {
    assert Pow2(4) == 16;
    assert Pow2(8) == 16 * Pow2(4) by { Pow2Add(4, 4); }
  }

  lemma Pow2Of16()
    ensures Pow2(16) == 0x1_0000
  {
    Pow2Of8();
    assert Pow2(16) == Pow2(8) * Pow2(8) by { Pow2Add(8, 8); }
  }

  lemma Pow2Of32()
    ensures Pow2(32) == 0x1_0000_0000
  {
    Pow2Of16();
    assert Pow2(32) == Pow2(16) * Pow2(16) by { Pow2Add(16, 16); }
  }

  lemma {:induction false} Pow2Add(m: nat, n: nat)
    ensures Pow2(m + n) == Pow2(m) * Pow2(n)
    decreases m
  {
    if m > 0 {
      Pow2Add(m - 1, n);
    }
  }

  lemma {:induction false} Pow2Monotone(m: nat, n: nat)
    ensures m <= n ==> Pow2(m) <= Pow2(n)
    ensures m < n ==> 2 * Pow2(m) <= Pow2(n)
    decreases n
  {
    if m < n {
      Pow2Monotone(m, n - 1);
    }
  }

  lemma Pow2AtMost32(k: nat)
    requires k <= 32
    ensures Pow2(k) <= 0x1_0000_0000
  {
    Pow2Of32();
    Pow2Monotone(k, 32);
  }

  /** Bitwise exclusive or, one binary digit at a time. */
  function Xor(a: nat, b: nat): nat
    decreases a + b
  {
    if a == 0 && b == 0 then 0
    else 2 * Xor(a / 2, b / 2) + (if a % 2 == b % 2 then 0 else 1)
  }

  /** Exclusive or of two 32-bit words, as a 32-bit word. */
  function Xor32(a: u32, b: u32): u32
  {
    Pow2Of32();
    XorBound(a, b, 32);
    Xor(a, b)
  }

  /** Shift right by n binary digits (`x >> n`). */
  function Shr(x: nat, n: nat): nat
    decreases n, x
  {
    if n == 0 then x else Shr(x / 2, n - 1)
  }

  /** Shift left by n binary digits, with no bound on the width. */
  function Shl(x: nat, n: nat): nat
    decreases n, x
  {
    if n == 0 then x else 2 * Shl(x, n - 1)
  }

  /** The lowest n binary digits: `x as u16` for n = 16, `x as u8` for n = 8. */
  function Low(x: nat, n: nat): nat
    decreases n, x
  {
    if n == 0 then 0 else 2 * Low(x / 2, n - 1) + x % 2
  }

  /** The lowest digit of an exclusive or, and the rest of it. */
  lemma XorDigits(a: nat, b: nat)
    ensures Xor(a, b) % 2 == (if a % 2 == b % 2 then 0 else 1)
    ensures Xor(a, b) / 2 == Xor(a / 2, b / 2)
  {
  }

  /** Two numbers with the same lowest digit and the same higher digits are equal. */
  lemma DigitsEqual(x: nat, y: nat)
    requires x % 2 == y % 2 && x / 2 == y / 2
    ensures x == y
  {
  }

  /** The lowest digit and the rest of a number given as 2t + c. */
  lemma Halves(y: nat, t: nat, c: nat)
    requires y == 2 * t + c && c < 2
    ensures y % 2 == c && y / 2 == t
  {
  }

  lemma {:induction false} XorZero(a: nat)
    ensures Xor(a, 0) == a
    ensures Xor(0, a) == a
    decreases a
  {
    if a > 0 {
      XorZero(a / 2);
    }
  }

  lemma {:induction false} XorSelf(a: nat)
    ensures Xor(a, a) == 0
    decreases a
  {
    if a > 0 {
      XorSelf(a / 2);
    }
  }

  lemma {:induction false} XorComm(a: nat, b: nat)
    ensures Xor(a, b) == Xor(b, a)
    decreases a + b
  {
    if a != 0 || b != 0 {
      XorComm(a / 2, b / 2);
    }
  }

  lemma {:induction false} XorAssoc(a: nat, b: nat, c: nat)
    ensures Xor(Xor(a, b), c) == Xor(a, Xor(b, c))
    decreases a + b + c
  {
    if a != 0 || b != 0 || c != 0 {
      XorAssoc(a / 2, b / 2, c / 2);
      XorDigits(a, b);
      XorDigits(b, c);
      XorDigits(Xor(a, b), c);
      XorDigits(a, Xor(b, c));
      DigitsEqual(Xor(Xor(a, b), c), Xor(a, Xor(b, c)));
    } else {
      XorZero(0);
    }
  }

  /** Exclusive or within n binary digits stays within n binary digits. */
  lemma {:induction false} XorBound(a: nat, b: nat, n: nat)
    requires a < Pow2(n) && b < Pow2(n)
    ensures Xor(a, b) < Pow2(n)
    decreases n
  {
    if n == 0 {
      XorZero(0);
    } else {
      XorBound(a / 2, b / 2, n - 1);
      XorDigits(a, b);
    }
  }

  /** A truncation to n digits is below 2^n. */
  lemma {:induction false} LowBound(x: nat, n: nat)
    ensures Low(x, n) < Pow2(n)
    decreases n
  {
    if n > 0 {
      LowBound(x / 2, n - 1);
    }
  }

  /** A shift right never increases a number. */
  lemma {:induction false} ShrAtMost(x: nat, n: nat)
    ensures Shr(x, n) <= x
    decreases n
  {
    if n > 0 {
      ShrAtMost(x / 2, n - 1);
    }
  }

  /** A number splits into its low n digits and the digits above them. */
  lemma {:induction false} Split(x: nat, n: nat)
    ensures x == Low(x, n) + Shl(Shr(x, n), n)
    decreases n
  {
    if n > 0 {
      Split(x / 2, n - 1);
    }
  }

  /** Below bit n a low part, above it a high part of m digits: n + m digits in all. */
  lemma {:induction false} ShlBelow(lo: nat, hi: nat, n: nat, m: nat)
    requires lo < Pow2(n) && hi < Pow2(m)
    ensures lo + Shl(hi, n) < Pow2(n + m)
    decreases n
  {
    if n > 0 {
      ShlBelow(lo / 2, hi, n - 1, m);
    }
  }

  /** A byte shifted left by 8 is the byte times 0x100. */
  lemma ShlByte(b: nat)
    ensures Shl(b, 8) == 0x100 * b
  {
    assert Shl(b, 1) == 2 * b;
    assert Shl(b, 2) == 4 * b;
    assert Shl(b, 3) == 8 * b;
    assert Shl(b, 4) == 16 * b;
    assert Shl(b, 5) == 32 * b;
    assert Shl(b, 6) == 64 * b;
    assert Shl(b, 7) == 128 * b;
  }

  /** A number below 2^n is its own truncation and shifts out to zero. */
  lemma {:induction false} LowSmall(c: nat, n: nat)
    requires c < Pow2(n)
    ensures Low(c, n) == c && Shr(c, n) == 0
    decreases n
  {
    if n > 0 {
      LowSmall(c / 2, n - 1);
    }
  }

  /** A shift right distributes over exclusive or. */
  lemma {:induction false} XorShr(a: nat, b: nat, n: nat)
    ensures Shr(Xor(a, b), n) == Xor(Shr(a, n), Shr(b, n))
    decreases n
  {
    if n > 0 {
      XorDigits(a, b);
      XorShr(a / 2, b / 2, n - 1);
    }
  }

  /** A truncation to n binary digits distributes over exclusive or. */
  lemma {:induction false} XorLow(a: nat, b: nat, n: nat)
    ensures Low(Xor(a, b), n) == Xor(Low(a, n), Low(b, n))
    decreases n
  {
    if n == 0 {
      XorZero(0);
    } else {
      var x, la, lb := Xor(a, b), Low(a, n), Low(b, n);
      XorDigits(a, b);
      XorLow(a / 2, b / 2, n - 1);
      Halves(la, Low(a / 2, n - 1), a % 2);
      Halves(lb, Low(b / 2, n - 1), b % 2);
      Halves(Low(x, n), Low(x / 2, n - 1), x % 2);
      XorDigits(la, lb);
      DigitsEqual(Low(x, n), Xor(la, lb));
    }
  }

  /**
   * When the low part fits below bit n, exclusive or with a number shifted
   * left by n adds: the two have no binary digit in common.
   */
  lemma {:induction false} XorDisjoint(lo: nat, hi: nat, n: nat)
    requires lo < Pow2(n)
    ensures Xor(lo, Shl(hi, n)) == lo + Shl(hi, n)
    decreases n
  {
    if n == 0 {
      XorZero(hi);
    } else {
      var up := Shl(hi, n);
      var half := Shl(hi, n - 1);
      Halves(up, half, 0);
      Halves(lo + up, lo / 2 + half, lo % 2);
      XorDisjoint(lo / 2, hi, n - 1);
      XorDigits(lo, up);
      DigitsEqual(Xor(lo, up), lo + up);
    }
  }

  /** Exclusive or with n one-digits complements a number of n digits. */
  lemma {:induction false} XorOnes(x: nat, n: nat)
    requires x < Pow2(n)
    ensures Xor(x, Pow2(n) - 1) == Pow2(n) - 1 - x
    decreases n
  {
    if n == 0 {
      XorZero(0);
    } else {
      var p := Pow2(n - 1);
      Halves(Pow2(n) - 1, p - 1, 1);
      Halves(Pow2(n) - 1 - x, p - 1 - x / 2, 1 - x % 2);
      XorOnes(x / 2, n - 1);
      XorDigits(x, Pow2(n) - 1);
      DigitsEqual(Xor(x, Pow2(n) - 1), Pow2(n) - 1 - x);
    }
  }
}
