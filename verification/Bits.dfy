/** Exclusive-or of unsigned integers, by their binary expansions. Shifting right by k
    is division by 2^k and masking the low k bits is the remainder. */
module Bits {

  function Pow2(k: nat): (p: nat)
    ensures p > 0
  {
    if k == 0 then 1 else 2 * Pow2(k - 1)
  }

  function Xor(a: nat, b: nat): nat
    decreases a + b
  {
    if a == 0 && b == 0 then 0 else 2 * Xor(a / 2, b / 2) + (if a % 2 == b % 2 then 0 else 1)
  }

  lemma XorHalf(a: nat, b: nat)
    ensures Xor(a, b) / 2 == Xor(a / 2, b / 2)
    ensures Xor(a, b) % 2 == if a % 2 == b % 2 then 0 else 1
  {
  }

  lemma {:induction false} XorZero(a: nat)
    ensures Xor(a, 0) == a
  {
    if a > 0 {
      XorZero(a / 2);
    }
  }

  lemma {:induction false} XorSelf(a: nat)
    ensures Xor(a, a) == 0
  {
    if a > 0 {
      XorSelf(a / 2);
    }
  }

  lemma {:induction false} XorCommutes(a: nat, b: nat)
    ensures Xor(a, b) == Xor(b, a)
    decreases a + b
  {
    if a + b > 0 {
      XorCommutes(a / 2, b / 2);
    }
  }

  lemma SameBits(x: nat, y: nat)
    requires x / 2 == y / 2 && x % 2 == y % 2
    ensures x == y
  {
  }

  lemma {:induction false} XorAssociates(a: nat, b: nat, c: nat)
    ensures Xor(Xor(a, b), c) == Xor(a, Xor(b, c))
    decreases a + b + c
  {
    if a + b + c > 0 {
      var ab, bc := Xor(a, b), Xor(b, c);
      XorHalf(a, b);
      XorHalf(b, c);
      XorAssociates(a / 2, b / 2, c / 2);
      XorHalf(ab, c);
      XorHalf(a, bc);
      SameBits(Xor(ab, c), Xor(a, bc));
    }
  }

  lemma XorSwap(a: nat, b: nat, c: nat, d: nat)
    ensures Xor(Xor(a, b), Xor(c, d)) == Xor(Xor(a, c), Xor(b, d))
  {
    calc {
      Xor(Xor(a, b), Xor(c, d));
      { XorAssociates(a, b, Xor(c, d)); }
      Xor(a, Xor(b, Xor(c, d)));
      { XorAssociates(b, c, d); XorCommutes(b, c); XorAssociates(c, b, d); }
      Xor(a, Xor(c, Xor(b, d)));
      { XorAssociates(a, c, Xor(b, d)); }
      Xor(Xor(a, c), Xor(b, d));
    }
  }

  lemma XorCancels(a: nat, b: nat, c: nat)
    requires Xor(a, c) == Xor(b, c)
    ensures a == b
  {
    XorAssociates(a, c, c);
    XorAssociates(b, c, c);
    XorSelf(c);
    XorZero(a);
    XorZero(b);
  }

  lemma {:induction false} XorBound(a: nat, b: nat, k: nat)
    requires a < Pow2(k) && b < Pow2(k)
    ensures Xor(a, b) < Pow2(k)
  {
    if k > 0 {
      XorBound(a / 2, b / 2, k - 1);
    }
  }

  /** Xor with a number whose top bit is bit k sets bit k. */
  lemma {:induction false} XorTop(a: nat, b: nat, k: nat)
    requires a < Pow2(k) <= b < Pow2(k + 1)
    ensures Xor(a, b) >= Pow2(k)
  {
    if k > 0 {
      XorTop(a / 2, b / 2, k - 1);
    }
  }

  function Shl(a: nat, k: nat): nat
    decreases k
  {
    if k == 0 then a else 2 * Shl(a, k - 1)
  }

  /** Xor of numbers without common bits is their sum. */
  lemma {:induction false} XorDisjoint(h: nat, l: nat, k: nat)
    requires l < Pow2(k)
    ensures Xor(Shl(h, k), l) == Shl(h, k) + l
    decreases k
  {
    if k == 0 {
      XorZero(h);
    } else {
      XorDisjoint(h, l / 2, k - 1);
      XorHalf(Shl(h, k), l);
      SameBits(Xor(Shl(h, k), l), Shl(h, k) + l);
    }
  }

  lemma {:induction false} XorShl(a: nat, b: nat, k: nat)
    ensures Xor(Shl(a, k), Shl(b, k)) == Shl(Xor(a, b), k)
    decreases k
  {
    if k > 0 {
      XorShl(a, b, k - 1);
    }
  }

  /** Xor works on the low k bits and on the rest separately. */
  lemma XorSplit(ah: nat, al: nat, bh: nat, bl: nat, k: nat)
    requires al < Pow2(k) && bl < Pow2(k)
    ensures Xor(al, bl) < Pow2(k)
    ensures Xor(Shl(ah, k) + al, Shl(bh, k) + bl) == Shl(Xor(ah, bh), k) + Xor(al, bl)
  {
    XorDisjoint(ah, al, k);
    XorDisjoint(bh, bl, k);
    XorSwap(Shl(ah, k), al, Shl(bh, k), bl);
    XorShl(ah, bh, k);
    XorBound(al, bl, k);
    XorDisjoint(Xor(ah, bh), Xor(al, bl), k);
  }

  lemma Shl8(a: nat)
    ensures Shl(a, 8) == 256 * a
    ensures Pow2(8) == 256
  {
  }

  lemma XorBytewise(ah: nat, al: nat, bh: nat, bl: nat)
    requires al < 256 && bl < 256
    ensures Xor(al, bl) < 256
    ensures Xor(256 * ah + al, 256 * bh + bl) == 256 * Xor(ah, bh) + Xor(al, bl)
  {
    Shl8(ah);
    Shl8(bh);
    Shl8(Xor(ah, bh));
    XorSplit(ah, al, bh, bl, 8);
  }
}
