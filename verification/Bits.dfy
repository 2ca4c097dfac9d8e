/** Bit operations of C on unsigned numbers, digit by digit. */
module Bits {

  function Pow2(n: nat): (p: nat)
    ensures p > 0
  {
    if n == 0 then 1 else 2 * Pow2(n - 1)
  }

  lemma Pow2Monotone(m: nat, n: nat)
    requires m <= n
    ensures Pow2(m) <= Pow2(n)
  {
  }

  /** `w & (1 << i)`, as a truth value. */
  predicate TestBit(w: nat, i: nat)
    decreases i
  {
    if i == 0 then w % 2 == 1 else TestBit(w / 2, i - 1)
  }

  /** `w | (1 << i)` */
  function SetBit(w: nat, i: nat): nat
    decreases i
  {
    if i == 0 then w - w % 2 + 1 else 2 * SetBit(w / 2, i - 1) + w % 2
  }

  /** `w & ~(1 << i)` */
  function ClearBit(w: nat, i: nat): nat
    decreases i
  {
    if i == 0 then w - w % 2 else 2 * ClearBit(w / 2, i - 1) + w % 2
  }

  lemma NoBits(i: nat)
    ensures !TestBit(0, i)
    decreases i
  {
  }

  /** `1 << i` has bit `i` and no other. */
  lemma OneBit(i: nat, j: nat)
    ensures TestBit(SetBit(0, i), j) <==> i == j
  {
    SetBitMeaning(0, i, j);
    NoBits(j);
  }

  lemma {:induction false} SetBitMeaning(w: nat, i: nat, j: nat)
    ensures TestBit(SetBit(w, i), j) <==> i == j || TestBit(w, j)
    decreases i
  {
    if i > 0 && j > 0 {
      SetBitMeaning(w / 2, i - 1, j - 1);
    }
  }

  lemma {:induction false} ClearBitMeaning(w: nat, i: nat, j: nat)
    ensures TestBit(ClearBit(w, i), j) <==> i != j && TestBit(w, j)
    decreases i
  {
    if i > 0 && j > 0 {
      ClearBitMeaning(w / 2, i - 1, j - 1);
    }
  }

  /** The bits are the binary digits, */
  lemma {:induction false} BitIsDigit(h: nat, l: nat, i: nat)
    requires l < Pow2(i)
    ensures TestBit(h * Pow2(i) + l, i) <==> h % 2 == 1
    decreases i
  {
    if i > 0 {
      HalveSum(h, i, l);
      BitIsDigit(h, l / 2, i - 1);
    }
  }

  /** and setting or clearing one adds or takes away its power of two. */
  lemma {:induction false} SetBitValue(w: nat, i: nat)
    ensures SetBit(w, i) == if TestBit(w, i) then w else w + Pow2(i)
    ensures ClearBit(w, i) == if TestBit(w, i) then w - Pow2(i) else w
    decreases i
  {
    if i > 0 {
      SetBitValue(w / 2, i - 1);
    }
  }

  /** `(w & mask) == mask` for the mask of `n` ones from bit `from` on. */
  predicate AllSet(w: nat, from: nat, n: nat) {
    forall i :: from <= i < from + n ==> TestBit(w, i)
  }

  /** `a & b` */
  function And(a: nat, b: nat): nat {
    if a == 0 then 0 else 2 * And(a / 2, b / 2) + (a % 2) * (b % 2)
  }

  /** `a ^ b` */
  function Xor(a: nat, b: nat): nat
    decreases a + b
  {
    if a == 0 && b == 0 then 0 else 2 * Xor(a / 2, b / 2) + if a % 2 == b % 2 then 0 else 1
  }

  lemma HalveSum(h: nat, n: nat, l: nat)
    requires n > 0
    ensures (h * Pow2(n) + l) / 2 == h * Pow2(n - 1) + l / 2
    ensures (h * Pow2(n) + l) % 2 == l % 2
  {
  }

  /** Masking with `n` ones keeps the low `n` digits. */
  lemma {:induction false} AndLowOnes(h: nat, l: nat, n: nat)
    requires l < Pow2(n)
    ensures And(h * Pow2(n) + l, Pow2(n) - 1) == l
    decreases n
  {
    if n == 0 {
      AndZero(h);
    } else {
      HalveSum(h, n, l);
      AndLowOnes(h, l / 2, n - 1);
    }
  }

  lemma AndZero(a: nat)
    ensures And(a, 0) == 0
  {
  }

  lemma DivMod(x: nat, p: nat)
    requires p > 0
    ensures x == (x / p) * p + x % p
  {
  }

  lemma AndMask(x: nat, n: nat)
    ensures And(x, Pow2(n) - 1) == x % Pow2(n)
  {
    hide And, Pow2;
    DivMod(x, Pow2(n));
    AndLowOnes(x / Pow2(n), x % Pow2(n), n);
  }

  lemma XorHalves(a: nat, b: nat)
    ensures Xor(a, b) == 2 * Xor(a / 2, b / 2) + if a % 2 == b % 2 then 0 else 1
  {
  }

  /** Exclusive or with `n` ones complements the low `n` digits. */
  lemma {:induction false} XorLowOnes(h: nat, l: nat, n: nat)
    requires l < Pow2(n)
    ensures Xor(h * Pow2(n) + l, Pow2(n) - 1) == h * Pow2(n) + (Pow2(n) - 1 - l)
    decreases n
  {
    hide Xor;
    if n == 0 {
      XorZero(h);
    } else {
      HalveSum(h, n, l);
      XorHalves(h * Pow2(n) + l, Pow2(n) - 1);
      XorLowOnes(h, l / 2, n - 1);
      assert h * Pow2(n) == 2 * (h * Pow2(n - 1));
    }
  }

  lemma XorZero(a: nat)
    ensures Xor(a, 0) == a
  {
  }
}
