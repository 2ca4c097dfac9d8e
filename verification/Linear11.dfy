/**
 The PMBus LINEAR11 format (section 7.1 of the PMBus specification, part II) and the drivers' two
 decoders of it, in the C integers they use.
 */
module Linear11 {
  import opened Bits
  import opened Modular

  type u16 = x: int | 0 <= x < 0x10000

  // ----- C arithmetic ------------------------------------------------------------------------

  predicate InInt32(x: int) {
    -0x8000_0000 <= x < 0x8000_0000
  }

  /** The `int` with the same low 32 bits. */
  function Wrap32(x: int): (r: int)
    ensures InInt32(r) && (InInt32(x) ==> r == x)
  {
    (x + 0x8000_0000) % 0x1_0000_0000 - 0x8000_0000
  }

  /** Division of C, towards zero, by a positive number. */
  function TruncDiv(a: int, b: int): int
    requires b > 0
  {
    if a >= 0 then a / b else -((-a) / b)
  }

  /** `~v & mask` */
  function AndNot(v: nat, mask: nat): nat {
    if mask == 0 then 0 else 2 * AndNot(v / 2, mask / 2) + (1 - v % 2) * (mask % 2)
  }

  lemma {:induction false} AndNotMask(v: nat, n: nat)
    requires v < Pow2(n)
    ensures AndNot(v, Pow2(n) - 1) == Pow2(n) - 1 - v
  {
    if n > 0 {
      AndNotMask(v / 2, n - 1);
      assert (Pow2(n) - 1) / 2 == Pow2(n - 1) - 1 && (Pow2(n) - 1) % 2 == 1;
    }
  }

  function TwoComplementToInt(data: nat, validBit: nat, mask: nat): int
    requires validBit > 0
  {
    var validData := And(data, mask);
    if validData / Pow2(validBit - 1) != 0 then -(AndNot(validData, mask) + 1) else validData
  }

  /** The two's-complement value of `n` bits: the number of their residue in the signed range. */
  predicate IsSigned(r: int, data: nat, half: int) {
    half > 0 && -half <= r < half && r % (2 * half) == data % (2 * half)
  }

  lemma SignedIsUnique(r: int, s: int, data: nat, half: int)
    requires IsSigned(r, data, half) && IsSigned(s, data, half)
    ensures r == s
  {
    ResidueIsUnique(r, s, 2 * half);
  }

  lemma UpperHalf(v: nat, half: nat)
    requires half > 0 && v < 2 * half
    ensures v / half != 0 <==> v >= half
    ensures v % (2 * half) == v == (v - 2 * half) % (2 * half)
  {
    WrapOnce(v, 2 * half);
    WrapOnce(v - 2 * half, 2 * half);
    DivMod(v, half);
    var q := v / half;
    assert (q >= 1 ==> q * half >= half) && (q <= 0 ==> q * half <= 0);
  }

  /** With a mask of as many ones as valid bits, at every width, the decoder is two's complement. */
  lemma TwoComplementIsSigned(data: nat, n: nat)
    requires n > 0
    ensures IsSigned(TwoComplementToInt(data, n, Pow2(n) - 1), data, Pow2(n - 1))
  {
    hide And, AndNot;
    var half := Pow2(n - 1);
    assert Pow2(n) == 2 * half;
    AndMask(data, n);
    var v := data % Pow2(n);
    AndNotMask(v, n);
    UpperHalf(v, half);
  }

  lemma TwoComplementRoundTrip(r: int, n: nat)
    requires n > 0
    ensures var half: int := Pow2(n - 1);
            -half <= r < half ==> TwoComplementToInt(r % Pow2(n), n, Pow2(n) - 1) == r
  {
    hide TwoComplementToInt;
    var half: int := Pow2(n - 1);
    assert Pow2(n) == 2 * half;
    var data := r % Pow2(n);
    if -half <= r < half {
      TwoComplementIsSigned(data, n);
      assert data % (2 * half) == data by {
        WrapOnce(data, 2 * half);
      }
      SignedIsUnique(r, TwoComplementToInt(data, n, Pow2(n) - 1), data, half);
    }
  }

  // ----- The format --------------------------------------------------------------------------

  function Exponent(word: u16): (e: int)
    ensures -16 <= e < 16
  {
    var n := word / 2048;
    if n < 16 then n else n - 32
  }

  function Mantissa(word: u16): (m: int)
    ensures -1024 <= m < 1024
  {
    var y := word % 2048;
    if y < 1024 then y else y - 2048
  }

  /** Two to the power of `e`. */
  function Scale(e: int): (r: real)
    ensures r > 0.0
    decreases if e < 0 then -e else e
  {
    if e == 0 then 1.0 else if e > 0 then 2.0 * Scale(e - 1) else Scale(e + 1) / 2.0
  }

  /** The number that a word of the format stands for. */
  function Meaning(word: u16): real {
    Mantissa(word) as real * Scale(Exponent(word))
  }

  /** `x` without its fraction. */
  predicate IsTruncation(n: int, x: real) {
    if x >= 0.0 then n as real <= x < (n + 1) as real else (n - 1) as real < x <= n as real
  }

  // ----- The decoder of dps850 ---------------------------------------------------------------

  /** What a mantissa and an exponent are printed as, in `int` arithmetic throughout. */
  function Printed(mantissa: int, exponent: int, multiplier: int): int {
    if exponent >= 0 then Wrap32(Wrap32(mantissa * Pow2(exponent)) * multiplier)
    else TruncDiv(Wrap32(mantissa * multiplier), Pow2(-exponent))
  }

  function Linear(word: u16, multiplier: int): int {
    Printed(TwoComplementToInt(And(word, 0x7ff), 11, 0x7ff), TwoComplementToInt(word / 2048, 5, 0x1f), multiplier)
  }

  lemma FieldsOfWord(word: u16)
    ensures TwoComplementToInt(word / 2048, 5, 0x1f) == Exponent(word)
    ensures TwoComplementToInt(And(word, 0x7ff), 11, 0x7ff) == Mantissa(word)
  {
    hide TwoComplementToInt, And;
    AndMask(word, 11);
    TwoComplementIsSigned(word / 2048, 5);
    TwoComplementIsSigned(word % 2048, 11);
    assert IsSigned(Exponent(word), word / 2048, 16);
    assert IsSigned(Mantissa(word), word % 2048, 1024);
    SignedIsUnique(TwoComplementToInt(word / 2048, 5, 0x1f), Exponent(word), word / 2048, 16);
    SignedIsUnique(TwoComplementToInt(word % 2048, 11, 0x7ff), Mantissa(word), word % 2048, 1024);
  }

  lemma {:induction false} ScaleIsPow2(e: int)
    requires e >= 0
    ensures Scale(e) == Pow2(e) as real
    ensures Scale(-e) * Pow2(e) as real == 1.0
  {
    if e > 0 {
      ScaleIsPow2(e - 1);
      assert Scale(-e) * Pow2(e) as real == Scale(-(e - 1)) / 2.0 * (2.0 * Pow2(e - 1) as real);
    }
  }

  /** Division of C by a power of two is truncation of the real quotient. */
  lemma TruncDivIsTruncation(a: int, q: int, x: real)
    requires q > 0 && x * q as real == a as real
    ensures IsTruncation(TruncDiv(a, q), x)
  {
  }

  lemma WholeIsTruncation(n: int, p: int)
    ensures IsTruncation(n, p as real) <==> n == p
  {
  }

  lemma WrapKeepsIff(x: int)
    ensures Wrap32(x) == x <==> InInt32(x)
  {
  }

  /** The condition under which the last multiplication of a decoder stays within 32 bits. */
  predicate Fits(m: int, e: int, multiplier: int) {
    e >= 0 ==> InInt32(m * Pow2(e) * multiplier)
  }

  /** Unless the first step overflows, the printed number is exact if and only if the last one does not. */
  lemma PrintedIsExactIff(m: int, e: int, k: int, v: real)
    requires v == m as real * Scale(e)
    requires if e >= 0 then InInt32(m * Pow2(e)) else InInt32(m * k)
    ensures IsTruncation(Printed(m, e, k), k as real * v) <==> Fits(m, e, k)
  {
    hide Wrap32, InInt32, IsTruncation, TruncDiv, Scale, Pow2;
    var x := k as real * v;
    if e >= 0 {
      ScaleIsPow2(e);
      var p := m * Pow2(e) * k;
      assert x == p as real by {
        assert m as real * Pow2(e) as real == (m * Pow2(e)) as real;
        assert (m * Pow2(e)) as real * k as real == p as real;
      }
      WholeIsTruncation(Wrap32(p), p);
      WrapKeepsIff(m * Pow2(e));
      WrapKeepsIff(p);
    } else {
      ScaleIsPow2(-e);
      var q := Pow2(-e);
      assert x * q as real == (m * k) as real by {
        assert x * q as real == k as real * m as real * (Scale(e) * q as real);
        assert k as real * m as real == (m * k) as real;
      }
      WrapKeepsIff(m * k);
      TruncDivIsTruncation(m * k, q, x);
    }
  }

  lemma ProductBound(m: int, a: int, p: int, b: int)
    requires -a <= m <= a && 0 <= p <= b
    ensures -(a * b) <= m * p <= a * b
  {
  }

  lemma PowersUsed()
    ensures Pow2(0) == 1 && Pow2(4) == 16 && Pow2(5) == 32 && Pow2(11) == 2048 && Pow2(12) == 4096
    ensures Pow2(15) == 0x8000 && Pow2(16) == 0x10000
  {
  }

  /** A mantissa of 16 bits or less can be shifted by an exponent of the format. */
  lemma ShiftFits(m: int, e: nat)
    requires -0x10000 < m < 0x10000 && e < 16
    ensures InInt32(m * Pow2(e))
  {
    hide Pow2;
    PowersUsed();
    Pow2Monotone(e, 15);
    ProductBound(m, 0xFFFF, Pow2(e), 0x8000);
  }

  lemma LinearUsesFields(word: u16, multiplier: int)
    ensures Linear(word, multiplier) == Printed(Mantissa(word), Exponent(word), multiplier)
  {
    hide Printed, TwoComplementToInt, And, Exponent, Mantissa;
    FieldsOfWord(word);
  }

  /** The number shown is the stated multiple of the word's meaning, truncated, unless 32 bits overflow. */
  lemma LinearIsExactIff(word: u16, multiplier: int)
    requires multiplier == 1 || multiplier == 1000
    ensures IsTruncation(Linear(word, multiplier), multiplier as real * Meaning(word))
       <==> Fits(Mantissa(word), Exponent(word), multiplier)
  {
    hide Linear, Printed, Scale, IsTruncation, Pow2, Exponent, Mantissa;
    var m, e := Mantissa(word), Exponent(word);
    LinearUsesFields(word, multiplier);
    if e >= 0 {
      ShiftFits(m, e);
    } else {
      assert multiplier == 1 ==> m * multiplier == m;
      assert multiplier == 1000 ==> m * multiplier == m * 1000;
    }
    PrintedIsExactIff(m, e, multiplier, Meaning(word));
  }

  /** It never overflows up to exponent 11, nor at any exponent for a fan speed. */
  lemma LinearIsExactUpToEleven(word: u16, multiplier: int)
    requires multiplier == 1 || multiplier == 1000
    requires multiplier == 1 || Exponent(word) <= 11
    ensures IsTruncation(Linear(word, multiplier), multiplier as real * Meaning(word))
  {
    hide Linear, Printed, Scale, IsTruncation, Meaning, Pow2, Exponent, Mantissa;
    LinearIsExactIff(word, multiplier);
    var m, e := Mantissa(word), Exponent(word);
    if multiplier == 1000 && e >= 0 {
      PowersUsed();
      Pow2Monotone(e, 11);
      ProductBound(m, 1024, Pow2(e), 2048);
    } else if e >= 0 {
      ShiftFits(m, e);
    }
  }

  /** At exponent 12 a large reading is shown as a negative number. */
  lemma LinearOverflows()
    ensures Meaning(0x63FF) == 4190208.0 && Linear(0x63FF, 1000) == -104_759_296
  {
    hide Linear, Scale, Pow2;
    LinearUsesFields(0x63FF, 1000);
    PowersUsed();
    ScaleIsPow2(12);
  }

  // ----- The output voltage ------------------------------------------------------------------

  /** The output voltage has a 16-bit unsigned mantissa, and its exponent in another register. */
  function Vout(mode: nat, word: u16): int {
    var exponent := TwoComplementToInt(mode, 5, 0x1f);
    if exponent > 0 then Wrap32(Wrap32(word * Pow2(exponent)) * 1000)
    else if -16 <= exponent then TruncDiv(Wrap32(word * 1000), Pow2(-exponent)) else 0
  }

  lemma VoutIsExactIff(mode: nat, word: u16, e: int)
    requires IsSigned(e, mode, 16)
    ensures IsTruncation(Vout(mode, word), 1000.0 * (word as real * Scale(e))) <==> Fits(word, e, 1000)
  {
    hide Scale, IsTruncation, TwoComplementToInt, Pow2;
    PowersUsed();
    TwoComplementIsSigned(mode, 5);
    SignedIsUnique(TwoComplementToInt(mode, 5, 0x1f), e, mode, 16);
    if e >= 0 {
      ShiftFits(word, e);
    }
    PrintedIsExactIff(word, e, 1000, word as real * Scale(e));
  }
}
