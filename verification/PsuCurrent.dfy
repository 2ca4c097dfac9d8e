/** The hardware monitor's own decoder of an output current in the LINEAR11 format. */
module PsuCurrent {
  import opened Bits
  import opened Linear11

  /** What is printed: one number, or a number with four decimal digits. */
  datatype Reading = Whole(n: int) | Decimal(n: int, ten_thousandths: int)

  lemma QuotientIsUnique(x: int, q: int, t: int)
    requires t > 0 && q * t <= x < (q + 1) * t
    ensures x / t == q && x % t == x - q * t
  {
    var d, r := x / t - q, x % t;
    assert x == x / t * t + r;
    assert d * t == x - q * t - r;
    assert (d >= 1 ==> d * t >= t) && (d <= -1 ==> d * t <= -t);
  }

  lemma DivideSum(a: nat, b: nat, t: nat)
    requires t > 0
    ensures (a * t + b) / t == a + b / t
  {
    DivMod(b, t);
    QuotientIsUnique(a * t + b, a + b / t, t);
  }

  /** Scaling the quotient and the remainder apart, as the decoder does, loses nothing. */
  lemma MixedDivision(n: nat, k: nat, t: nat)
    requires t > 0
    ensures n / t * k + n % t * k / t == n * k / t
  {
    var q, r := n / t, n % t;
    DivMod(n, t);
    assert n * k == q * k * t + r * k;
    DivideSum(q * k, r * k, t);
  }

  lemma FractionIsSmall(r: nat, k: nat, t: nat)
    requires r < t && k > 0
    ensures r * k / t < k
  {
  }

  lemma Digits(q: nat, f: nat, k: nat)
    requires f < k
    ensures (q * k + f) / k == q && (q * k + f) % k == f
  {
    QuotientIsUnique(q * k + f, q, k);
  }

  lemma FractionDigits(n: nat, k: nat, t: nat)
    requires t > 0 && k > 0
    ensures n * k / t / k == n / t && n * k / t % k == n % t * k / t
  {
    MixedDivision(n, k, t);
    FractionIsSmall(n % t, k, t);
    Digits(n / t, n % t * k / t, k);
  }

  // ----- The decoder -------------------------------------------------------------------------

  /** The decoder as one division, which reads the mantissa as unsigned. */
  function Iout(value: u16, milli: bool): Reading {
    var y, e := value % 2048, Exponent(value);
    if e < 0 && y != 0 then
      if milli then Whole(y * 1000 / Pow2(-e))
      else var x := y * 10000 / Pow2(-e); Decimal(x / 10000, x % 10000)
    else if e < 0 then Whole(0)
    else Whole(Wrap32(y * Pow2(e) * if milli then 1000 else 1))
  }

  /** The fields as the decoder takes them out; `~n + 1` negates in 8 bits. */
  lemma FieldsTaken(value: u16)
    ensures And(value, 0x07FF) == value % 2048
    ensures TestBit(value, 15) <==> Exponent(value) < 0
    ensures var n := And(value / 2048, 0x0F);
            Exponent(value) == if TestBit(value, 15) then -((255 - (0xF0 + n) + 1) % 256) else n
  {
    hide And, TestBit, Pow2;
    PowersUsed();
    AndMask(value, 11);
    AndMask(value / 2048, 4);
    DivMod(value, 0x8000);
    BitIsDigit(value / 0x8000, value % 0x8000, 15);
  }

  lemma WrapTwice(x: int)
    ensures Wrap32(x % 0x1_0000_0000) == Wrap32(x)
  {
  }

  method ShowPsuIout(present: bool, value: u16, milli: bool) returns (r: Reading)
    ensures r == if present then Iout(value, milli) else Whole(0)
  {
    hide And, TestBit, Pow2, Exponent, Wrap32;
    if !present {
      return Whole(0);
    }
    FieldsTaken(value);
    var valueY := And(value, 0x07FF);
    if TestBit(value, 15) && valueY != 0 {
      var valueN := 0xF0 + And(value / 2048, 0x0F);
      valueN := (255 - valueN + 1) % 256;
      r := ShowQuotient(valueY, Pow2(valueN), milli);
    } else {
      var valueN := And(value / 2048, 0x0F);
      var temp := valueY * Pow2(valueN);
      if milli {
        WrapTwice(temp * 1000);
        temp := temp * 1000 % 0x1_0000_0000;
      }
      r := Whole(Wrap32(temp));
    }
  }

  method ShowQuotient(y: nat, temp: nat, milli: bool) returns (r: Reading)
    requires temp > 0
    ensures r == if milli then Whole(y * 1000 / temp)
                 else Decimal(y * 10000 / temp / 10000, y * 10000 / temp % 10000)
  {
    if milli {
      MixedDivision(y, 1000, temp);
      r := Whole(y / temp * 1000 + y % temp * 1000 / temp);
    } else {
      FractionDigits(y, 10000, temp);
      r := Decimal(y / temp, y % temp * 10000 / temp);
    }
  }

  // ----- What is printed, in real numbers ----------------------------------------------------

  /** What the decoder takes a word for: the mantissa without its sign. */
  function UnsignedMeaning(value: u16): real {
    (value % 2048) as real * Scale(Exponent(value))
  }

  /** The digits of a quotient: its whole part, and the next four decimal digits. */
  lemma DigitsOfQuotient(y: nat, q: nat, x: real)
    requires q > 0 && x * q as real == y as real
    ensures y * 10000 / q % 10000 == y * 10000 / q - y * 10000 / q / 10000 * 10000
    ensures IsTruncation(y * 10000 / q, 10000.0 * x) && IsTruncation(y * 10000 / q / 10000, x)
    ensures IsTruncation(y * 1000 / q, 1000.0 * x)
  {
    TruncDivIsTruncation(y * 10000, q, 10000.0 * x);
    TruncDivIsTruncation(y * 1000, q, 1000.0 * x);
    FractionDigits(y, 10000, q);
    TruncDivIsTruncation(y, q, x);
  }

  /**
   The milliampere form is a thousand times this number and the plain form the number itself, both truncated
   unless 32 bits overflow; the decimal form is the number to four decimal digits.
   */
  lemma IoutIsExactIff(value: u16, milli: bool)
    ensures var x := UnsignedMeaning(value);
            match Iout(value, milli)
            case Decimal(n, digits) =>
              !milli && 0 <= digits < 10000 && IsTruncation(n, x) && IsTruncation(n * 10000 + digits, 10000.0 * x)
            case Whole(n) =>
              IsTruncation(n, (if milli then 1000.0 else 1.0) * x)
              <==> Fits(value % 2048, Exponent(value), if milli then 1000 else 1)
  {
    hide Scale, Pow2, IsTruncation, Exponent, Wrap32, InInt32;
    var y, e := value % 2048, Exponent(value);
    if e >= 0 {
      ShiftFits(y, e);
      WrapKeepsIff(y * Pow2(e));
      PrintedIsExactIff(y, e, if milli then 1000 else 1, UnsignedMeaning(value));
    } else {
      ScaleIsPow2(-e);
      ScaledBack(y, Scale(e), Pow2(-e));
      DigitsOfQuotient(y, Pow2(-e), UnsignedMeaning(value));
      if y == 0 {
        WholeIsTruncation(0, 0);
      }
    }
  }

  lemma ScaledBack(y: int, s: real, p: int)
    requires s * p as real == 1.0
    ensures y as real * s * p as real == y as real
  {
  }

  // ----- Agreement ---------------------------------------------------------------------------

  lemma HalfOfMultiple(x: nat)
    requires 2 * x % 0x1_0000_0000 != 0
    ensures x % 0x1_0000_0000 != 0
  {
  }

  /** No power of two in reach makes up for the difference of the two readings of a mantissa. */
  lemma {:induction false} ReadingsStayApart(e: nat)
    requires e < 16
    ensures 2048000 * Pow2(e) % 0x1_0000_0000 != 0
    decreases 16 - e
  {
    if e == 15 {
      PowersUsed();
    } else {
      ReadingsStayApart(e + 1);
      HalfOfMultiple(2048000 * Pow2(e));
    }
  }

  lemma WrappedAlike(a: int, b: int)
    requires Wrap32(a) == Wrap32(b)
    ensures (a - b) % 0x1_0000_0000 == 0
  {
  }

  lemma AgreeOnProduct(y: nat, p: nat)
    requires y < 2048 && 2048000 * p % 0x1_0000_0000 != 0
    ensures Wrap32(y * p * 1000) == Wrap32((if y < 1024 then y else y - 2048) * p * 1000) <==> y < 1024
  {
    hide Wrap32;
    if y >= 1024 {
      var a := y * p;
      assert (y - 2048) * p == a - 2048 * p;
      if Wrap32(a * 1000) == Wrap32((y - 2048) * p * 1000) {
        WrappedAlike(a * 1000, (y - 2048) * p * 1000);
        assert false;
      }
    }
  }

  lemma AgreeOnShift(y: nat, e: nat)
    requires y < 2048 && e < 16
    ensures Wrap32(y * Pow2(e) * 1000) == Printed(if y < 1024 then y else y - 2048, e, 1000) <==> y < 1024
  {
    hide Pow2, Wrap32, InInt32;
    var m := if y < 1024 then y else y - 2048;
    ShiftFits(m, e);
    WrapKeepsIff(m * Pow2(e));
    ReadingsStayApart(e);
    AgreeOnProduct(y, Pow2(e));
  }

  lemma AgreeOnDivision(y: nat, q: nat)
    requires y < 2048 && 0 < q <= 0x10000
    ensures y * 1000 / q == TruncDiv((if y < 1024 then y else y - 2048) * 1000, q) <==> y < 1024
    ensures y == 0 ==> y * 1000 / q == 0
  {
  }

  /** The two drivers show the same number for a word exactly when its mantissa is not negative. */
  lemma DecodersAgreeIff(value: u16)
    ensures Iout(value, true) == Whole(Linear(value, 1000)) <==> value % 2048 < 1024
  {
    hide Linear, Pow2, TruncDiv, Wrap32, Exponent;
    LinearUsesFields(value, 1000);
    var y, e := value % 2048, Exponent(value);
    if e >= 0 {
      AgreeOnShift(y, e);
    } else {
      PowersUsed();
      Pow2Monotone(-e, 16);
      AgreeOnDivision(y, Pow2(-e));
      WrapKeepsIff(Mantissa(value) * 1000);
    }
  }
}
