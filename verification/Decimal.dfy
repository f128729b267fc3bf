/** Decimal numerals: the saturating reader and the printer. */
module Decimal {
  import opened Text
  import opened Ascii

  type U64 = n: nat | n < 0x1_0000_0000_0000_0000

  const DECIMAL_CAP: U64 := 4_294_967_295

  /** The saturating left fold. Its type is the proof that no step leaves the
      64-bit range. */
  function CappedFold(digits: Str): U64
    requires AllDigits(digits)
  {
    if digits == [] then 0
    else
      var acc := CappedFold(digits[..|digits| - 1]);
      if acc >= DECIMAL_CAP then DECIMAL_CAP else acc * 10 + (digits[|digits| - 1] - 48)
  }

  function ParseDecimal(raw: Str): Option<U64> {
    if raw == [] || !AllDigits(raw) then None else Some(CappedFold(raw))
  }

  function DigitValue(b: Byte): nat
    requires IsDigit(b)
  {
    b - 48
  }

  /** The number a digit run denotes. */
  function DecimalValue(digits: Str): nat
    requires AllDigits(digits)
  {
    if digits == [] then 0
    else DecimalValue(digits[..|digits| - 1]) * 10 + DigitValue(digits[|digits| - 1])
  }

  /** The decimal text of a number, without leading zeros. */
  function DecimalStr(n: nat): Str {
    if n < 10 then [48 + n] else DecimalStr(n / 10) + [48 + n % 10]
  }

  /** No leading zero, unless the numeral is a lone zero. */
  predicate Unpadded(digits: Str) {
    digits != [] && (|digits| > 1 ==> digits[0] != 48)
  }

  /** The reader refuses exactly what is not a run of digits. It is exact until the
      digits before the last one reach its cap, and from then on it answers the
      cap, so it is exact below the cap and at least the cap otherwise. */
  lemma {:induction false} ParseDecimalMeans(raw: Str)
    ensures ParseDecimal(raw).Some? <==> raw != [] && AllDigits(raw)
    ensures ParseDecimal(raw).Some? ==> ParseDecimal(raw).value == CappedFold(raw)
    ensures AllDigits(raw) ==>
              if DecimalValue(raw) < 4_294_967_295 then CappedFold(raw) == DecimalValue(raw)
              else CappedFold(raw) >= 4_294_967_295
    ensures AllDigits(raw) && raw != [] ==>
              CappedFold(raw) ==
              if DecimalValue(raw[..|raw| - 1]) < 4_294_967_295 then DecimalValue(raw) else 4_294_967_295
  {
    if raw != [] && AllDigits(raw) {
      ParseDecimalMeans(raw[..|raw| - 1]);
    }
  }

  /** Printing a number gives an unpadded numeral that denotes it. */
  lemma {:induction false} DecimalStrMeans(n: nat)
    ensures AllDigits(DecimalStr(n)) && Unpadded(DecimalStr(n))
    ensures DecimalValue(DecimalStr(n)) == n
    ensures n != 0 ==> DecimalStr(n)[0] != 48
  {
    if n < 10 {
      assert DecimalStr(n)[..0] == [];
    } else {
      DecimalStrMeans(n / 10);
      var s := DecimalStr(n);
      assert s[..|s| - 1] == DecimalStr(n / 10);
    }
  }

  lemma {:induction false} LeadingDigit(digits: Str)
    requires AllDigits(digits) && digits != [] && digits[0] != 48
    ensures DecimalValue(digits) > 0
  {
    if |digits| > 1 { LeadingDigit(digits[..|digits| - 1]); }
  }

  /** Reading an unpadded numeral and printing it gives it back. */
  lemma {:induction false} DecimalStrOf(digits: Str)
    requires AllDigits(digits) && Unpadded(digits)
    ensures DecimalStr(DecimalValue(digits)) == digits
  {
    var init, last := digits[..|digits| - 1], digits[|digits| - 1];
    assert digits == init + [last];
    if init == [] {
    } else {
      LeadingDigit(init);
      DecimalStrOf(init);
      var v := DecimalValue(init);
      assert DecimalValue(digits) == v * 10 + (last - 48) >= 10;
    }
  }

  /** Numerals of up to four digits, place by place. */
  lemma ShortNumeral(digits: Str)
    requires AllDigits(digits) && 1 <= |digits| <= 4
    ensures |digits| == 1 ==> DecimalValue(digits) == DigitValue(digits[0])
    ensures |digits| == 2 ==> DecimalValue(digits) == DigitValue(digits[0]) * 10 + DigitValue(digits[1])
    ensures |digits| == 3 ==>
              DecimalValue(digits) == DigitValue(digits[0]) * 100 + DigitValue(digits[1]) * 10 + DigitValue(digits[2])
    ensures |digits| == 4 ==>
              DecimalValue(digits) ==
              DigitValue(digits[0]) * 1000 + DigitValue(digits[1]) * 100 + DigitValue(digits[2]) * 10 + DigitValue(digits[3])
  {
    if |digits| == 1 {
      assert digits[..0] == [];
    } else {
      ShortNumeral(digits[..|digits| - 1]);
    }
  }

  /** A numeral of four digits or more that starts above zero is at least a
      thousand. */
  lemma {:induction false} LongNumeral(digits: Str)
    requires AllDigits(digits) && |digits| >= 4 && digits[0] != 48
    ensures DecimalValue(digits) >= 1000
  {
    if |digits| == 4 {
      ShortNumeral(digits);
    } else {
      LongNumeral(digits[..|digits| - 1]);
    }
  }
}
