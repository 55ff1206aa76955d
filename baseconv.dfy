/**
 * The digit converter of the current package: splitting a number into its
 * digits in a base, recombining digits into a number, and the largest number
 * a given count of digits can hold.
 */
module BaseConv {
  import opened Outcomes
  import opened Positional

  /** Accepts exactly the bases from 2 up; the error names the rejected base. */
  function ValidateBase(base: nat): (s: Status)
    ensures s == Ok <==> base >= 2
    ensures s != Ok ==> s == Fail(BaseTooSmall(base))
  {
    if base < 2 then Fail(BaseTooSmall(base)) else Ok
  }

  /**
   * The digits of `num` in `base`, most significant first. Zero is [0]; a
   * positive number gets exactly NumDigits(num, base) digits, filled in from
   * the highest power of the base down.
   */
  method FromBase10(num: nat, base: nat) returns (digits: seq<nat>, status: Status)
    ensures status == Ok <==> base >= 2
    ensures status != Ok ==> digits == [] && status == Fail(BaseTooSmall(base))
    ensures status == Ok ==> Canonical(digits, base) && Value(digits, base) == num
    ensures status == Ok && num > 0 ==> |digits| == NumDigits(num, base)
    ensures status == Ok ==> digits == Digits(num, base)
  {
    status := ValidateBase(base);
    if status != Ok {
      return [], status;
    }
    if num == 0 {
      return [0], Ok;
    }

    var numDigits := NumDigits(num, base);
    var newBaseDigits := new nat[numDigits];
    var rest: nat := num;
    for i := 0 to numDigits
      invariant rest < Pow(base, numDigits - i)
      invariant Value(newBaseDigits[..i], base) * Pow(base, numDigits - i) + rest == num
      invariant AllBelow(newBaseDigits[..i], base)
      invariant i > 0 ==> newBaseDigits[0] != 0
    {
      var exponent := numDigits - i - 1;
      var digitInBase10 := Pow(base, exponent);
      assert Pow(base, numDigits - i) == base * digitInBase10;
      ghost var before := newBaseDigits[..i];
      ExtractDigit(before, rest, base, digitInBase10, num);
      var digit: nat := rest / digitInBase10;
      newBaseDigits[i] := digit;
      rest := rest % digitInBase10;
      assert newBaseDigits[..i + 1] == before + [digit];
    }
    digits := newBaseDigits[..];
    assert digits == newBaseDigits[..numDigits];
    assert Pow(base, 0) == 1 && rest == 0;
    assert Value(digits, base) == num;
    DigitsOfValue(digits, base);
  }

  /**
   * The value of a digit sequence in `base`: the sum of digit[i] * base^(n-1-i).
   * Fails with result 0 on an invalid base or at the first digit that is not
   * below the base.
   */
  method ToBase10(num: seq<nat>, base: nat) returns (base10: nat, status: Status)
    ensures status == Ok <==> base >= 2 && AllBelow(num, base)
    ensures status == Ok ==> base10 == Value(num, base)
    ensures status != Ok ==> base10 == 0
    ensures base < 2 ==> status == Fail(BaseTooSmall(base))
    ensures base >= 2 && status != Ok ==>
      exists k :: 0 <= k < |num| && num[k] >= base && AllBelow(num[..k], base) &&
                  status == Fail(DigitNotBelowBase(num[k], base))
  {
    status := ValidateBase(base);
    if status != Ok {
      return 0, status;
    }

    var numDigits := |num|;
    base10 := 0;
    for i := 0 to numDigits
      invariant AllBelow(num[..i], base)
      invariant base10 + Value(num[i..], base) == Value(num, base)
    {
      var n := num[i];
      if n >= base {
        return 0, Fail(DigitNotBelowBase(n, base));
      }
      var exponent := numDigits - i - 1;
      ValueFrom(num, i, base);
      ProductNonnegative(n, Pow(base, exponent));
      base10 := base10 + n * Pow(base, exponent);
      assert num[..i + 1] == num[..i] + [n];
    }
    assert num[..numDigits] == num;
  }

  /** The largest number `digits` base-`base` digits can write, base^digits - 1. */
  function GetLargestBase10(base: nat, digits: nat): (r: Outcome<nat>)
    ensures r.status == Ok <==> base >= 2
    ensures r.status != Ok ==> r.value == 0 && r.status == Fail(BaseTooSmall(base))
    ensures r.status == Ok ==> r.value < Pow(base, digits)
  {
    if ValidateBase(base) != Ok then Outcome(0, ValidateBase(base))
    else Outcome(Pow(base, digits) - 1, Ok)
  }

  /** GetLargestBase10 is the maximum: no `digits`-digit sequence denotes more, and the
      all-(base-1) sequence denotes exactly that. */
  lemma LargestBase10IsMaximum(base: nat, digits: nat, s: seq<nat>)
    requires base >= 2
    ensures Value(Fill(digits, base - 1), base) == GetLargestBase10(base, digits).value
    ensures |s| == digits && AllBelow(s, base) ==> Value(s, base) <= GetLargestBase10(base, digits).value
  {
    ValueAllMax(digits, base);
    if |s| == digits && AllBelow(s, base) {
      ValueBound(s, base);
    }
  }

  /** A positive number is at most GetLargestBase10(base, d) exactly when its digits fit in d places. */
  lemma FitsIffNumDigits(num: nat, base: nat, d: nat)
    requires base >= 2 && num >= 1
    ensures num <= GetLargestBase10(base, d).value <==> NumDigits(num, base) <= d
  {
    var k := NumDigits(num, base);
    if k < d {
      PowStrictlyIncreasing(base, k, d);
    } else if d < k {
      if d < k - 1 {
        PowStrictlyIncreasing(base, d, k - 1);
      }
    }
  }

  /** The roundoff-prone case, exactly: base^e has e + 1 digits ... */
  lemma ExactPowerDigitCount(base: nat, e: nat)
    requires base >= 2
    ensures NumDigits(Pow(base, e), base) == e + 1
  {
    PowStrictlyIncreasing(base, e, e + 1);
    NumDigitsUnique(Pow(base, e), base, e + 1);
  }

  /** ... and base^e - 1, the number just below it, has e. */
  lemma BelowPowerDigitCount(base: nat, e: nat, m: nat)
    requires base >= 2 && e >= 1 && m + 1 == Pow(base, e)
    ensures NumDigits(m, base) == e
  {
    PowStrictlyIncreasing(base, e - 1, e);
    NumDigitsUnique(m, base, e);
  }

  /** 64 in base 2 has 7 digits, not 6 or 8. */
  lemma SixtyFourHasSevenBits()
    ensures NumDigits(64, 2) == 7
  {
    assert Pow(2, 6) == 64;
    ExactPowerDigitCount(2, 6);
  }

  /** 1000 in base 10 has 4 digits. */
  lemma ThousandHasFourDecimalDigits()
    ensures NumDigits(1000, 10) == 4
  {
    assert Pow(10, 3) == 1000;
    ExactPowerDigitCount(10, 3);
  }

  /**
   * Near an integer, the roundoff tolerance rounds the logarithm up. For
   * 999_999_999 in base 10 it yields a count of 10, one more than NumDigits,
   * although GetLargestBase10(10, 9) admits the number. With that count the
   * loop writes a leading 0, and the digits are not canonical.
   */
  lemma OvercountLeadingZero()
    ensures GetLargestBase10(10, 9) == Outcome(999_999_999, Ok)
    ensures NumDigits(999_999_999, 10) == 9
    ensures Digits(999_999_999, 10) == [9, 9, 9, 9, 9, 9, 9, 9, 9]
    ensures DescendingDigits(999_999_999, 10, 10) == [0, 9, 9, 9, 9, 9, 9, 9, 9, 9]
    ensures !Canonical(DescendingDigits(999_999_999, 10, 10), 10)
  {
    assert Pow(10, 0) == 1;
    assert DescendingDigits(9, 10, 1) == [9] + DescendingDigits(0, 10, 0);
    assert Pow(10, 1) == 10;
    assert DescendingDigits(99, 10, 2) == [9] + DescendingDigits(9, 10, 1);
    assert Pow(10, 2) == 100;
    assert DescendingDigits(999, 10, 3) == [9] + DescendingDigits(99, 10, 2);
    assert Pow(10, 3) == 1_000;
    assert DescendingDigits(9_999, 10, 4) == [9] + DescendingDigits(999, 10, 3);
    assert Pow(10, 4) == 10_000;
    assert DescendingDigits(99_999, 10, 5) == [9] + DescendingDigits(9_999, 10, 4);
    assert Pow(10, 5) == 100_000;
    assert DescendingDigits(999_999, 10, 6) == [9] + DescendingDigits(99_999, 10, 5);
    assert Pow(10, 6) == 1_000_000;
    assert DescendingDigits(9_999_999, 10, 7) == [9] + DescendingDigits(999_999, 10, 6);
    assert Pow(10, 7) == 10_000_000;
    assert DescendingDigits(99_999_999, 10, 8) == [9] + DescendingDigits(9_999_999, 10, 7);
    assert Pow(10, 8) == 100_000_000;
    assert DescendingDigits(999_999_999, 10, 9) == [9] + DescendingDigits(99_999_999, 10, 8);
    assert Pow(10, 9) == 1_000_000_000;
    BelowPowerDigitCount(10, 9, 999_999_999);
    DescendingLeadingZero(999_999_999, 10, 10);
  }

  /** Largest values from the package's tests; bases above 62 are accepted. */
  lemma LargestExamples()
    ensures GetLargestBase10(2, 3).value == 7 && GetLargestBase10(2, 10).value == 1023
    ensures GetLargestBase10(10, 6).value == 999_999 && GetLargestBase10(200, 1).value == 199
    ensures GetLargestBase10(2000, 0) == Outcome(0, Ok)
  {
    assert Pow(2, 10) == 1024;
    assert Pow(10, 6) == 1_000_000;
  }

  /** Conversions of zero and of small binary numbers, as in the package's tests. */
  lemma BinaryExamples()
    ensures Digits(0, 2) == [0] && Digits(5, 2) == [1, 0, 1]
    ensures Value([0, 0, 1, 1], 2) == 3 && Value([0, 0, 0, 0, 0, 0], 2) == 0
  {
    assert Canonical([1, 0, 1], 2);
    DigitsOfValue([1, 0, 1], 2);
  }

  /** 3_520_000_000_000 in base 62, as in the package's tests. */
  lemma Base62Example()
    ensures Digits(3_520_000_000_000, 62) == [61, 60, 14, 45, 17, 10, 24]
  {
    var big := [61, 60, 14, 45, 17, 10, 24];
    assert Canonical(big, 62);
    DigitsOfValue(big, 62);
  }
}
