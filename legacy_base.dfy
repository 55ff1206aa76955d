/**
 * The older, signed digit converter. It computes the same digits as the
 * current one; it differs in what it returns beside an error: [0] where the
 * current version returns nothing. Numbers and digits are non-negative here.
 */
module LegacyBase {
  import opened Outcomes
  import opened Positional

  /** Accepts exactly the bases from 2 up, negative bases included among the rejected. */
  function ValidateBase(base: int): (s: Status)
    ensures s == Ok <==> base >= 2
    ensures s != Ok ==> s == Fail(BaseTooSmall(base))
  {
    if base < 2 then Fail(BaseTooSmall(base)) else Ok
  }

  /**
   * The digits of `num` in `base`, most significant first, filled in from the
   * highest power of the base down; [0] for zero, and [0] with an error for a
   * base below 2.
   */
  method FromBase10(num: nat, base: int) returns (digits: seq<nat>, status: Status)
    ensures status == Ok <==> base >= 2
    ensures status != Ok ==> digits == [0] && status == Fail(BaseTooSmall(base))
    ensures status == Ok ==> Canonical(digits, base) && Value(digits, base) == num
    ensures status == Ok && num > 0 ==> |digits| == NumDigits(num, base)
    ensures status == Ok ==> digits == Digits(num, base)
  {
    status := ValidateBase(base);
    if status != Ok {
      return [0], status;
    }
    if num == 0 {
      return [0], Ok;
    }

    var numDigits := NumDigits(num, base);
    var newBaseDigits := new nat[numDigits];
    var rest: nat := num;
    var i := 0;
    while i < numDigits
      invariant 0 <= i <= numDigits
      invariant rest < Pow(base, numDigits - i)
      invariant Value(newBaseDigits[..i], base) * Pow(base, numDigits - i) + rest == num
      invariant AllBelow(newBaseDigits[..i], base)
      invariant i > 0 ==> newBaseDigits[0] != 0
    {
      var exponent := numDigits - i - 1;
      var digitInBase10 := Pow(base, exponent);
      assert Pow(base, numDigits - i) == base * digitInBase10;
      ghost var before := newBaseDigits[..i];
      ExtractDigit(before, rest, base, digitInBase10, num);
      var digit: nat := rest / digitInBase10;
      newBaseDigits[i] := digit;
      rest := rest % digitInBase10;
      assert newBaseDigits[..i + 1] == before + [digit];
      i := i + 1;
    }
    digits := newBaseDigits[..];
    assert digits == newBaseDigits[..numDigits];
    assert Pow(base, 0) == 1 && rest == 0;
    assert Value(digits, base) == num;
    DigitsOfValue(digits, base);
  }

  /**
   * Without a roundoff correction the count for 1000 in base 10 comes out one
   * short (3, where NumDigits is 4). With that count the loop's first digit
   * (1000 / 10^2) is not a base-10 digit.
   */
  lemma UndercountDigitTooLarge()
    ensures NumDigits(1000, 10) == 4
    ensures DescendingDigits(1000, 10, 3)[0] >= 10
  {
    assert Pow(10, 3) == 1000 && Pow(10, 4) == 10000;
    NumDigitsUnique(1000, 10, 4);
    DescendingFirstTooLarge(1000, 10, 3);
  }

  /**
   * The value of a digit sequence in `base`, the positional sum; 0 with an
   * error on a base below 2 or at the first digit that is not below the base.
   */
  method ToBase10(num: seq<nat>, base: int) returns (base10: nat, status: Status)
    ensures status == Ok <==> base >= 2 && AllBelow(num, base)
    ensures status == Ok ==> base10 == Value(num, base)
    ensures status != Ok ==> base10 == 0
    ensures base < 2 ==> status == Fail(BaseTooSmall(base))
    ensures base >= 2 && status != Ok ==>
      exists k :: 0 <= k < |num| && num[k] >= base && AllBelow(num[..k], base) &&
                  status == Fail(DigitNotBelowBase(num[k], base))
  {
    status := ValidateBase(base);
    if status != Ok {
      return 0, status;
    }

    var numDigits := |num|;
    base10 := 0;
    for i := 0 to numDigits
      invariant AllBelow(num[..i], base)
      invariant base10 + Value(num[i..], base) == Value(num, base)
    {
      var n := num[i];
      if n >= base {
        return 0, Fail(DigitNotBelowBase(n, base));
      }
      var exponent := numDigits - i - 1;
      ValueFrom(num, i, base);
      ProductNonnegative(n, Pow(base, exponent));
      base10 := base10 + n * Pow(base, exponent);
      assert num[..i + 1] == num[..i] + [n];
    }
    assert num[..numDigits] == num;
  }
}
