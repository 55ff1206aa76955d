/**
 * The encode path composed from the core: a number admitted by the
 * GetLargestBase10 bound is split into digits, rendered in the alphabet and
 * left-padded to the requested digit count; decoding parses the characters
 * and recombines the digits.
 */
module Encoding {
  import opened Outcomes
  import opened Positional
  import opened BaseConv
  import opened Alphabet

  /** The padded encode path on specification values: digits of num, their characters,
      then the zero character on the left up to width d. The result is an alphabet string. */
  function EncodePadded(num: nat, base: nat, d: nat): (r: Outcome<string>)
    requires 2 <= base <= Len()
    ensures forall i :: 0 <= i < |r.value| ==> r.value[i] in Symbols
  {
    DigitsCanonical(num, base);
    var s := Render(Digits(num, base));
    var r := Pad(s, d);
    assert r.status == Ok ==> r.value == r.value[..d - |s|] + s;
    r
  }

  /** A positive number the bound admits always fits the width: padding cannot fail. */
  lemma AdmittedNumberFitsWidth(num: nat, base: nat, d: nat)
    requires 2 <= base <= Len()
    requires 1 <= num <= GetLargestBase10(base, d).value
    ensures |Digits(num, base)| <= d
    ensures EncodePadded(num, base, d).status == Ok && |EncodePadded(num, base, d).value| == d
  {
    FitsIffNumDigits(num, base, d);
    DigitsLength(num, base);
    DigitsCanonical(num, base);
  }

  /** Zero is admitted at width 0 (the bound is 0), yet its one digit [0] does not fit it. */
  lemma ZeroAtWidthZeroFails(base: nat)
    requires 2 <= base <= Len()
    ensures GetLargestBase10(base, 0).value == 0
    ensures EncodePadded(0, base, 0).status == Fail(PaddedLengthTooShort(1, 0))
  {
  }

  /** Padding an alphabet string keeps it an alphabet string. */
  lemma PaddedInAlphabet(s: string, n: nat)
    requires forall i :: 0 <= i < |s| ==> s[i] in Symbols
    requires |s| <= n
    ensures forall i :: 0 <= i < n ==> Pad(s, n).value[i] in Symbols
  {
    var p, k := Pad(s, n).value, n - |s|;
    forall i | 0 <= i < n
      ensures p[i] in Symbols
    {
      if i >= k {
        assert p[i] == p[k..][i - k];
      }
    }
  }

  /** Parsing a padded alphabet string gives zeros for the padding, then the string's values. */
  lemma ParsePadded(s: string, n: nat)
    requires forall i :: 0 <= i < |s| ==> s[i] in Symbols
    requires |s| <= n
    ensures forall i :: 0 <= i < n ==> Pad(s, n).value[i] in Symbols
    ensures Parse(Pad(s, n).value) == Fill(n - |s|, 0) + Parse(s)
  {
    PaddedInAlphabet(s, n);
    var p, k := Pad(s, n).value, n - |s|;
    var lhs, rhs := Parse(p), Fill(k, 0) + Parse(s);
    forall i | 0 <= i < n
      ensures lhs[i] == rhs[i]
    {
      if i >= k {
        assert p[i] == p[k..][i - k];
      }
    }
  }

  /** Round trip through the whole path: decoding the padded encoding of num gives num. */
  lemma DecodeEncodePadded(num: nat, base: nat, d: nat)
    requires 2 <= base <= Len()
    requires EncodePadded(num, base, d).status == Ok
    ensures Value(Parse(EncodePadded(num, base, d).value), base) == num
  {
    DigitsCanonical(num, base);
    var digits := Digits(num, base);
    var s := Render(digits);
    ParseRender(digits);
    ParsePadded(s, d);
    ValueLeadingZeros(d - |s|, digits, base);
    ValueOfDigits(num, base);
  }

  /** The end-to-end example: 3_520_000_000_000 in base 62 at width 7 is "ZYeJhao" and decodes back. */
  lemma EndToEndExample()
    ensures EncodePadded(3_520_000_000_000, 62, 7) == Outcome("ZYeJhao", Ok)
    ensures Value(Parse(EncodePadded(3_520_000_000_000, 62, 7).value), 62) == 3_520_000_000_000
  {
    Base62Example();
    var digits := [61, 60, 14, 45, 17, 10, 24];
    assert Render(digits) == "ZYeJhao";
    PadToOwnLength("ZYeJhao");
    DecodeEncodePadded(3_520_000_000_000, 62, 7);
  }

  /**
   * The overcount at 999_999_999 in base 10, width 9: the bound admits the
   * number, but the 10 characters of the digits written with the tolerance's
   * count do not fit, so padding fails.
   */
  lemma OvercountBreaksPadding()
    ensures 999_999_999 <= GetLargestBase10(10, 9).value
    ensures DescendingDigits(999_999_999, 10, 10) == [0, 9, 9, 9, 9, 9, 9, 9, 9, 9]
    ensures Pad(Render(DescendingDigits(999_999_999, 10, 10)), 9).status == Fail(PaddedLengthTooShort(10, 9))
  {
    OvercountLeadingZero();
  }
}
