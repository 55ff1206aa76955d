# baseconv in Dafny

A model of the core of `baseconv`, a small Go library and command-line tool
that writes a number in another base. The tool prints the digits with the
62-character alphabet `0-9a-zA-Z` and can left-pad the result to a fixed width.

The model has these modules:

- `Outcomes`: the error cases and the `(value, error)` pairs the Go functions
  return.
- `Positional`: exact positional notation. It defines `Pow`, the value of a
  digit sequence (`Value`), the exact digit count (`NumDigits`), the canonical
  digit sequence of a number (`Digits`) and `DescendingDigits`, which is the
  converter's digit loop run with an arbitrary digit count. It also holds the
  lemmas that connect these definitions.
- `BaseConv` (`pkg/baseconv`): `FromBase10`, `ToBase10`, `GetLargestBase10`
  and the base check. The digit loops are methods with loop invariants, and
  `FromBase10` fills a fresh array as the source does.
- `LegacyBase` (`base/base.go`): the older signed converter.
- `Alphabet` (`pkg/alphabet`): the alphabet constant, `FromString`,
  `ToString`, `Pad`, `Len` and `Zero`.
- `LegacyAlphabet` (`alphabet/alphabet.go`): the older alphabet codec and its
  `Size`.
- `Encoding`: how the `encode` command composes the core. It checks a number
  against `GetLargestBase10`, converts it, renders it and pads it. It also
  proves that decoding the padded string gives the number back.

The source computes digit counts and powers with floating point. The model
uses the exact integer quantities those computations are meant to produce.
For example, `NumDigits(num, b)` is the least `k` with `b^k > num`.
`DescendingDigits` keeps the source loop's behaviour when the count is wrong.
The "## Findings" table uses it to show what each version's digit count does
on one input.

## Model

| member | source | states |
|---|---|---|
| Positional.Pow | pkg/baseconv/baseconv.go:27 | the place value b^e is at least 1, and at least b for b >= 2 and e >= 1 |
| Positional.NumDigits | pkg/baseconv/baseconv.go:72-83 | the digit count k of num satisfies num < b^k and, when k >= 1, b^(k-1) <= num |
| Positional.NumDigitsUnique | pkg/baseconv/baseconv.go:72-83 | any k with those two bounds is the digit count, so the count is determined by num and b alone |
| Positional.NumDigitsLeast | pkg/baseconv/baseconv.go:72-83 | b^j <= num for every j below the count, so the count is the least k with b^k > num |
| Positional.PowStrictlyIncreasing | pkg/baseconv/baseconv.go:72-83 | powers of a base >= 2 strictly increase with the exponent |
| Positional.ValueSnoc | pkg/baseconv/baseconv.go:45-51 | appending a digit d multiplies the value by b and adds d |
| Positional.ValueFrom | pkg/baseconv/baseconv.go:49-50 | the value of a suffix is its first digit times its place value plus the value of the rest |
| Positional.ValueBound | pkg/baseconv/baseconv.go:58-63 | n digits all below b denote less than b^n |
| Positional.ValueAllMax | pkg/baseconv/baseconv.go:58-63 | n digits all equal to b-1 denote exactly b^n - 1 |
| Positional.ValueLeadingZeros | pkg/alphabet/alphabet.go:36-43 | prepending zero digits leaves the value unchanged, which is why padding with '0' is harmless |
| Positional.DigitsCanonical | pkg/baseconv/baseconv.go:16-30 | the digits of num are non-empty, all below b, and have a non-zero lead unless num is 0 |
| Positional.ValueOfDigits | pkg/baseconv/baseconv.go:25-30 | round trip: the digits of num denote num |
| Positional.DigitsOfValue | pkg/baseconv/baseconv.go:45-51 | round trip: a canonical digit sequence is the digit sequence of its own value |
| Positional.DigitsLength | pkg/baseconv/baseconv.go:22-23 | a positive number has exactly NumDigits digits |
| Positional.ExtractDigit | pkg/baseconv/baseconv.go:26-29 | one loop step takes a digit below b, and the digits so far still account for num together with the remainder |
| Positional.DescendingDigits | pkg/baseconv/baseconv.go:25-30 | the digit loop run with any count yields exactly that many entries |
| Positional.DescendingLeadingZero | pkg/baseconv/baseconv.go:25-30 | a count one above the exact one makes the loop emit a leading 0 before the other digits |
| Positional.DescendingFirstTooLarge | base/base.go:23-28 | a count below the exact one makes the loop's first entry at least b, so it is not a digit |
| BaseConv.ValidateBase | pkg/baseconv/baseconv.go:65-70 | a base is accepted if and only if it is at least 2; a rejected base yields BaseTooSmall |
| BaseConv.FromBase10 | pkg/baseconv/baseconv.go:12-33 | succeeds exactly for bases >= 2; then the digits are canonical, denote num, number exactly NumDigits for positive num and equal Digits(num); else empty with BaseTooSmall |
| BaseConv.ToBase10 | pkg/baseconv/baseconv.go:36-54 | succeeds exactly when the base is >= 2 and every digit is below it, and then returns the positional value; else 0 with the error for the base or the first offending digit |
| BaseConv.GetLargestBase10 | pkg/baseconv/baseconv.go:58-63 | succeeds exactly for bases >= 2 and then returns a value below base^digits; 0 with BaseTooSmall otherwise |
| BaseConv.LargestBase10IsMaximum | pkg/baseconv/baseconv.go:56-63 | the result is the value of `digits` copies of base-1, and no sequence of that many digits below the base denotes more |
| BaseConv.FitsIffNumDigits | pkg/baseconv/baseconv.go:58-63 | a positive number is at most GetLargestBase10(base, d) if and only if it has at most d digits |
| BaseConv.ExactPowerDigitCount | pkg/baseconv/baseconv.go:75-80 | an exact power base^e, the case the roundoff correction targets, has e + 1 digits |
| BaseConv.BelowPowerDigitCount | pkg/baseconv/baseconv.go:72-83 | base^e - 1 has exactly e digits |
| BaseConv.SixtyFourHasSevenBits | pkg/baseconv/baseconv_test.go:321-326 | 64 has 7 binary digits |
| BaseConv.ThousandHasFourDecimalDigits | pkg/baseconv/baseconv_test.go:309-314 | 1000 has 4 decimal digits |
| BaseConv.OvercountLeadingZero | pkg/baseconv/baseconv.go:72-83 | 999_999_999 is GetLargestBase10(10, 9) and has 9 digits, but the loop run with a count of 10 writes a non-canonical leading 0 |
| BaseConv.LargestExamples | pkg/baseconv/baseconv_test.go:220-255 | the largest values 7, 1023, 999_999, 199 and 0 for base and width pairs, bases above 62 included |
| BaseConv.BinaryExamples | pkg/baseconv/baseconv_test.go:16-25 | 0 and 5 in base 2 are [0] and [1,0,1]; [0,0,1,1] and six zeros denote 3 and 0 |
| BaseConv.Base62Example | pkg/baseconv/baseconv_test.go:41-45 | 3_520_000_000_000 in base 62 is [61,60,14,45,17,10,24] |
| LegacyBase.ValidateBase | base/base.go:54-59 | a signed base is accepted if and only if it is at least 2; a rejected base yields BaseTooSmall |
| LegacyBase.FromBase10 | base/base.go:9-31 | succeeds exactly for bases >= 2 and then yields the canonical digits of num with the exact count; [0] with BaseTooSmall otherwise |
| LegacyBase.ToBase10 | base/base.go:34-52 | succeeds exactly when the base is >= 2 and every digit is below it, and then returns the positional value; else 0 with the first error |
| LegacyBase.UndercountDigitTooLarge | base/base.go:19 | 1000 has 4 decimal digits, and the loop run with a count of 3 yields a first entry of at least 10 |
| Alphabet.SymbolTable | pkg/alphabet/alphabet.go:8 | the alphabet has 62 characters, the digits first, then lower case, then upper case, by character code |
| Alphabet.SymbolsText | pkg/alphabet/alphabet.go:8 | the alphabet is the text of the ten digits, then a-z, then A-Z |
| Alphabet.SymbolsDistinct | pkg/alphabet/alphabet.go:8 | no character occurs twice in the alphabet |
| Alphabet.Index | pkg/alphabet/alphabet.go:14 | the search gives -1 if and only if the character is absent, and otherwise its first position |
| Alphabet.IndexOfSymbol | pkg/alphabet/alphabet.go:14 | looking up the symbol for value i finds i |
| Alphabet.Len | pkg/alphabet/alphabet.go:45-48 | the alphabet has 62 symbols |
| Alphabet.Zero | pkg/alphabet/alphabet.go:50-53 | the padding string is "0", the one character at alphabet position 0 |
| Alphabet.Parse | pkg/alphabet/alphabet.go:11-21 | an alphabet string gives one value per character, below 62, whose symbol is that character |
| Alphabet.ParseSnoc | pkg/alphabet/alphabet.go:18 | parsing one more character appends its alphabet position |
| Alphabet.ParseRender | pkg/alphabet/alphabet.go:24-33 | round trip: parsing the rendering of values below 62 gives the values back |
| Alphabet.RenderParse | pkg/alphabet/alphabet.go:11-21 | round trip: rendering the values parsed from an alphabet string gives the string back |
| Alphabet.ToString | pkg/alphabet/alphabet.go:24-33 | succeeds if and only if every value is below Len and then renders them; else "" with the error for the first value out of range |
| Alphabet.FromString | pkg/alphabet/alphabet.go:11-21 | succeeds if and only if every character is in the alphabet; the values returned are the parse of the prefix before the first bad character, and the error names that character |
| Alphabet.Repeat | pkg/alphabet/alphabet.go:41 | count copies of the character |
| Alphabet.Pad | pkg/alphabet/alphabet.go:36-43 | succeeds if and only if the string fits; then exactly strLen long, with the string as suffix and '0' in front; else "" with both lengths in the error |
| Alphabet.PadToOwnLength | pkg/alphabet/alphabet.go:36-43 | padding a string to its own length returns it unchanged |
| Alphabet.PadZeros | pkg/alphabet/alphabet.go:41-42 | padding gives any string that is the right number of '0' characters followed by the input |
| Alphabet.HelloExample | pkg/alphabet/alphabet_test.go:27-30 | [17,14,47,47,24,1,2,3] renders as "heLLo123" and parses back; "heLLo" pads to "00000heLLo" and "" to "00000" |
| LegacyAlphabet.SizeOfAlphabet | alphabet/alphabet.go:10-11 | Size is 62 and the symbols are pairwise distinct |
| LegacyAlphabet.ToString | alphabet/alphabet.go:14-24 | succeeds if and only if every value is below Size and then renders them; else "" with the error for the first value out of range |
| LegacyAlphabet.FromString | alphabet/alphabet.go:27-37 | succeeds if and only if every character is in the alphabet; the values are the parse of the prefix before the first bad character |
| Encoding.EncodePadded | cmd/encode/encode.go:32-48 | the converted, rendered and padded number consists of alphabet characters only |
| Encoding.AdmittedNumberFitsWidth | cmd/encode/encode.go:100-113 | a positive number admitted by the GetLargestBase10 bound has at most d digits, so padding to d succeeds and gives exactly d characters |
| Encoding.ZeroAtWidthZeroFails | cmd/encode/encode.go:43-47 | at width 0 the bound admits 0, yet its digit "0" does not fit and padding fails |
| Encoding.PaddedInAlphabet | pkg/alphabet/alphabet.go:36-43 | padding an alphabet string keeps every character in the alphabet |
| Encoding.ParsePadded | pkg/alphabet/alphabet.go:36-43 | a padded alphabet string parses to zeros for the padding followed by the values of the string |
| Encoding.DecodeEncodePadded | cmd/encode/encode.go:32-48 | round trip: parsing and recombining a successful padded encoding gives the number back |
| Encoding.EndToEndExample | pkg/baseconv/baseconv_test.go:41-45 | 3_520_000_000_000 in base 62 at width 7 encodes to "ZYeJhao" and decodes back |
| Encoding.OvercountBreaksPadding | cmd/encode/encode.go:43-47 | 999_999_999 passes the width-9 bound in base 10, yet the 10 digits the loop writes with the tolerance's count fail to pad to 9 |

## Left out

- Floating point: `math.Log`, `math.Pow`, `math.Round`, `math.Floor` and the roundoff tolerance are replaced by the exact quantities `NumDigits` and `Pow`. Rounding in a given input is shown only through `DescendingDigits` for the two inputs in "## Findings".
- The float-only tests of the digit count, such as `math.Pow(2, 2.999)` with tolerance 0.1, concern the floating-point formula, not the exact count, so they have no counterpart.
- BaseConv.FromBase10: does not model `uint64` wrap-around or the float-to-`uint64` cast of large powers, because integers are unbounded here.
- BaseConv.ToBase10: does not model `uint64` overflow of the running sum, because integers are unbounded here.
- BaseConv.GetLargestBase10: does not model the float rounding of `math.Pow(base, digits) - 1` or its wrap-around for large results. The result is exactly base^digits - 1.
- LegacyBase.FromBase10: negative numbers are not modelled (`num` is a `nat`), because `math.Log` of a negative number is NaN and the resulting count is not meaningful. `int64` overflow is not modelled.
- LegacyBase.ToBase10: digits are non-negative (`nat`), so negative digits, which the source lets through, are not modelled. `int64` overflow is not modelled.
- Characters: `FromString` ranges over runes and `ToString` indexes bytes. Both are modelled as Dafny `char`s. Rune/byte mismatches for characters outside ASCII are not modelled; such characters are never in the alphabet.
- Error messages are modelled as `Error` values carrying the same data, not as formatted text.
- Command-line parsing, printing and the `decode` command's I/O in `cmd/` are not part of this model. Only the encode path's composition of the core is stated, in `Encoding`.

## Findings

| source | as written | input that shows it | evidently intended | confidence | as-written member | corrected member |
|---|---|---|---|---|---|---|
| pkg/baseconv/baseconv.go:72-83 | the tolerance 1e-8 rounds the logarithm to the nearest integer whenever it is that close, even from below | 999_999_999 in base 10: log10 is 9 - 4.3e-10, so the count is 10 and the digits are [0,9,9,9,9,9,9,9,9,9]; `encode` with width 9 and padding admits the number and then fails to pad | the exact digit count, 9, giving canonical digits that fit the width GetLargestBase10 admits | high, not executed | BaseConv.OvercountLeadingZero | BaseConv.FromBase10 |
| base/base.go:19 | the count is floor(1 + ln(num)/ln(base)) with no roundoff correction | 1000 in base 10: ln(1000)/ln(10) evaluates just below 3 (2.9999999999999996), so the count is 3 and the first entry is 1000/100 = 10, which is not a digit | the exact count, 4, giving [1,0,0,0] | medium, not executed | LegacyBase.UndercountDigitTooLarge | LegacyBase.FromBase10 |
