/**
 * The alphabet codec of the current package: digit values 0..61 to and from
 * the characters 0-9, a-z, A-Z, and left padding with the zero character.
 * Characters are the alphabet's ASCII characters, one per byte.
 */
module Alphabet {
  import opened Outcomes

  /** The character code of the symbol for value i: digits, then lower case, then upper case. */
  function SymbolCode(i: nat): (code: int)
    requires i < 62
    ensures 48 <= code < 123
  {
    if i < 10 then 48 + i else if i < 36 then 87 + i else 29 + i
  }

  /** The table of the 62 symbols, built from their character codes. */
  function SymbolTable(): (s: string)
    ensures |s| == 62
    ensures forall i :: 0 <= i < 62 ==> s[i] as int == SymbolCode(i)
  {
    seq(62, i requires 0 <= i < 62 => SymbolCode(i) as char)
  }

  /** The 62-character alphabet; the symbol at position i stands for value i. */
  const Symbols: string := SymbolTable()

  const Digits10: string := "0123456789"
  const Lower26: string := "abcdefghijklmnopqrstuvwxyz"
  const Upper26: string := "ABCDEFGHIJKLMNOPQRSTUVWXYZ"

  /** The alphabet is the text 0-9, then a-z, then A-Z. */
  lemma SymbolsText()
    ensures Symbols == Digits10 + Lower26 + Upper26
  {
    var text := Digits10 + Lower26 + Upper26;
    assert forall i :: 0 <= i < 10 ==> Digits10[i] as int == 48 + i;
    assert forall i :: 0 <= i < 26 ==> Lower26[i] as int == 97 + i;
    assert forall i :: 0 <= i < 26 ==> Upper26[i] as int == 65 + i;
    forall i | 0 <= i < 62
      ensures Symbols[i] == text[i]
    {
      if i < 10 {
        assert text[i] == Digits10[i];
      } else if i < 36 {
        assert text[i] == Lower26[i - 10];
      } else {
        assert text[i] == Upper26[i - 36];
      }
    }
  }

  /** The 62 symbols are pairwise distinct. */
  lemma SymbolsDistinct()
    ensures forall i, j :: 0 <= i < j < |Symbols| ==> Symbols[i] != Symbols[j]
  {
    forall i, j | 0 <= i < j < |Symbols|
      ensures Symbols[i] != Symbols[j]
    {
      assert Symbols[i] as int != Symbols[j] as int;
    }
  }

  /**
   * Position of the first occurrence of `c` in `s`, or -1 when there is none:
   * a search for a one-character needle, scanning from the left.
   */
  function Index(s: string, c: char): (i: int)
    ensures -1 <= i < |s|
    ensures i == -1 <==> c !in s
    ensures i >= 0 ==> s[i] == c && c !in s[..i]
  {
    if s == [] then -1
    else if s[0] == c then 0
    else
      var j := Index(s[1..], c);
      assert s == [s[0]] + s[1..];
      if j == -1 then -1
      else
        assert s[..j + 1] == [s[0]] + s[1..][..j];
        j + 1
  }

  /** Looking a symbol up finds its own position. */
  lemma IndexOfSymbol(i: nat)
    requires i < |Symbols|
    ensures Index(Symbols, Symbols[i]) == i
  {
    SymbolsDistinct();
    assert Symbols[i] in Symbols;
  }

  /** Number of symbols in the alphabet. */
  function Len(): (n: nat)
    ensures n == |Symbols| == 62
  {
    |Symbols|
  }

  /** The padding string: the symbol for value 0, which is the character '0'. */
  function Zero(): (z: string)
    ensures z == "0"
    ensures |z| == 1 && Index(Symbols, z[0]) == 0
  {
    [Symbols[0]]
  }

  /** The characters of digit values that are all below Len(), in order. */
  function Render(ds: seq<nat>): (s: string)
    requires forall i :: 0 <= i < |ds| ==> ds[i] < |Symbols|
  {
    seq(|ds|, i requires 0 <= i < |ds| => Symbols[ds[i]])
  }

  /** The alphabet positions of characters that are all in the alphabet, in order. */
  function Parse(s: string): (ds: seq<nat>)
    requires forall i :: 0 <= i < |s| ==> s[i] in Symbols
    ensures |ds| == |s|
    ensures forall i :: 0 <= i < |s| ==> ds[i] < |Symbols| && Symbols[ds[i]] == s[i]
  {
    seq(|s|, i requires 0 <= i < |s| => Index(Symbols, s[i]) as nat)
  }

  /** Parsing one more character appends its position. */
  lemma ParseSnoc(s: string, c: char)
    requires forall i :: 0 <= i < |s| ==> s[i] in Symbols
    requires c in Symbols
    ensures Parse(s + [c]) == Parse(s) + [Index(Symbols, c) as nat]
  {
  }

  /** Round trip: parsing the characters of digit values gives back the values. */
  lemma ParseRender(ds: seq<nat>)
    requires forall i :: 0 <= i < |ds| ==> ds[i] < |Symbols|
    ensures Parse(Render(ds)) == ds
  {
    forall i | 0 <= i < |ds|
      ensures Parse(Render(ds))[i] == ds[i]
    {
      IndexOfSymbol(ds[i]);
    }
  }

  /** Round trip: rendering the values parsed from an alphabet string gives back the string. */
  lemma RenderParse(s: string)
    requires forall i :: 0 <= i < |s| ==> s[i] in Symbols
    ensures Render(Parse(s)) == s
  {
  }

  /**
   * The characters of a sequence of digit values. Fails with "" at the first
   * value that is not below Len().
   */
  method ToString(numeric: seq<nat>) returns (str: string, status: Status)
    ensures status == Ok <==> forall i :: 0 <= i < |numeric| ==> numeric[i] < Len()
    ensures status == Ok ==> str == Render(numeric)
    ensures status != Ok ==> str == ""
    ensures status != Ok ==>
      exists k :: 0 <= k < |numeric| && numeric[k] >= Len() &&
                  (forall j :: 0 <= j < k ==> numeric[j] < Len()) &&
                  status == Fail(ValueOutsideAlphabet(numeric[k], Len()))
  {
    var buf: string := [];
    for i := 0 to |numeric|
      invariant forall j :: 0 <= j < i ==> numeric[j] < Len()
      invariant buf == Render(numeric[..i])
    {
      var n := numeric[i];
      if n >= Len() {
        return "", Fail(ValueOutsideAlphabet(n, Len()));
      }
      buf := buf + [Symbols[n]];
    }
    assert numeric[..|numeric|] == numeric;
    return buf, Ok;
  }

  /**
   * The alphabet positions of the characters of `str`. At the first character
   * outside the alphabet it fails, returning the positions of the characters
   * before it.
   */
  method FromString(str: string) returns (numeric: seq<nat>, status: Status)
    ensures status == Ok <==> forall i :: 0 <= i < |str| ==> str[i] in Symbols
    ensures |numeric| <= |str|
    ensures forall i :: 0 <= i < |numeric| ==> str[i] in Symbols
    ensures numeric == Parse(str[..|numeric|])
    ensures status == Ok ==> |numeric| == |str|
    ensures status != Ok ==> |numeric| < |str| && str[|numeric|] !in Symbols &&
                             status == Fail(CharacterNotInAlphabet(str[|numeric|]))
  {
    numeric := [];
    for i := 0 to |str|
      invariant |numeric| == i
      invariant forall j :: 0 <= j < i ==> str[j] in Symbols
      invariant numeric == Parse(str[..i])
    {
      var c := str[i];
      var index := Index(Symbols, c);
      if index == -1 {
        return numeric, Fail(CharacterNotInAlphabet(c));
      }
      assert str[..i + 1] == str[..i] + [c];
      ParseSnoc(str[..i], c);
      numeric := numeric + [index];
    }
    assert str[..|str|] == str;
    status := Ok;
  }

  /** The package's examples: "heLLo123" and its values, and padding "heLLo" to 10. */
  lemma HelloExample()
    ensures Render([17, 14, 47, 47, 24, 1, 2, 3]) == "heLLo123"
    ensures Parse(Render([17, 14, 47, 47, 24, 1, 2, 3])) == [17, 14, 47, 47, 24, 1, 2, 3]
    ensures Pad("heLLo", 10) == Outcome("00000heLLo", Ok)
    ensures Pad("", 5) == Outcome("00000", Ok)
  {
    ParseRender([17, 14, 47, 47, 24, 1, 2, 3]);
    PadZeros("heLLo", 10, "00000heLLo");
    PadZeros("", 5, "00000");
  }

  /** Padding `str` to n gives `expected` when expected is n - |str| zero characters, then str. */
  lemma PadZeros(str: string, n: nat, expected: string)
    requires |expected| == n && |str| <= n && expected[n - |str|..] == str
    requires forall i :: 0 <= i < n - |str| ==> expected[i] == '0'
    ensures Pad(str, n) == Outcome(expected, Ok)
  {
    var r := Pad(str, n).value;
    assert Zero()[0] == '0';
    forall i | 0 <= i < n
      ensures r[i] == expected[i]
    {
      if i >= n - |str| {
        assert r[i] == r[n - |str|..][i - (n - |str|)];
        assert expected[i] == expected[n - |str|..][i - (n - |str|)];
      }
    }
    assert r == expected;
  }

  /** `count` copies of the character c. */
  function Repeat(c: char, count: nat): (r: string)
    ensures |r| == count
    ensures forall i :: 0 <= i < count ==> r[i] == c
  {
    if count == 0 then "" else [c] + Repeat(c, count - 1)
  }

  /**
   * `str` left-filled with the zero character up to exactly `strLen`
   * characters; a string already longer than that is an error, never cut.
   */
  function Pad(str: string, strLen: int): (r: Outcome<string>)
    ensures r.status == Ok <==> |str| <= strLen
    ensures r.status != Ok ==> r.value == "" && r.status == Fail(PaddedLengthTooShort(|str|, strLen))
    ensures r.status == Ok ==> |r.value| == strLen && r.value[strLen - |str|..] == str
    ensures r.status == Ok ==> forall i :: 0 <= i < strLen - |str| ==> r.value[i] == Zero()[0]
  {
    var padLen := strLen - |str|;
    if padLen < 0 then Outcome("", Fail(PaddedLengthTooShort(|str|, strLen)))
    else Outcome(Repeat(Zero()[0], padLen) + str, Ok)
  }

  /** Padding to the string's own length changes nothing. */
  lemma PadToOwnLength(str: string)
    ensures Pad(str, |str|) == Outcome(str, Ok)
  {
    var r := Pad(str, |str|);
    assert r.value == r.value[0..];
  }
}
