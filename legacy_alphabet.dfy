/**
 * The older alphabet codec. It declares the same 62-character alphabet as the
 * current package (used here through Alphabet.Symbols) and the same two
 * conversions, with the alphabet size as a package constant; it has no padding.
 */
module LegacyAlphabet {
  import opened Outcomes
  import opened Alphabet

  /** The alphabet size. */
  const Size: nat := |Symbols|

  /** Size is 62, and the 62 symbols are pairwise distinct. */
  lemma SizeOfAlphabet()
    ensures Size == 62
    ensures forall i, j :: 0 <= i < j < Size ==> Symbols[i] != Symbols[j]
  {
    SymbolsDistinct();
  }

  /**
   * The characters of a sequence of digit values. Fails with "" at the first
   * value that is not below Size.
   */
  method ToString(numeric: seq<nat>) returns (str: string, status: Status)
    ensures status == Ok <==> forall i :: 0 <= i < |numeric| ==> numeric[i] < Size
    ensures status == Ok ==> str == Render(numeric)
    ensures status != Ok ==> str == ""
    ensures status != Ok ==>
      exists k :: 0 <= k < |numeric| && numeric[k] >= Size &&
                  (forall j :: 0 <= j < k ==> numeric[j] < Size) &&
                  status == Fail(ValueOutsideAlphabet(numeric[k], Size))
  {
    var sz := Size;
    str := [];
    for i := 0 to |numeric|
      invariant forall j :: 0 <= j < i ==> numeric[j] < sz
      invariant str == Render(numeric[..i])
    {
      var n := numeric[i];
      if n >= sz {
        return "", Fail(ValueOutsideAlphabet(n, sz));
      }
      str := str + [Symbols[n]];
    }
    assert numeric[..|numeric|] == numeric;
    status := Ok;
  }

  /**
   * The alphabet positions of the characters of `str`. At the first character
   * outside the alphabet it fails, returning the positions already found.
   */
  method FromString(str: string) returns (numeric: seq<nat>, status: Status)
    ensures status == Ok <==> forall i :: 0 <= i < |str| ==> str[i] in Symbols
    ensures |numeric| <= |str|
    ensures forall i :: 0 <= i < |numeric| ==> str[i] in Symbols
    ensures numeric == Parse(str[..|numeric|])
    ensures status == Ok ==> |numeric| == |str|
    ensures status != Ok ==> |numeric| < |str| && str[|numeric|] !in Symbols &&
                             status == Fail(CharacterNotInAlphabet(str[|numeric|]))
  {
    numeric := [];
    var i := 0;
    while i < |str|
      invariant 0 <= i <= |str|
      invariant |numeric| == i
      invariant forall j :: 0 <= j < i ==> str[j] in Symbols
      invariant numeric == Parse(str[..i])
    {
      var c := str[i];
      var index := Index(Symbols, c);
      if index == -1 {
        return numeric, Fail(CharacterNotInAlphabet(c));
      }
      assert str[..i + 1] == str[..i] + [c];
      ParseSnoc(str[..i], c);
      numeric := numeric + [index];
      i := i + 1;
    }
    assert str[..|str|] == str;
    status := Ok;
  }
}
