/**
 * Exact positional notation: the integer meaning of the digit sequences that
 * both versions of the converter produce and consume. The converters compute
 * powers and digit counts with floating point; these definitions state what
 * those computations are meant to yield.
 */
module Positional {

  /** b^e over the integers. */
  function Pow(b: nat, e: nat): (p: nat)
    ensures b >= 1 ==> p >= 1
    ensures b >= 2 && e >= 1 ==> p >= b
  {
    if e == 0 then 1 else b * Pow(b, e - 1)
  }

  /** n copies of the digit d. */
  function Fill(n: nat, d: nat): (r: seq<nat>)
    ensures |r| == n
    ensures forall i :: 0 <= i < n ==> r[i] == d
  {
    if n == 0 then [] else [d] + Fill(n - 1, d)
  }

  /** Every element of `s` is below `bound`. */
  predicate AllBelow(s: seq<nat>, bound: int)
  {
    forall i :: 0 <= i < |s| ==> s[i] < bound
  }

  /** The number `s` denotes in base `b`: the sum of s[i] * b^(|s|-1-i), most significant first. */
  function Value(s: seq<nat>, b: nat): nat
  {
    if s == [] then 0 else s[0] * Pow(b, |s| - 1) + Value(s[1..], b)
  }

  /** Number of base-`b` digits of `num`: the least k with b^k > num (0 for num == 0). */
  function NumDigits(num: nat, b: nat): (k: nat)
    requires b >= 2
    ensures num < Pow(b, k)
    ensures k == 0 || Pow(b, k - 1) <= num
    decreases num
  {
    if num == 0 then 0
    else
      DivDecreases(num, b);
      var k' := NumDigits(num / b, b);
      NumDigitsStep(num, b, k');
      1 + k'
  }

  /** A well-formed digit sequence: non-empty, every digit below the base, no leading zero
      unless the sequence is the single digit [0]. */
  predicate Canonical(s: seq<nat>, b: nat)
  {
    |s| >= 1 && AllBelow(s, b) && (|s| > 1 ==> s[0] != 0)
  }

  /** The canonical base-`b` digits of `num`, most significant first; [0] for zero. */
  function Digits(num: nat, b: nat): seq<nat>
    requires b >= 2
    decreases num
  {
    if num < b then [num]
    else
      DivDecreases(num, b);
      Digits(num / b, b) + [num % b]
  }

  // ---------------------------------------------------------------------------
  // Arithmetic helpers

  lemma DivDecreases(num: nat, b: nat)
    requires num >= 1 && b >= 2
    ensures num / b < num
  {
    var q, r := num / b, num % b;
    assert num == q * b + r;
    if q >= num {
      MulLeft(2, b, q);
      assert false;
    }
  }

  /** One division by `b` turns the digit-count bounds of num / b into those of num. */
  lemma NumDigitsStep(num: nat, b: nat, k': nat)
    requires b >= 2 && num >= 1
    requires num / b < Pow(b, k') && (k' == 0 || Pow(b, k' - 1) <= num / b)
    ensures num < Pow(b, k' + 1) && Pow(b, k') <= num
  {
    var p := Pow(b, k');
    assert Pow(b, k' + 1) == b * p;
    QuotientBelow(num, b, p);
    if k' > 0 {
      var p' := Pow(b, k' - 1);
      assert p == b * p';
      QuotientAbove(num, b, p');
    }
  }

  lemma QuotientBelow(num: nat, b: nat, p: nat)
    requires b >= 1 && num / b < p
    ensures num < b * p
  {
    var q, r := num / b, num % b;
    assert num == q * b + r;
    MulLeft(q + 1, p, b);
  }

  lemma QuotientAbove(num: nat, b: nat, p: nat)
    requires b >= 1 && p <= num / b
    ensures b * p <= num
  {
    var q, r := num / b, num % b;
    assert num == q * b + r;
    MulLeft(p, q, b);
  }

  lemma ProductNonnegative(x: nat, y: nat)
    ensures 0 <= x * y
  {
  }

  lemma MulLeft(x: nat, y: nat, c: nat)
    requires x <= y
    ensures x * c <= y * c
  {
  }

  lemma LeadBound(x: nat, v: nat, p: nat, b: nat)
    requires x < b && v < p
    ensures x * p + v < b * p
  {
    MulLeft(x + 1, b, p);
  }

  /** For num >= b, the quotient is positive and the remainder is a digit. */
  lemma QuotientPositive(num: nat, b: nat)
    requires b >= 1 && num >= b
    ensures num / b >= 1 && num % b < b
  {
    DivMod(num, b);
    if num / b == 0 {
      assert false;
    }
  }

  /** A number below the base is its own single digit and has quotient 0. */
  lemma QuotientZero(num: nat, b: nat)
    requires num < b
    ensures num / b == 0 && num % b == num
  {
  }

  lemma DivMod(num: nat, b: nat)
    requires b >= 1
    ensures num == (num / b) * b + num % b && 0 <= num % b < b
  {
  }

  lemma Distribute(x: nat, p: nat, v: nat, b: nat, d: nat)
    ensures (x * p + v) * b + d == x * (b * p) + (v * b + d)
  {
  }

  /** Quotient and remainder of q * b + r, for r < b. */
  lemma DivModOf(q: nat, b: nat, r: nat)
    requires b >= 1 && r < b
    ensures (q * b + r) / b == q && (q * b + r) % b == r
  {
    var n := q * b + r;
    var q', r' := n / b, n % b;
    assert n == q' * b + r';
    if q' < q {
      MulLeft(q' + 1, q, b);
      assert false;
    } else if q < q' {
      MulLeft(q + 1, q', b);
      assert false;
    }
  }

  lemma MaxStep(b: nat, p: nat)
    requires b >= 1 && p >= 1
    ensures (b - 1) * p + (p - 1) == b * p - 1
  {
  }

  /** One step of the descending-power digit loop: with rest < b * p, the digit
      rest / p is below b, and digit and remainder recombine to rest. */
  lemma DigitStep(v: nat, rest: nat, b: nat, p: nat)
    requires b >= 1 && p >= 1 && rest < b * p
    ensures rest / p < b && rest % p < p
    ensures p <= rest ==> rest / p >= 1
    ensures (v * b + rest / p) * p + rest % p == v * (b * p) + rest
  {
    var d, m := rest / p, rest % p;
    assert rest == d * p + m;
    if d >= b {
      MulLeft(b, d, p);
      assert false;
    }
    calc {
      (v * b + d) * p + m;
      v * b * p + (d * p + m);
      v * (b * p) + rest;
    }
  }

  /** One step of the descending-power digit loop, on values: the next digit is
      rest / p, below b, and the prefix extended by it still accounts for num. */
  lemma ExtractDigit(prefix: seq<nat>, rest: nat, b: nat, p: nat, num: nat)
    requires b >= 1 && p >= 1 && rest < b * p
    requires Value(prefix, b) * (b * p) + rest == num
    ensures 0 <= rest / p < b && 0 <= rest % p < p
    ensures p <= rest ==> rest / p >= 1
    ensures Value(prefix + [rest / p], b) * p + rest % p == num
  {
    var v, d := Value(prefix, b), rest / p;
    DigitStep(v, rest, b, p);
    ValueSnoc(prefix, d, b);
    assert Value(prefix + [d], b) == v * b + d;
  }

  // ---------------------------------------------------------------------------
  // Powers

  /** Powers of a base of at least 2 strictly increase. */
  lemma {:induction false} PowStrictlyIncreasing(b: nat, i: nat, j: nat)
    requires b >= 2 && i < j
    ensures Pow(b, i) < Pow(b, j)
    decreases j
  {
    var p := Pow(b, j - 1);
    if i < j - 1 {
      PowStrictlyIncreasing(b, i, j - 1);
    }
    assert Pow(b, j) == b * p;
    MulLeft(2, b, p);
  }

  /** NumDigits is the only k with b^(k-1) <= num < b^k: no other count satisfies its contract. */
  lemma NumDigitsUnique(num: nat, b: nat, k: nat)
    requires b >= 2
    requires num < Pow(b, k)
    requires k == 0 || Pow(b, k - 1) <= num
    ensures k == NumDigits(num, b)
  {
    var n := NumDigits(num, b);
    if k < n {
      // b^k <= b^(n-1) <= num
      if k < n - 1 { PowStrictlyIncreasing(b, k, n - 1); }
      assert false;
    } else if n < k {
      if n < k - 1 { PowStrictlyIncreasing(b, n, k - 1); }
      assert false;
    }
  }

  /** NumDigits is the LEAST count whose power exceeds num. */
  lemma NumDigitsLeast(num: nat, b: nat, j: nat)
    requires b >= 2 && j < NumDigits(num, b)
    ensures Pow(b, j) <= num
  {
    var n := NumDigits(num, b);
    if j < n - 1 { PowStrictlyIncreasing(b, j, n - 1); }
  }

  // ---------------------------------------------------------------------------
  // Value

  /** Appending a digit shifts the value one place and adds the digit. */
  lemma {:induction false} ValueSnoc(s: seq<nat>, d: nat, b: nat)
    ensures Value(s + [d], b) == Value(s, b) * b + d
  {
    if s == [] {
      assert [d][1..] == [];
    } else {
      var t := s + [d];
      assert t[0] == s[0] && t[1..] == s[1..] + [d] && |t| - 1 == |s|;
      ValueSnoc(s[1..], d, b);
      var p := Pow(b, |s| - 1);
      assert Pow(b, |s|) == b * p;
      assert Value(t, b) == s[0] * (b * p) + (Value(s[1..], b) * b + d);
      assert Value(s, b) == s[0] * p + Value(s[1..], b);
      Distribute(s[0], p, Value(s[1..], b), b, d);
    }
  }

  /** With every digit below b, a sequence of n digits denotes less than b^n. */
  lemma {:induction false} ValueBound(s: seq<nat>, b: nat)
    requires AllBelow(s, b)
    ensures Value(s, b) < Pow(b, |s|)
  {
    if s != [] {
      ValueBound(s[1..], b);
      var p := Pow(b, |s| - 1);
      assert Pow(b, |s|) == b * p;
      assert Value(s, b) == s[0] * p + Value(s[1..], b);
      LeadBound(s[0], Value(s[1..], b), p, b);
    }
  }

  /** The suffix from position i: its first digit times its place value, plus the rest. */
  lemma ValueFrom(s: seq<nat>, i: nat, b: nat)
    requires i < |s|
    ensures Value(s[i..], b) == s[i] * Pow(b, |s| - i - 1) + Value(s[i + 1..], b)
  {
    assert s[i..][1..] == s[i + 1..];
  }

  /** Leading zeros do not change the value. */
  lemma {:induction false} ValueLeadingZeros(k: nat, s: seq<nat>, b: nat)
    ensures Value(Fill(k, 0) + s, b) == Value(s, b)
  {
    if k > 0 {
      var t := Fill(k, 0) + s;
      assert Fill(k, 0) == [0] + Fill(k - 1, 0);
      assert t == [0] + (Fill(k - 1, 0) + s);
      assert t[0] == 0;
      assert t[1..] == Fill(k - 1, 0) + s;
      assert Value(t, b) == t[0] * Pow(b, |t| - 1) + Value(t[1..], b);
      ValueLeadingZeros(k - 1, s, b);
    } else {
      assert Fill(k, 0) + s == s;
    }
  }

  /** The sequence of n digits b-1 denotes b^n - 1, the largest n-digit value. */
  lemma {:induction false} ValueAllMax(n: nat, b: nat)
    requires b >= 1
    ensures Value(Fill(n, b - 1), b) == Pow(b, n) - 1
  {
    if n > 0 {
      var s := Fill(n, b - 1);
      assert s[1..] == Fill(n - 1, b - 1);
      ValueAllMax(n - 1, b);
      var p := Pow(b, n - 1);
      assert Pow(b, n) == b * p;
      assert Value(s, b) == (b - 1) * p + Value(s[1..], b);
      MaxStep(b, p);
    }
  }

  // ---------------------------------------------------------------------------
  // Digits: canonical form and the two round trips

  /** Digits(num, b) is canonical, and its lead digit is non-zero when num is. */
  lemma {:induction false} DigitsCanonical(num: nat, b: nat)
    requires b >= 2
    ensures Canonical(Digits(num, b), b)
    ensures num > 0 ==> Digits(num, b)[0] != 0
    decreases num
  {
    if num >= b {
      var q, r := num / b, num % b;
      QuotientPositive(num, b);
      DivDecreases(num, b);
      DigitsCanonical(q, b);
      CanonicalSnoc(Digits(q, b), r, b);
    }
  }

  /** Round trip: the digits of num denote num. */
  lemma {:induction false} ValueOfDigits(num: nat, b: nat)
    requires b >= 2
    ensures Value(Digits(num, b), b) == num
    decreases num
  {
    if num >= b {
      var q, r := num / b, num % b;
      DivDecreases(num, b);
      ValueOfDigits(q, b);
      DivMod(num, b);
      AppendDigit(Digits(q, b), q, r, b, num);
    }
  }

  /** Appending digit r to digits denoting q denotes q * b + r. */
  lemma AppendDigit(init: seq<nat>, q: nat, r: nat, b: nat, num: nat)
    requires Value(init, b) == q && num == q * b + r
    ensures Value(init + [r], b) == num
  {
    ValueSnoc(init, r, b);
  }

  /** A digit appended to a canonical sequence with a non-zero lead keeps it canonical. */
  lemma CanonicalSnoc(init: seq<nat>, d: nat, b: nat)
    requires Canonical(init, b) && init[0] != 0 && d < b
    ensures Canonical(init + [d], b) && (init + [d])[0] != 0
  {
    assert forall i :: 0 <= i < |init| ==> (init + [d])[i] == init[i];
  }

  /** A positive value has a lead digit times its place value at most. */
  lemma ValueAtLeastLead(s: seq<nat>, b: nat)
    requires |s| >= 1
    ensures s[0] * Pow(b, |s| - 1) <= Value(s, b)
  {
  }

  /** Round trip the other way: a canonical sequence is the digit sequence of its own value. */
  lemma {:induction false} DigitsOfValue(s: seq<nat>, b: nat)
    requires b >= 2 && Canonical(s, b)
    ensures Digits(Value(s, b), b) == s
    decreases |s|
  {
    if |s| == 1 {
      assert Value(s, b) == s[0];
    } else {
      var init, last := s[..|s| - 1], s[|s| - 1];
      assert s == init + [last];
      assert Canonical(init, b);
      ValueSnoc(init, last, b);
      var v := Value(init, b);
      ValueAtLeastLead(init, b);
      assert init[0] == s[0];
      MulLeft(1, init[0], Pow(b, |init| - 1));
      assert v >= 1;
      MulLeft(1, v, b);
      DivModOf(v, b, last);
      DigitsOfValue(init, b);
    }
  }

  // ---------------------------------------------------------------------------
  // The descending-power loop for an arbitrary digit count

  /**
   * What the digit loop of both converters computes when it is handed `count`
   * as the number of digits: the quotient by b^(count-1), then the loop again
   * on the remainder with one digit fewer.
   */
  function DescendingDigits(num: nat, b: nat, count: nat): (ds: seq<nat>)
    requires b >= 1
    ensures |ds| == count
  {
    if count == 0 then []
    else [num / Pow(b, count - 1)] + DescendingDigits(num % Pow(b, count - 1), b, count - 1)
  }

  /** One digit too many: when num < b^(count-1) the loop first writes a 0. */
  lemma DescendingLeadingZero(num: nat, b: nat, count: nat)
    requires b >= 1 && count >= 1 && num < Pow(b, count - 1)
    ensures DescendingDigits(num, b, count) == [0] + DescendingDigits(num, b, count - 1)
  {
    DivModOf(0, Pow(b, count - 1), num);
  }

  /** One digit too few: when b^count <= num the first digit the loop writes is not below b. */
  lemma DescendingFirstTooLarge(num: nat, b: nat, count: nat)
    requires b >= 2 && count >= 1 && Pow(b, count) <= num
    ensures DescendingDigits(num, b, count)[0] >= b
  {
    var p := Pow(b, count - 1);
    assert Pow(b, count) == b * p;
    QuotientAtLeast(num, b, p);
  }

  lemma QuotientAtLeast(num: nat, b: nat, p: nat)
    requires p >= 1 && b * p <= num
    ensures num / p >= b
  {
    var q := num / p;
    DivMod(num, p);
    if q < b {
      MulLeft(q + 1, b, p);
      assert false;
    }
  }

  /** A positive number has exactly NumDigits digits. */
  lemma {:induction false} DigitsLength(num: nat, b: nat)
    requires b >= 2 && num >= 1
    ensures |Digits(num, b)| == NumDigits(num, b)
    decreases num
  {
    if num >= b {
      QuotientPositive(num, b);
      DivDecreases(num, b);
      DigitsLength(num / b, b);
    } else {
      QuotientZero(num, b);
    }
  }
}
