/** JavaScript spellings described by what their text looks like: which texts are tidy, and
    that a number has exactly one tidy text. */
module NumberText {
  import opened Decimal
  import opened Schema
  import opened Strings

  /** The code units that spell numbers. */
  lemma Characters()
    ensures PLUS as int == '+' as int && MINUS as int == '-' as int && POINT as int == '.' as int
    ensures LOWER_E as int == 'e' as int && UPPER_E as int == 'E' as int
    ensures ZERO as int == '0' as int && NINE as int == '9' as int
  {}

  /** Digits after a point: some, and the last one not zero. */
  predicate TidyFraction(fraction: Text) { fraction != [] && fraction[|fraction| - 1] != ZERO }

  /** An exponent: a lower-case marker, a sign, and digits without a redundant zero. */
  predicate TidyExponent(e: Exponent) {
    e.marker == LOWER_E && (e.sign == Some(PLUS) || e.sign == Some(MINUS)) && CanonicalDigits(e.digits)
  }

  const MILLION: nat := 1_000_000
  const SEXTILLION: nat := 1_000_000_000_000_000_000_000

  /** At least a millionth and below ten to the twenty-first. */
  predicate InPositionalRange(y: Numeral)
    requires WellFormed(y)
  {
    Value(y.whole) < SEXTILLION && MillionthOrMore(Value(DigitsOf(y)), |FractionOf(y)|)
  }

  /** A whole number divided by ten to the number of places is at least a millionth. */
  predicate MillionthOrMore(v: nat, places: nat) { v * MILLION >= TenTo(places) }

  /** What the text of a number looks like: no redundant leading zero, no empty or
      zero-ending fraction; positional in the middle range, and otherwise scientific with one
      nonzero digit before the point. */
  predicate Tidy(y: Numeral) {
    && WellFormed(y) && CanonicalDigits(y.whole) && (y.fraction.Some? ==> TidyFraction(y.fraction.value))
    && if y.exponent.None? then InPositionalRange(y)
       else
         && |y.whole| == 1 && y.whole[0] != ZERO && TidyExponent(y.exponent.value)
         && !(-6 <= ExponentOf(y.exponent) <= 20)
  }

  // ------------------------------------------------------- bounds

  lemma {:induction false} DigitBounds(d: Text)
    requires AllDigits(d)
    ensures Value(d) < TenTo(|d|)
    ensures d != [] && d[0] != ZERO ==> Value(d) >= TenTo(|d| - 1)
  {
    if d != [] {
      var rest := d[..|d| - 1];
      DigitBounds(rest);
      if |d| > 1 { assert rest[0] == d[0]; }
    }
  }

  lemma {:induction false} TenToMonotone(a: nat, b: nat)
    requires a <= b
    ensures TenTo(a) <= TenTo(b)
  {
    if a < b { TenToMonotone(a, b - 1); }
  }

  lemma TenToStrict(a: nat, b: nat)
    requires TenTo(a) < TenTo(b)
    ensures a < b
  {
    if b <= a { TenToMonotone(b, a); }
  }

  lemma Million()
    ensures TenTo(6) == MILLION
  {}

  lemma Sextillion()
    ensures TenTo(21) == SEXTILLION
  {
    TenToAdd(6, 15);
    TenToAdd(6, 9);
    TenToAdd(6, 3);
    Million();
  }

  /** Digits that do not start with zero are below the bound exactly up to 21 of them. */
  lemma UpTo21(d: Text)
    requires AllDigits(d) && d != [] && (d[0] != ZERO || |d| == 1)
    ensures Value(d) < SEXTILLION <==> |d| <= 21
  {
    Sextillion();
    DigitBounds(d);
    if |d| <= 21 {
      TenToMonotone(|d|, 21);
    } else {
      TenToMonotone(21, |d| - 1);
    }
  }

  lemma Scale(a: nat, b: nat, c: nat)
    requires c > 0
    ensures a < b ==> a * c < b * c
    ensures a >= b ==> a * c >= b * c
  {
    assert a < b ==> (b - a) * c > 0;
    assert a >= b ==> (a - b) * c >= 0;
  }

  /** Digits that do not start with zero, at so many places, are a millionth or more exactly
      when at most five zeros stand between them and the point. */
  lemma MillionthExactly(d: Text, places: nat)
    requires AllDigits(d) && d != [] && d[0] != ZERO
    ensures MillionthOrMore(Value(d), places) <==> places <= |d| + 5
  {
    var k := |d|;
    DigitBounds(d);
    Million();
    if places <= k + 5 {
      TenToAdd(k - 1, 6);
      TenToMonotone(places, k + 5);
      Scale(Value(d), TenTo(k - 1), MILLION);
    } else {
      TenToAdd(k, 6);
      TenToMonotone(k + 6, places);
      Scale(Value(d), TenTo(k), MILLION);
    }
  }

  // ------------------------------------------------------- the prescribed form is tidy

  lemma WholeTidy(negative: bool, d: Text, n: int)
    requires Normalized(d) && |d| <= n <= 21
    ensures Tidy(JsNumeral(negative, d, n))
  {
    var y := JsNumeral(negative, d, n);
    JsWhole(negative, d, n);
    assert y.whole == d + Zeros(n - |d|) && y.whole[0] == d[0] && DigitsOf(y) == y.whole;
    UpTo21(y.whole);
    MillionthExactly(y.whole, 0);
  }

  lemma MixedTidy(negative: bool, d: Text, n: int)
    requires Normalized(d) && 0 < n <= 21 && n < |d|
    ensures Tidy(JsNumeral(negative, d, n))
  {
    var y := JsNumeral(negative, d, n);
    JsMixed(negative, d, n);
    assert y.whole == d[..n] && y.fraction == Some(d[n..]) && DigitsOf(y) == d;
    UpTo21(y.whole);
    MillionthExactly(d, |d| - n);
  }

  lemma SmallTidy(negative: bool, d: Text, n: int)
    requires Normalized(d) && -6 < n <= 0
    ensures Tidy(JsNumeral(negative, d, n))
  {
    var y := JsNumeral(negative, d, n);
    JsSmall(negative, d, n);
    assert y.whole == [ZERO] && y.fraction == Some(Zeros(-n) + d);
    SmallDigits(y, -n, d);
    UpTo21(y.whole);
    MillionthExactly(d, |d| - n);
  }

  /** Zeros before the digits do not count. */
  lemma SmallDigits(y: Numeral, z: nat, d: Text)
    requires AllDigits(d) && y.whole == [ZERO] && y.fraction == Some(Zeros(z) + d)
    ensures AllDigits(DigitsOf(y)) && Value(DigitsOf(y)) == Value(d)
  {
    var lead := [ZERO] + Zeros(z);
    assert DigitsOf(y) == lead + d + [];
    ValuePadded(lead, d, []);
    assert TenTo(0) == 1;
  }

  lemma ScientificTidy(negative: bool, d: Text, n: int)
    requires Normalized(d) && !(-6 < n <= 21)
    ensures Tidy(JsNumeral(negative, d, n))
  {
    JsDenotes(negative, d, n);
    SignedExponentValue(n - 1);
    SpellingCanonical(if n - 1 < 0 then -(n - 1) else n - 1);
  }

  /** The form of section 6.1.6.1.20 of ECMA-262 is tidy. */
  lemma JsTidy(negative: bool, d: Text, n: int)
    requires Normalized(d)
    ensures Tidy(JsNumeral(negative, d, n))
  {
    if |d| <= n <= 21 {
      WholeTidy(negative, d, n);
    } else if 0 < n <= 21 {
      MixedTidy(negative, d, n);
    } else if -6 < n <= 0 {
      SmallTidy(negative, d, n);
    } else {
      ScientificTidy(negative, d, n);
    }
  }

  // ------------------------------------------------------- every tidy text is of that form

  /** `y` is the prescribed form of digits `d` with the point at `n`. */
  predicate IsForm(y: Numeral, d: Text, n: int) { Normalized(d) && y == JsNumeral(y.negative, d, n) }

  function LeadingCount(s: Text): (z: nat)
    ensures z <= |s| && (z < |s| ==> s[z] != ZERO) && forall i :: 0 <= i < z ==> s[i] == ZERO
  {
    if s == [] || s[0] != ZERO then 0 else 1 + LeadingCount(s[1..])
  }

  function TrailingCount(s: Text): (z: nat)
    ensures z <= |s| && (z < |s| ==> s[|s| - 1 - z] != ZERO) && forall i :: |s| - z <= i < |s| ==> s[i] == ZERO
  {
    if s == [] || s[|s| - 1] != ZERO then 0 else 1 + TrailingCount(s[..|s| - 1])
  }

  lemma WholeNonzero(y: Numeral)
    requires Tidy(y) && y.exponent.None? && y.fraction.None?
    ensures y.whole[0] != ZERO
  {
    assert DigitsOf(y) == y.whole;
    if y.whole[0] == ZERO { ZeroValue(y.whole); }
  }

  lemma WholeIsForm(y: Numeral)
    requires Tidy(y) && y.exponent.None? && y.fraction.None?
    ensures exists d: Text, n: int :: IsForm(y, d, n)
  {
    var z := TrailingCount(y.whole);
    WholeNonzero(y);
    var d := y.whole[..|y.whole| - z];
    UpTo21(y.whole);
    assert y.whole == d + Zeros(z);
    assert IsForm(y, d, |y.whole|);
  }

  lemma MixedIsForm(y: Numeral)
    requires Tidy(y) && y.exponent.None? && y.fraction.Some? && y.whole[0] != ZERO
    ensures exists d: Text, n: int :: IsForm(y, d, n)
  {
    var d := y.whole + y.fraction.value;
    UpTo21(y.whole);
    assert d[..|y.whole|] == y.whole && d[|y.whole|..] == y.fraction.value;
    assert IsForm(y, d, |y.whole|);
  }

  lemma SmallIsForm(y: Numeral)
    requires Tidy(y) && y.exponent.None? && y.fraction.Some? && y.whole[0] == ZERO
    ensures exists d: Text, n: int :: IsForm(y, d, n)
  {
    var f := y.fraction.value;
    var z := LeadingCount(f);
    var d := f[z..];
    assert f == Zeros(z) + d && y.whole == [ZERO];
    SmallDigits(y, z, d);
    MillionthExactly(d, |f|);
    var n: int := z;
    assert IsForm(y, d, -n);
  }

  lemma ScientificIsForm(y: Numeral)
    requires Tidy(y) && y.exponent.Some?
    ensures exists d: Text, n: int :: IsForm(y, d, n)
  {
    var d, e := DigitsOf(y), ExponentOf(y.exponent);
    CanonicalSpelling(y.exponent.value.digits);
    assert y.exponent.value == SignedExponent(e);
    assert d[..1] == y.whole && d[1..] == FractionOf(y);
    assert y == ScientificNumeral(y.negative, d, SignedExponent(e));
    assert IsForm(y, d, e + 1);
  }

  lemma TidyIsForm(y: Numeral)
    requires Tidy(y)
    ensures exists d: Text, n: int :: IsForm(y, d, n)
  {
    if y.exponent.Some? {
      ScientificIsForm(y);
    } else if y.fraction.None? {
      WholeIsForm(y);
    } else if y.whole[0] == ZERO {
      SmallIsForm(y);
    } else {
      MixedIsForm(y);
    }
  }

  lemma FormDenotes(y: Numeral, d: Text, n: int)
    requires Tidy(y) && IsForm(y, d, n)
    ensures Same(Magnitude(y), Scaled(Value(d), n - |d|)) && Same(Scaled(Value(d), n - |d|), Magnitude(y))
  {
    JsDenotes(y.negative, d, n);
    SameRefl(Magnitude(y));
    SameTransitive(Magnitude(y), Magnitude(y), Scaled(Value(d), n - |d|));
    SameTransitive(Magnitude(y), Scaled(Value(d), n - |d|), Scaled(Value(d), n - |d|));
  }

  lemma SameForm(x: Numeral, d: Text, m: int, y: Numeral, f: Text, n: int)
    requires Tidy(x) && Tidy(y) && IsForm(x, d, m) && IsForm(y, f, n) && Same(Magnitude(x), Magnitude(y))
    ensures d == f && m == n
  {
    FormDenotes(x, d, m);
    FormDenotes(y, f, n);
    SameTransitive(Magnitude(x), Magnitude(y), Scaled(Value(f), n - |f|));
    SameTransitive(Scaled(Value(d), m - |d|), Magnitude(x), Scaled(Value(f), n - |f|));
    NormalizedUnique(d, m, f, n);
  }

  /** A number has one tidy text: tidiness, sign and number determine it. */
  lemma TidyUnique(x: Numeral, y: Numeral)
    requires Tidy(x) && Tidy(y) && x.negative == y.negative && Same(Magnitude(x), Magnitude(y))
    ensures x == y
  {
    TidyIsForm(x);
    TidyIsForm(y);
    var d: Text, m: int :| IsForm(x, d, m);
    var f: Text, n: int :| IsForm(y, f, n);
    SameForm(x, d, m, y, f, n);
  }
}
