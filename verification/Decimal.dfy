/** JavaScript spelling of finite nonzero numbers, from a rendered decimal onward. */
module Decimal {
  import opened Schema
  import opened Strings

  const PLUS: u16 := 43
  const MINUS: u16 := 45
  const POINT: u16 := 46
  const UPPER_E: u16 := 69
  const LOWER_E: u16 := 101

  type Text = seq<u16>

  /** An exponent part: its marker, an optional sign and digits. */
  datatype Exponent = Exponent(marker: u16, sign: Option<u16>, digits: Text)

  datatype Numeral = Numeral(negative: bool, whole: Text, fraction: Option<Text>, exponent: Option<Exponent>)

  function ShowExponent(e: Option<Exponent>): Text {
    if e.None? then []
    else [e.value.marker] + (if e.value.sign.Some? then [e.value.sign.value] else []) + e.value.digits
  }

  function ShowMantissa(x: Numeral): Text {
    x.whole + if x.fraction.Some? then [POINT] + x.fraction.value else []
  }

  /** The text of a numeral. */
  function Show(x: Numeral): Text {
    (if x.negative then [MINUS] else []) + (ShowMantissa(x) + ShowExponent(x.exponent))
  }

  predicate WellFormed(x: Numeral) {
    && x.whole != [] && AllDigits(x.whole) && (x.fraction.Some? ==> AllDigits(x.fraction.value))
    && (x.exponent.Some? ==>
          && (x.exponent.value.marker == LOWER_E || x.exponent.value.marker == UPPER_E)
          && (x.exponent.value.sign.Some? ==>
                x.exponent.value.sign.value == PLUS || x.exponent.value.sign.value == MINUS)
          && AllDigits(x.exponent.value.digits) && x.exponent.value.digits != [])
  }

  function FractionOf(x: Numeral): Text { if x.fraction.Some? then x.fraction.value else [] }

  /** All digits of the mantissa. */
  function DigitsOf(x: Numeral): Text { x.whole + FractionOf(x) }

  function ExponentOf(e: Option<Exponent>): int
    requires e.Some? ==> AllDigits(e.value.digits)
  {
    if e.None? then 0
    else if e.value.sign == Some(MINUS) then 0 - Value(e.value.digits) as int
    else Value(e.value.digits)
  }

  // ------------------------------------------------------- what a numeral denotes

  function TenTo(n: nat): (r: nat)
    ensures r > 0
  {
    if n == 0 then 1 else 10 * TenTo(n - 1)
  }

  /** The number coefficient times ten to the exponent. */
  datatype Scaled = Scaled(coefficient: nat, exponent: int)

  /** Equality of the rational numbers denoted. */
  predicate Same(x: Scaled, y: Scaled) {
    if x.exponent <= y.exponent then x.coefficient == y.coefficient * TenTo(y.exponent - x.exponent)
    else x.coefficient * TenTo(x.exponent - y.exponent) == y.coefficient
  }

  /** The magnitude denoted: the digits as a whole number, scaled. */
  function Magnitude(x: Numeral): Scaled
    requires WellFormed(x)
  {
    Scaled(Value(DigitsOf(x)), ExponentOf(x.exponent) - |FractionOf(x)|)
  }

  lemma {:induction false} TenToAdd(a: nat, b: nat)
    ensures TenTo(a + b) == TenTo(a) * TenTo(b)
  {
    if a > 0 { TenToAdd(a - 1, b); }
  }

  lemma Cancel(x: nat, y: nat, k: nat)
    requires k > 0 && x * k == y * k
    ensures x == y
  {
    assert (x - y) * k == 0;
    assert x - y > 0 ==> (x - y) * k > 0;
    assert y - x > 0 ==> (y - x) * k > 0;
  }

  /** The number as a multiple of ten to `low`. */
  function At(x: Scaled, low: int): nat
    requires low <= x.exponent
  {
    x.coefficient * TenTo(x.exponent - low)
  }

  lemma Rescale(m: nat, j: nat, k: nat)
    ensures m * TenTo(j) * TenTo(k) == m * TenTo(j + k)
  {
    TenToAdd(j, k);
  }

  lemma SameAt(x: Scaled, y: Scaled, low: int)
    requires low <= x.exponent && low <= y.exponent
    ensures Same(x, y) <==> At(x, low) == At(y, low)
  {
    if x.exponent <= y.exponent {
      var gap, rest := y.exponent - x.exponent, x.exponent - low;
      Rescale(y.coefficient, gap, rest);
      if At(x, low) == At(y, low) { Cancel(x.coefficient, y.coefficient * TenTo(gap), TenTo(rest)); }
    } else {
      var gap, rest := x.exponent - y.exponent, y.exponent - low;
      Rescale(x.coefficient, gap, rest);
      if At(x, low) == At(y, low) { Cancel(x.coefficient * TenTo(gap), y.coefficient, TenTo(rest)); }
    }
  }

  lemma SameTransitive(x: Scaled, y: Scaled, z: Scaled)
    requires Same(x, y) && Same(y, z)
    ensures Same(x, z) && Same(y, x)
  {
    var low := if x.exponent <= y.exponent then x.exponent else y.exponent;
    var lowest := if low <= z.exponent then low else z.exponent;
    SameAt(x, y, lowest);
    SameAt(y, x, lowest);
    SameAt(y, z, lowest);
    SameAt(x, z, lowest);
  }

  // ------------------------------------------------------- digit strings

  function Zeros(n: nat): (z: Text)
    ensures |z| == n && AllDigits(z) && forall i :: 0 <= i < n ==> z[i] == ZERO
  {
    seq(n, _ => ZERO)
  }

  lemma ShiftIn(v: nat, t: nat, r: nat, d: nat)
    ensures 10 * (v * t + r) + d == v * (10 * t) + (10 * r + d)
  {}

  lemma ValueSnoc(a: Text, digit: u16)
    requires AllDigits(a) && IsDigit(digit)
    ensures AllDigits(a + [digit]) && Value(a + [digit]) == 10 * Value(a) + (digit - ZERO)
  {
    assert (a + [digit])[..|a|] == a;
  }

  lemma {:induction false} ValueJoin(a: Text, b: Text)
    requires AllDigits(a) && AllDigits(b)
    ensures AllDigits(a + b) && Value(a + b) == Value(a) * TenTo(|b|) + Value(b)
  {
    if b == [] {
      assert a + b == a;
    } else {
      var rest, last := b[..|b| - 1], b[|b| - 1];
      ValueJoin(a, rest);
      ValueSnoc(a + rest, last);
      assert a + b == a + rest + [last];
      ShiftIn(Value(a), TenTo(|rest|), Value(rest), last - ZERO);
    }
  }

  lemma {:induction false} ZeroValue(z: Text)
    requires AllDigits(z) && forall i :: 0 <= i < |z| ==> z[i] == ZERO
    ensures Value(z) == 0
  {
    if z != [] { ZeroValue(z[..|z| - 1]); }
  }

  /** Leading zeros do not count, trailing zeros scale. */
  lemma ValuePadded(lead: Text, d: Text, trail: Text)
    requires AllDigits(lead) && AllDigits(d) && AllDigits(trail)
    requires (forall i :: 0 <= i < |lead| ==> lead[i] == ZERO) && (forall i :: 0 <= i < |trail| ==> trail[i] == ZERO)
    ensures AllDigits(lead + d + trail) && Value(lead + d + trail) == Value(d) * TenTo(|trail|)
  {
    ZeroValue(lead);
    ZeroValue(trail);
    ValueJoin(lead, d);
    ValueJoin(lead + d, trail);
  }

  /** Digits without leading or trailing zeros. */
  predicate Normalized(d: Text) { d != [] && AllDigits(d) && d[0] != ZERO && d[|d| - 1] != ZERO }

  // ------------------------------------------------------- the JavaScript form

  function SignedExponent(e: int): Exponent {
    Exponent(LOWER_E, Some(if e < 0 then MINUS else PLUS), Spelling(if e < 0 then -e else e))
  }

  /** The form that section 6.1.6.1.20 of ECMA-262 prescribes for the digits of s and the
      decimal point position n; positional exactly for n from -5 to 21. */
  function JsNumeral(negative: bool, d: Text, n: int): Numeral
    requires d != []
  {
    if |d| <= n <= 21 then Numeral(negative, d + Zeros(n - |d|), None, None)
    else if 0 < n <= 21 then Numeral(negative, d[..n], Some(d[n..]), None)
    else if -6 < n <= 0 then Numeral(negative, [ZERO], Some(Zeros(-n) + d), None)
    else
      ScientificNumeral(negative, d, SignedExponent(n - 1))
  }

  lemma SameRefl(x: Scaled)
    ensures Same(x, x)
  {}

  ghost predicate DenotesScaled(x: Numeral, d: Text, n: int)
    requires AllDigits(d)
  {
    WellFormed(x) && Same(Magnitude(x), Scaled(Value(d), n - |d|))
  }

  lemma JsWhole(negative: bool, d: Text, n: int)
    requires d != [] && AllDigits(d) && |d| <= n <= 21
    ensures DenotesScaled(JsNumeral(negative, d, n), d, n)
  {
    var x := Numeral(negative, d + Zeros(n - |d|), None, None);
    assert DigitsOf(x) == [] + d + Zeros(n - |d|);
    ValuePadded([], d, Zeros(n - |d|));
    assert x.whole == DigitsOf(x);
  }

  lemma JsMixed(negative: bool, d: Text, n: int)
    requires AllDigits(d) && 0 < n <= 21 && n < |d|
    ensures DenotesScaled(JsNumeral(negative, d, n), d, n)
  {
    var x := Numeral(negative, d[..n], Some(d[n..]), None);
    assert DigitsOf(x) == d;
    SameRefl(Magnitude(x));
  }

  lemma JsSmall(negative: bool, d: Text, n: int)
    requires d != [] && AllDigits(d) && -6 < n <= 0
    ensures DenotesScaled(JsNumeral(negative, d, n), d, n)
  {
    var x, lead := Numeral(negative, [ZERO], Some(Zeros(-n) + d), None), [ZERO] + Zeros(-n);
    assert DigitsOf(x) == lead + d + [];
    ValuePadded(lead, d, []);
    SameRefl(Magnitude(x));
  }

  lemma SignedExponentValue(e: int)
    ensures AllDigits(SignedExponent(e).digits) && SignedExponent(e).digits != []
    ensures ExponentOf(Some(SignedExponent(e))) == e
  {
    SpellingCanonical(if e < 0 then -e else e);
  }

  function ScientificNumeral(negative: bool, d: Text, exponent: Exponent): Numeral
    requires d != []
  {
    Numeral(negative, d[..1], if |d| == 1 then None else Some(d[1..]), Some(exponent))
  }

  lemma ScientificDenotes(negative: bool, d: Text, exponent: Exponent, e: int)
    requires d != [] && AllDigits(d) && AllDigits(exponent.digits) && ExponentOf(Some(exponent)) == e
    requires exponent.digits != [] && exponent.marker == LOWER_E
    requires exponent.sign == Some(PLUS) || exponent.sign == Some(MINUS)
    ensures DenotesScaled(ScientificNumeral(negative, d, exponent), d, e + 1)
  {
    var x := ScientificNumeral(negative, d, exponent);
    assert DigitsOf(x) == d;
    SameRefl(Magnitude(x));
  }

  /** It denotes the digits scaled so that the point stands after position n. */
  lemma JsDenotes(negative: bool, d: Text, n: int)
    requires d != [] && AllDigits(d)
    ensures DenotesScaled(JsNumeral(negative, d, n), d, n)
  {
    if |d| <= n <= 21 {
      JsWhole(negative, d, n);
    } else if 0 < n <= 21 {
      JsMixed(negative, d, n);
    } else if -6 < n <= 0 {
      JsSmall(negative, d, n);
    } else {
      SignedExponentValue(n - 1);
      ScientificDenotes(negative, d, SignedExponent(n - 1), n - 1);
    }
  }

  /** Normalized digits and scale are determined by the number. */
  lemma NormalizedUnique(a: Text, m: int, b: Text, n: int)
    requires Normalized(a) && Normalized(b)
    requires Same(Scaled(Value(a), m - |a|), Scaled(Value(b), n - |b|))
    ensures a == b && m == n
  {
    var e, f := m - |a|, n - |b|;
    if e < f {
      LastDigit(a, Value(b), f - e);
    } else if f < e {
      LastDigit(b, Value(a), e - f);
    } else {
      CanonicalSpelling(a);
      CanonicalSpelling(b);
    }
  }

  /** A digit string that does not end in zero is no multiple of ten. */
  lemma LastDigit(a: Text, v: nat, t: nat)
    requires Normalized(a) && t > 0
    ensures Value(a) != v * TenTo(t)
  {
    assert v * TenTo(t) == 10 * (v * TenTo(t - 1));
    assert Value(a) == 10 * Value(a[..|a| - 1]) + (a[|a| - 1] - ZERO);
  }
}
