/** The formatter that turns a rendered decimal into JavaScript's spelling, step by step. */
module NumberFormat {
  import opened Decimal
  import opened NumberText
  import opened Schema
  import opened Strings

  const I32_MIN: int := -0x8000_0000

  /** Position of the first of two code units, or the length. */
  function FirstOf(text: Text, a: u16, b: u16): (i: nat)
    ensures i <= |text| && (i < |text| ==> text[i] == a || text[i] == b)
    ensures forall j :: 0 <= j < i ==> text[j] != a && text[j] != b
  {
    if text == [] || text[0] == a || text[0] == b then 0 else 1 + FirstOf(text[1..], a, b)
  }

  lemma FirstOfIs(text: Text, a: u16, b: u16, i: nat)
    requires i <= |text| && (i < |text| ==> text[i] == a || text[i] == b)
    requires forall j :: 0 <= j < i ==> text[j] != a && text[j] != b
    ensures FirstOf(text, a, b) == i
  {
    assert !(FirstOf(text, a, b) < i);
  }

  method Find(text: Text, a: u16, b: u16) returns (i: nat)
    ensures i == FirstOf(text, a, b)
  {
    i := 0;
    while i < |text| && text[i] != a && text[i] != b
      invariant i <= |text| && forall j :: 0 <= j < i ==> text[j] != a && text[j] != b
    {
      i := i + 1;
    }
    FirstOfIs(text, a, b, i);
  }

  function DropPoints(text: Text): Text {
    if text == [] then []
    else DropPoints(text[..|text| - 1]) + if text[|text| - 1] == POINT then [] else [text[|text| - 1]]
  }

  lemma {:induction false} DropPointsJoin(a: Text, b: Text)
    ensures DropPoints(a + b) == DropPoints(a) + DropPoints(b)
  {
    if b == [] {
      assert a + b == a;
    } else {
      DropPointsJoin(a, b[..|b| - 1]);
      assert (a + b)[..|a + b| - 1] == a + b[..|b| - 1];
    }
  }

  lemma {:induction false} DropPointsDigits(text: Text)
    requires AllDigits(text)
    ensures DropPoints(text) == text
  {
    if text != [] {
      DropPointsDigits(text[..|text| - 1]);
      assert text == text[..|text| - 1] + [text[|text| - 1]];
    }
  }

  method WithoutPoints(text: Text) returns (digits: Text)
    ensures digits == DropPoints(text)
  {
    digits := [];
    for i := 0 to |text|
      invariant digits == DropPoints(text[..i])
    {
      assert text[..i + 1][..i] == text[..i];
      if text[i] != POINT {
        digits := digits + [text[i]];
      }
    }
    assert text[..|text|] == text;
  }

  // ------------------------------------------------------- reading a numeral back

  function Unsigned(text: Text): Text { if text != [] && text[0] == MINUS then text[1..] else text }

  function MantissaText(text: Text): Text { Unsigned(text)[..FirstOf(Unsigned(text), LOWER_E, UPPER_E)] }

  function ExponentText(text: Text): Text { Unsigned(text)[FirstOf(Unsigned(text), LOWER_E, UPPER_E)..] }

  lemma ReadUnsigned(x: Numeral)
    requires WellFormed(x)
    ensures Unsigned(Show(x)) == ShowMantissa(x) + ShowExponent(x.exponent)
    ensures x.negative <==> Show(x) != [] && Show(x)[0] == MINUS
  {
    var body := ShowMantissa(x) + ShowExponent(x.exponent);
    assert body[0] == x.whole[0] && IsDigit(x.whole[0]);
    if x.negative {
      assert Show(x)[1..] == body;
    } else {
      assert Show(x) == body;
    }
  }

  lemma SplitPoint(x: Numeral)
    requires WellFormed(x)
    ensures FirstOf(ShowMantissa(x) + ShowExponent(x.exponent), LOWER_E, UPPER_E) == |ShowMantissa(x)|
  {
    var mantissa, exponent := ShowMantissa(x), ShowExponent(x.exponent);
    var body := mantissa + exponent;
    forall j | 0 <= j < |mantissa| ensures body[j] != LOWER_E && body[j] != UPPER_E {
      if j < |x.whole| {
        assert body[j] == x.whole[j];
      } else if j > |x.whole| {
        assert body[j] == x.fraction.value[j - |x.whole| - 1];
      }
    }
    FirstOfIs(body, LOWER_E, UPPER_E, |mantissa|);
  }

  lemma ReadMantissa(x: Numeral)
    requires WellFormed(x)
    ensures MantissaText(Show(x)) == ShowMantissa(x) && ExponentText(Show(x)) == ShowExponent(x.exponent)
  {
    ReadUnsigned(x);
    SplitPoint(x);
  }

  lemma ReadPoint(x: Numeral)
    requires WellFormed(x)
    ensures FirstOf(ShowMantissa(x), POINT, POINT) == |x.whole| && DropPoints(ShowMantissa(x)) == DigitsOf(x)
  {
    var mantissa := ShowMantissa(x);
    forall j | 0 <= j < |x.whole| ensures mantissa[j] != POINT { assert mantissa[j] == x.whole[j]; }
    FirstOfIs(mantissa, POINT, POINT, |x.whole|);
    DropPointsDigits(x.whole);
    if x.fraction.Some? {
      DropPointsDigits(x.fraction.value);
      DropPointsJoin([POINT], x.fraction.value);
      DropPointsJoin(x.whole, [POINT] + x.fraction.value);
      assert DropPoints([POINT]) == [];
      assert [] + x.fraction.value == x.fraction.value;
    } else {
      assert mantissa == x.whole == DigitsOf(x);
    }
  }

  lemma ReadExponent(e: Exponent, f: Exponent)
    requires ShowExponent(Some(e)) == ShowExponent(Some(f)) && AllDigits(e.digits) && AllDigits(f.digits)
    requires e.sign.Some? ==> e.sign.value == PLUS || e.sign.value == MINUS
    requires f.sign.Some? ==> f.sign.value == PLUS || f.sign.value == MINUS
    requires e.digits != [] && f.digits != []
    ensures e == f
  {
    var a, b := ShowExponent(Some(e)), ShowExponent(Some(f));
    assert a[0] == e.marker && b[0] == f.marker;
    assert a[1] == if e.sign.Some? then e.sign.value else e.digits[0];
    assert b[1] == if f.sign.Some? then f.sign.value else f.digits[0];
    assert e.digits == if e.sign.Some? then a[2..] else a[1..];
    assert f.digits == if f.sign.Some? then b[2..] else b[1..];
  }

  lemma MantissaInjective(x: Numeral, y: Numeral)
    requires WellFormed(x) && WellFormed(y) && Show(x) == Show(y)
    ensures x.negative == y.negative
    ensures ShowMantissa(x) == ShowMantissa(y) && ShowExponent(x.exponent) == ShowExponent(y.exponent)
  {
    ReadUnsigned(x);
    ReadUnsigned(y);
    ReadMantissa(x);
    ReadMantissa(y);
  }

  lemma PointInjective(x: Numeral, y: Numeral)
    requires WellFormed(x) && WellFormed(y) && ShowMantissa(x) == ShowMantissa(y)
    ensures DigitsOf(x) == DigitsOf(y) && |FractionOf(x)| == |FractionOf(y)|
  {
    ReadPoint(x);
    ReadPoint(y);
    assert |FractionOf(x)| == |DigitsOf(x)| - |x.whole|;
    assert |FractionOf(y)| == |DigitsOf(y)| - |y.whole|;
  }

  /** Texts of well-formed numerals determine sign and magnitude. */
  lemma ShowInjective(x: Numeral, y: Numeral)
    requires WellFormed(x) && WellFormed(y) && Show(x) == Show(y)
    ensures x.negative == y.negative && Magnitude(x) == Magnitude(y)
  {
    MantissaInjective(x, y);
    PointInjective(x, y);
    if x.exponent.Some? && y.exponent.Some? {
      ReadExponent(x.exponent.value, y.exponent.value);
    }
  }

  // ------------------------------------------------------- saturating 32-bit arithmetic

  function Clamp(x: int): int { if x > I32_MAX then I32_MAX else if x < I32_MIN then I32_MIN else x }

  function SatAdd(a: int, b: int): int { Clamp(a + b) }

  function SatSub(a: int, b: int): int { Clamp(a - b) }

  function SatMul(a: int, b: int): int { Clamp(a * b) }

  /** An explicit exponent as read, held at 2^31-1 on either side. */
  function Held(exponent: int): int {
    if exponent > I32_MAX then I32_MAX else if exponent < -(I32_MAX as int) then -(I32_MAX as int) else exponent
  }

  /** The scientific exponent by saturating steps. */
  function ScientificExponent(explicit: int, position: nat, first: nat): int {
    Steps(explicit, Clamp(position), Clamp(first))
  }

  function Steps(explicit: int, position: int, first: int): int {
    SatSub(SatSub(SatAdd(explicit, position), first), 1)
  }

  /** No step leaves 32 bits. */
  predicate NoClamp(exponent: int, position: nat, first: nat) {
    && -(I32_MAX as int) <= exponent <= I32_MAX && position <= I32_MAX && first <= I32_MAX
    && exponent + position <= I32_MAX && exponent + position - first - 1 >= I32_MIN
  }

  /** Two steps leave 32 bits and their errors cancel; only for texts of 2^31 digits and more. */
  predicate Compensates(exponent: int, position: nat, first: nat) {
    if first <= I32_MAX then position > I32_MAX && exponent == -(position as int)
    else if exponent >= 0 then exponent + position == first
    else if exponent >= -(I32_MAX as int) then position > I32_MAX && position == first
    else position > I32_MAX && position - first == -(I32_MAX as int) - exponent
  }

  /** The saturating steps are exact under this condition and under no other. */
  lemma ScientificExact(exponent: int, position: nat, first: nat)
    requires position > 0
    ensures ScientificExponent(Held(exponent), position, first) == exponent + position - first - 1 <==>
            NoClamp(exponent, position, first) || Compensates(exponent, position, first)
  {
    if position <= I32_MAX && first <= I32_MAX {
      BothSmall(exponent, position, first);
    } else if first <= I32_MAX {
      ManyBeforePoint(exponent, position, first);
    } else if position <= I32_MAX {
      ManyZeros(exponent, position, first);
    } else {
      BothLarge(exponent, position, first);
    }
  }

  /** The steps saturate at the sum, or at the end, or not at all. */
  lemma StepsExactly(held: int, p: int, f: int)
    requires -(I32_MAX as int) <= held <= I32_MAX && 0 <= p <= I32_MAX && 0 <= f <= I32_MAX
    ensures held + p > I32_MAX ==> Steps(held, p, f) == I32_MAX - f - 1
    ensures held + p <= I32_MAX && held + p - f - 1 >= I32_MIN ==> Steps(held, p, f) == held + p - f - 1
    ensures held + p - f - 1 < I32_MIN ==> Steps(held, p, f) == I32_MIN
  {
    if held + p > I32_MAX {
      assert SatAdd(held, p) == I32_MAX;
    } else {
      assert SatAdd(held, p) == held + p;
    }
  }

  lemma BothSmall(exponent: int, position: nat, first: nat)
    requires 0 < position <= I32_MAX && first <= I32_MAX
    ensures Steps(Held(exponent), position, first) == exponent + position - first - 1 <==>
            NoClamp(exponent, position, first)
  {
    StepsExactly(Held(exponent), position, first);
  }

  lemma ManyBeforePoint(exponent: int, position: nat, first: nat)
    requires position > I32_MAX && first <= I32_MAX
    ensures Steps(Held(exponent), I32_MAX, first) == exponent + position - first - 1 <==> exponent + position == 0
  {
    StepsExactly(Held(exponent), I32_MAX, first);
  }

  lemma ManyZeros(exponent: int, position: nat, first: nat)
    requires 0 < position <= I32_MAX && first > I32_MAX
    ensures Steps(Held(exponent), position, I32_MAX) == exponent + position - first - 1 <==>
            exponent >= 0 && exponent + position == first
  {
    StepsExactly(Held(exponent), position, I32_MAX);
  }

  lemma BothLarge(exponent: int, position: nat, first: nat)
    requires position > I32_MAX && first > I32_MAX
    ensures Steps(Held(exponent), I32_MAX, I32_MAX) == exponent + position - first - 1 <==>
            Compensates(exponent, position, first)
  {
    StepsExactly(Held(exponent), I32_MAX, I32_MAX);
  }

  /** Exponent digits by saturating multiplication and addition. */
  method FoldExponent(digits: Text) returns (e: int)
    requires AllDigits(digits)
    ensures e == Clamp(Value(digits))
  {
    e := 0;
    for i := 0 to |digits|
      invariant e == Clamp(Value(digits[..i]))
    {
      ValueNext(digits, i);
      e := SatAdd(SatMul(e, 10), digits[i] - ZERO);
    }
    assert digits[..|digits|] == digits;
  }

  /** The exponent after its marker, with an optional sign. */
  method ParseDecimalExponent(text: Text, ghost e: Exponent) returns (value: int)
    requires AllDigits(e.digits) && e.digits != []
    requires e.sign.Some? ==> e.sign.value == PLUS || e.sign.value == MINUS
    requires text == (if e.sign.Some? then [e.sign.value] else []) + e.digits
    ensures value == Held(ExponentOf(Some(e)))
  {
    var negative := text != [] && text[0] == MINUS;
    var digits := if negative then text[1..] else text;
    if digits != [] && digits[0] == PLUS {
      digits := digits[1..];
    }
    assert negative <==> e.sign == Some(MINUS);
    assert digits == e.digits;
    var magnitude := FoldExponent(digits);
    value := if negative then -magnitude else magnitude;
  }

  /** Splits the mantissa from the explicit exponent. */
  method SplitExponent(unsigned: Text, ghost x: Numeral) returns (mantissa: Text, exponent: int)
    requires WellFormed(x) && unsigned == ShowMantissa(x) + ShowExponent(x.exponent)
    requires FirstOf(unsigned, LOWER_E, UPPER_E) == |ShowMantissa(x)|
    ensures mantissa == ShowMantissa(x)
    ensures exponent == Held(ExponentOf(x.exponent))
  {
    var split := Find(unsigned, LOWER_E, UPPER_E);
    mantissa, exponent := unsigned[..split], 0;
    if split < |unsigned| {
      var text := unsigned[split + 1..];
      ExponentTail(x.exponent, ShowMantissa(x), text);
      exponent := ParseDecimalExponent(text, x.exponent.value);
    }
  }

  lemma ExponentTail(e: Option<Exponent>, mantissa: Text, tail: Text)
    requires var all := mantissa + ShowExponent(e); |mantissa| < |all| && tail == all[|mantissa| + 1..]
    ensures e.Some? && tail == (if e.value.sign.Some? then [e.value.sign.value] else []) + e.value.digits
  {
    DropHead(mantissa, ShowExponent(e));
    DropHead([e.value.marker], (if e.value.sign.Some? then [e.value.sign.value] else []) + e.value.digits);
  }

  lemma DropHead(a: Text, b: Text)
    ensures (a + b)[|a|..] == b
    ensures b != [] ==> (a + b)[|a| + 1..] == b[1..]
  {}

  /** Splits a rendered decimal into sign, digits, point position and explicit exponent. */
  method Dissect(rendered: Text, ghost x: Numeral)
    returns (negative: bool, digits: Text, position: nat, exponent: int)
    requires WellFormed(x) && rendered == Show(x)
    ensures negative == x.negative && digits == DigitsOf(x) && position == |x.whole|
    ensures exponent == Held(ExponentOf(x.exponent))
  {
    ReadUnsigned(x);
    SplitPoint(x);
    ReadPoint(x);
    negative := rendered != [] && rendered[0] == MINUS;
    var mantissa;
    mantissa, exponent := SplitExponent(if negative then rendered[1..] else rendered, x);
    position := Find(mantissa, POINT, POINT);
    digits := WithoutPoints(mantissa);
  }

  function LeadingZeros(digits: Text): (n: nat)
    ensures n <= |digits| && (n < |digits| ==> digits[n] != ZERO)
    ensures forall i :: 0 <= i < n ==> digits[i] == ZERO
  {
    if digits == [] || digits[0] != ZERO then 0 else 1 + LeadingZeros(digits[1..])
  }

  lemma LeadingZerosIs(digits: Text, n: nat)
    requires n < |digits| && digits[n] != ZERO && forall i :: 0 <= i < n ==> digits[i] == ZERO
    ensures LeadingZeros(digits) == n
  {
    assert !(n < LeadingZeros(digits));
  }

  method FirstSignificant(digits: Text) returns (first: nat)
    requires exists j :: 0 <= j < |digits| && digits[j] != ZERO
    ensures first < |digits| && first == LeadingZeros(digits) && digits[..first] == Zeros(first)
  {
    first := 0;
    while digits[first] == ZERO
      invariant first < |digits| && exists j :: first <= j < |digits| && digits[j] != ZERO
      invariant forall j :: 0 <= j < first ==> digits[j] == ZERO
      decreases |digits| - first
    {
      first := first + 1;
    }
    LeadingZerosIs(digits, first);
  }

  method TrimTrailing(digits: Text) returns (d: Text, ghost trailing: nat)
    requires digits != [] && digits[0] != ZERO && AllDigits(digits)
    ensures Normalized(d) && digits == d + Zeros(trailing)
  {
    d, trailing := digits, 0;
    while |d| > 1 && d[|d| - 1] == ZERO
      invariant 1 <= |d| <= |digits| && d == digits[..|d|]
      invariant trailing == |digits| - |d| && forall j :: |d| <= j < |digits| ==> digits[j] == ZERO
    {
      d, trailing := d[..|d| - 1], trailing + 1;
    }
  }

  /** Drops leading zeros and then trailing zeros. */
  method Strip(digits: Text) returns (first: nat, d: Text, ghost trailing: nat)
    requires AllDigits(digits) && Value(digits) > 0
    ensures Normalized(d) && digits == Zeros(first) + d + Zeros(trailing) && first == LeadingZeros(digits)
  {
    SomeNonzero(digits);
    first := FirstSignificant(digits);
    d, trailing := TrimTrailing(digits[first..]);
    Parts(digits, first, d, Zeros(trailing));
  }

  lemma Parts(all: Text, k: nat, a: Text, b: Text)
    requires k <= |all| && all[k..] == a + b
    ensures all == all[..k] + a + b
  {}

  lemma SomeNonzero(digits: Text)
    requires AllDigits(digits) && Value(digits) > 0
    ensures exists j :: 0 <= j < |digits| && digits[j] != ZERO
  {
    if forall j :: 0 <= j < |digits| ==> digits[j] == ZERO { ZeroValue(digits); }
  }

  function IntText(e: int): Text { if e < 0 then [MINUS] + Spelling(-e) else Spelling(e) }

  function Sign(negative: bool): Text { if negative then [MINUS] else [] }

  /** Writes sign, digits and point for a scientific exponent. */
  method Write(negative: bool, d: Text, e: int) returns (out: Text)
    requires d != []
    ensures out == Show(JsNumeral(negative, d, e + 1))
  {
    var sign := Sign(negative);
    if !(-6 <= e < 21) {
      out := WriteScientific(sign, d, e);
      ScientificText(negative, d, e);
    } else if e < 0 {
      out := sign + [ZERO, POINT] + Zeros(-e - 1) + d;
      SmallText(negative, d, e + 1);
    } else if e + 1 >= |d| {
      out := sign + d + Zeros(e + 1 - |d|);
      WholeText(negative, d, e + 1);
    } else {
      out := sign + d[..e + 1] + [POINT] + d[e + 1..];
      MixedText(negative, d, e + 1);
    }
  }

  method WriteScientific(start: Text, d: Text, e: int) returns (out: Text)
    requires d != []
    ensures out == start + [d[0]] + Tail(d) + [LOWER_E] + (if e >= 0 then [PLUS] else []) + IntText(e)
  {
    out := start + [d[0]] + Tail(d) + [LOWER_E];
    out := out + (if e >= 0 then [PLUS] else []);
    out := out + IntText(e);
  }

  /** The digits after the first, with their point. */
  function Tail(d: Text): Text
    requires d != []
  {
    if |d| == 1 then [] else [POINT] + d[1..]
  }

  lemma SmallText(negative: bool, d: Text, n: int)
    requires d != [] && -6 < n <= 0
    ensures Sign(negative) + [ZERO, POINT] + Zeros(-n) + d == Show(JsNumeral(negative, d, n))
  {
    PositionalText(Sign(negative), [ZERO], [POINT], Zeros(-n) + d);
    assert Sign(negative) + [ZERO, POINT] + Zeros(-n) + d == Sign(negative) + [ZERO] + [POINT] + (Zeros(-n) + d);
  }

  lemma WholeText(negative: bool, d: Text, n: int)
    requires d != [] && |d| <= n <= 21
    ensures Sign(negative) + d + Zeros(n - |d|) == Show(JsNumeral(negative, d, n))
  {
    assert Sign(negative) + d + Zeros(n - |d|) == Sign(negative) + ((d + Zeros(n - |d|)) + [] + []);
  }

  lemma MixedText(negative: bool, d: Text, n: int)
    requires 0 < n <= 21 && n < |d|
    ensures Sign(negative) + d[..n] + [POINT] + d[n..] == Show(JsNumeral(negative, d, n))
  {
    PositionalText(Sign(negative), d[..n], [POINT], d[n..]);
  }

  lemma PositionalText(a: Text, b: Text, c: Text, d: Text)
    ensures a + b + c + d == a + ((b + (c + d)) + [])
  {}

  lemma SixParts(a: Text, b: Text, c: Text, d: Text, e: Text, f: Text)
    ensures a + b + c + d + e + f == a + ((b + c) + (d + e + f))
  {}

  lemma ScientificExponentText(e: int)
    ensures ShowExponent(Some(SignedExponent(e))) == [LOWER_E] + (if e >= 0 then [PLUS] else []) + IntText(e)
  {
    SignText(e, Spelling(if e < 0 then -e else e));
  }

  lemma SignText(e: int, digits: Text)
    ensures ShowExponent(Some(Exponent(LOWER_E, Some(if e < 0 then MINUS else PLUS), digits)))
         == [LOWER_E] + (if e >= 0 then [PLUS] else []) + if e < 0 then [MINUS] + digits else digits
  {}

  lemma ScientificText(negative: bool, d: Text, e: int)
    requires d != [] && !(-6 <= e < 21)
    ensures Sign(negative) + [d[0]] + Tail(d) + [LOWER_E] + (if e >= 0 then [PLUS] else []) + IntText(e)
         == Show(JsNumeral(negative, d, e + 1))
  {
    var x := ScientificNumeral(negative, d, SignedExponent(e));
    assert d[..1] == [d[0]];
    assert ShowMantissa(x) == [d[0]] + Tail(d);
    ScientificExponentText(e);
    SixParts(Sign(negative), [d[0]], Tail(d), [LOWER_E], if e >= 0 then [PLUS] else [], IntText(e));
  }

  // ------------------------------------------------------- the formatter

  /** `out` is the JavaScript spelling, with `d` and `n` as its digits and point position,
      of the number that the rendered decimal denotes. */
  ghost predicate Formats(x: Numeral, out: Text, d: Text, n: int)
    requires WellFormed(x)
  {
    Normalized(d) && Same(Magnitude(x), Scaled(Value(d), n - |d|)) && out == Show(JsNumeral(x.negative, d, n))
  }

  /** `out` is a tidy text of the number rendered. */
  ghost predicate Spelled(x: Numeral, out: Text)
    requires WellFormed(x)
  {
    exists y: Numeral :: IsTidyText(x, out, y)
  }

  predicate IsTidyText(x: Numeral, out: Text, y: Numeral)
    requires WellFormed(x)
  {
    Tidy(y) && y.negative == x.negative && Same(Magnitude(y), Magnitude(x)) && out == Show(y)
  }

  ghost predicate Prescribed(x: Numeral, out: Text)
    requires WellFormed(x)
  {
    exists d: Text, n: int :: Formats(x, out, d, n)
  }

  lemma TidyIsPrescribed(x: Numeral, out: Text, y: Numeral)
    requires WellFormed(x) && IsTidyText(x, out, y)
    ensures Prescribed(x, out)
  {
    TidyIsForm(y);
    var d: Text, n: int :| NumberText.IsForm(y, d, n);
    FormDenotes(y, d, n);
    SameSymmetric(Magnitude(y), Magnitude(x));
    SameTransitive(Magnitude(x), Magnitude(y), Scaled(Value(d), n - |d|));
    assert Formats(x, out, d, n);
  }

  lemma PrescribedIsTidy(x: Numeral, out: Text, d: Text, n: int)
    requires WellFormed(x) && Formats(x, out, d, n)
    ensures Spelled(x, out)
  {
    JsTidy(x.negative, d, n);
    FormatDenotes(x, out, d, n);
    assert IsTidyText(x, out, JsNumeral(x.negative, d, n));
  }

  /** The tidy text of a number is its prescribed form. */
  lemma SpelledExactly(x: Numeral, out: Text)
    requires WellFormed(x)
    ensures Spelled(x, out) <==> Prescribed(x, out)
  {
    if y: Numeral :| IsTidyText(x, out, y) { TidyIsPrescribed(x, out, y); }
    if d: Text, n: int :| Formats(x, out, d, n) { PrescribedIsTidy(x, out, d, n); }
  }

  /** The number rendered has one spelling. */
  lemma SpellingUnique(x: Numeral, a: Text, b: Text)
    requires WellFormed(x) && Spelled(x, a) && Spelled(x, b)
    ensures a == b
  {
    var y: Numeral :| IsTidyText(x, a, y);
    var z: Numeral :| IsTidyText(x, b, z);
    SameSymmetric(Magnitude(z), Magnitude(x));
    SameTransitive(Magnitude(y), Magnitude(x), Magnitude(z));
    TidyUnique(y, z);
  }

  lemma StrippedSame(x: Numeral, d: Text, first: nat, trailing: nat)
    requires WellFormed(x) && Normalized(d) && DigitsOf(x) == Zeros(first) + d + Zeros(trailing)
    ensures var n := ExponentOf(x.exponent) + |x.whole| - first;
            Same(Magnitude(x), Scaled(Value(d), n - |d|))
  {
    ValuePadded(Zeros(first), d, Zeros(trailing));
  }

  /** Exactly when the formatter is right, in terms of the numeral: its exponent, the digits
      before its point and its leading zeros. */
  predicate Exact(x: Numeral)
    requires WellFormed(x)
  {
    var exponent, position, first := ExponentOf(x.exponent), |x.whole|, LeadingZeros(DigitsOf(x));
    NoClamp(exponent, position, first) || Compensates(exponent, position, first)
  }

  /** Moderate numerals, and so all renderings of binary64 values, are within the condition. */
  lemma ModerateIsExact(x: Numeral)
    requires WellFormed(x) && |DigitsOf(x)| <= 0x3FFF_FFFF
    requires x.exponent.Some? ==> Value(x.exponent.value.digits) <= 0x3FFF_FFFF
    ensures Exact(x)
  {}

  /** One digit with the largest 32-bit exponent. */
  function LargestExponent(): Numeral {
    Numeral(false, [ZERO + 1], None, Some(Exponent(LOWER_E, None, Spelling(I32_MAX))))
  }

  /** It is out of the condition: its digit adds one to an exponent that cannot grow. */
  lemma SaturationFails()
    ensures WellFormed(LargestExponent()) && Value(DigitsOf(LargestExponent())) == 1 && !Exact(LargestExponent())
  {
    var x := LargestExponent();
    SpellingCanonical(I32_MAX);
    assert DigitsOf(x) == [ZERO + 1] && DigitsOf(x)[..0] == [];
  }

  /** Two spellings of one number by the same digits have one scale. */
  lemma ScaleUnique(x: Numeral, d: Text, m: int, n: int)
    requires WellFormed(x) && Normalized(d)
    requires Same(Magnitude(x), Scaled(Value(d), m - |d|)) && Same(Magnitude(x), Scaled(Value(d), n - |d|))
    ensures m == n
  {
    SameSymmetric(Magnitude(x), Scaled(Value(d), m - |d|));
    SameTransitive(Scaled(Value(d), m - |d|), Magnitude(x), Scaled(Value(d), n - |d|));
    NormalizedUnique(d, m, d, n);
  }

  /** A written spelling is right for no digits and scale but its own. */
  lemma FormatsOnlyAs(x: Numeral, out: Text, d: Text, n: int, f: Text, k: int)
    requires WellFormed(x) && Normalized(d) && out == Show(JsNumeral(x.negative, d, n)) && Formats(x, out, f, k)
    ensures f == d && k == n
  {
    var p, q := JsNumeral(x.negative, d, n), JsNumeral(x.negative, f, k);
    JsDenotes(x.negative, d, n);
    JsDenotes(x.negative, f, k);
    ShowInjective(p, q);
    SameSymmetric(Magnitude(p), Scaled(Value(d), n - |d|));
    SameTransitive(Scaled(Value(d), n - |d|), Magnitude(p), Scaled(Value(f), k - |f|));
    NormalizedUnique(d, n, f, k);
  }

  /** A spelling with the right digits is right exactly when its scale is. */
  lemma RightScale(x: Numeral, out: Text, d: Text, m: int, n: int)
    requires WellFormed(x) && Normalized(d) && out == Show(JsNumeral(x.negative, d, m))
    requires Same(Magnitude(x), Scaled(Value(d), n - |d|))
    ensures Prescribed(x, out) <==> m == n
  {
    if m == n {
      assert Formats(x, out, d, m);
    } else if f: Text, k: int :| Formats(x, out, f, k) {
      FormatsOnlyAs(x, out, d, m, f, k);
      ScaleUnique(x, d, n, m);
    }
  }

  lemma ExactScale(x: Numeral)
    requires WellFormed(x)
    ensures var exponent, position, first := ExponentOf(x.exponent), |x.whole|, LeadingZeros(DigitsOf(x));
            Exact(x) <==> ScientificExponent(Held(exponent), position, first) + 1 == exponent + position - first
  {
    ScientificExact(ExponentOf(x.exponent), |x.whole|, LeadingZeros(DigitsOf(x)));
  }

  /** Writing the right digits with a scale is right exactly when the scale is. */
  lemma ScaleRight(x: Numeral, out: Text, d: Text, e: int, n: int)
    requires WellFormed(x) && Normalized(d) && out == Show(JsNumeral(x.negative, d, e + 1))
    requires Same(Magnitude(x), Scaled(Value(d), n - |d|))
    ensures Spelled(x, out) <==> e + 1 == n
  {
    RightScale(x, out, d, e + 1, n);
    SpelledExactly(x, out);
  }

  lemma WrittenRight(x: Numeral, out: Text, d: Text, e: int, first: nat, trailing: nat)
    requires WellFormed(x) && Normalized(d) && DigitsOf(x) == Zeros(first) + d + Zeros(trailing)
    requires out == Show(JsNumeral(x.negative, d, e + 1))
    ensures Spelled(x, out) <==> e + 1 == ExponentOf(x.exponent) + |x.whole| - first
  {
    StrippedSame(x, d, first, trailing);
    ScaleRight(x, out, d, e, ExponentOf(x.exponent) + |x.whole| - first);
  }

  /** Formats a rendered nonzero decimal. The output is the JavaScript form of the number
      rendered exactly when the saturating steps are exact. */
  method Format(rendered: Text, ghost x: Numeral) returns (out: Text)
    requires WellFormed(x) && rendered == Show(x) && Value(DigitsOf(x)) > 0
    ensures Spelled(x, out) <==> Exact(x)
  {
    var negative, all, position, explicit := Dissect(rendered, x);
    var first, digits, trailing := Strip(all);
    var e := ScientificExponent(explicit, position, first);
    out := Write(negative, digits, e);
    WrittenRight(x, out, digits, e, first, trailing);
    ExactScale(x);
  }

  /** The spelling denotes the number that was rendered, and is positional exactly for
      scientific exponents from -6 to 20. */
  lemma FormatDenotes(x: Numeral, out: Text, d: Text, n: int)
    requires WellFormed(x) && Formats(x, out, d, n)
    ensures WellFormed(JsNumeral(x.negative, d, n)) && out == Show(JsNumeral(x.negative, d, n))
    ensures Same(Magnitude(JsNumeral(x.negative, d, n)), Magnitude(x))
    ensures JsNumeral(x.negative, d, n).exponent.None? <==> -6 <= n - 1 <= 20
  {
    JsDenotes(x.negative, d, n);
    var scaled := Scaled(Value(d), n - |d|);
    SameSymmetric(Magnitude(x), scaled);
    SameTransitive(Magnitude(JsNumeral(x.negative, d, n)), scaled, Magnitude(x));
  }

  lemma SameSymmetric(a: Scaled, b: Scaled)
    requires Same(a, b)
    ensures Same(b, a)
  {}

  /** Two rendered decimals get the same spelling exactly when they denote the same number. */
  lemma FormatCanonical(x: Numeral, a: Text, d: Text, m: int, y: Numeral, b: Text, f: Text, n: int)
    requires WellFormed(x) && WellFormed(y) && Formats(x, a, d, m) && Formats(y, b, f, n)
    ensures a == b <==> x.negative == y.negative && Same(Magnitude(x), Magnitude(y))
  {
    var p, q := JsNumeral(x.negative, d, m), JsNumeral(y.negative, f, n);
    FormatDenotes(x, a, d, m);
    FormatDenotes(y, b, f, n);
    if a == b {
      ShowInjective(p, q);
      SameSymmetric(Magnitude(p), Magnitude(x));
      SameTransitive(Magnitude(x), Magnitude(p), Magnitude(y));
    } else if x.negative == y.negative && Same(Magnitude(x), Magnitude(y)) {
      SameSymmetric(Magnitude(x), Scaled(Value(d), m - |d|));
      SameTransitive(Scaled(Value(d), m - |d|), Magnitude(x), Magnitude(y));
      SameTransitive(Scaled(Value(d), m - |d|), Magnitude(y), Scaled(Value(f), n - |f|));
      NormalizedUnique(d, m, f, n);
    }
  }
}
