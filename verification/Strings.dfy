/** Exact UTF-16 strings in canonical dual-width storage, and canonical decimal spellings. */
module Strings {
  import opened Schema

  const MAX_COMPILER_STRING_CODE_UNITS: nat := 0x3FFF_FFFF
  const I32_MAX: nat := 0x7FFF_FFFF

  datatype CompilerString = Latin1(bytes: seq<u8>) | Utf16(wide: seq<u16>) {

    function CodeUnits(): seq<u16> { if Latin1? then bytes else wide }

    function Len(): nat { |CodeUnits()| }

    /** Wide storage is used exactly for strings that need it. */
    predicate Canonical() {
      Len() <= MAX_COMPILER_STRING_CODE_UNITS && (Utf16? ==> exists i :: 0 <= i < |wide| && wide[i] > 0xFF)
    }

    function PayloadBytes(): nat { if Latin1? then |bytes| else 2 * |wide| }
  }

  /** Freezes code units: the contents are kept exactly, and only length is refused. */
  method TryFromCodeUnits(units: seq<u16>) returns (r: Result<CompilerString, nat>)
    ensures r.Err? <==> |units| > 0x3FFF_FFFF
    ensures r.Err? ==> r.error == |units|
    ensures r.Ok? ==> r.value.Canonical() && r.value.CodeUnits() == units
  {
    if |units| > MAX_COMPILER_STRING_CODE_UNITS {
      return Err(|units|);
    }
    var wide := AnyWide(units);
    if wide {
      return Ok(Utf16(units));
    }
    var latin1: seq<u8> := [];
    for i := 0 to |units|
      invariant |latin1| == i && forall j :: 0 <= j < i ==> latin1[j] == units[j]
    {
      latin1 := latin1 + [units[i]];
    }
    return Ok(Latin1(latin1));
  }

  method AnyWide(units: seq<u16>) returns (wide: bool)
    ensures wide <==> exists i :: 0 <= i < |units| && units[i] > 0xFF
  {
    for i := 0 to |units|
      invariant forall j :: 0 <= j < i ==> units[j] <= 0xFF
    {
      if units[i] > 0xFF {
        return true;
      }
    }
    return false;
  }

  /** Equality of canonical storage is equality of strings. */
  lemma StorageEquality(a: CompilerString, b: CompilerString)
    requires a.Canonical() && b.Canonical()
    ensures a == b <==> a.CodeUnits() == b.CodeUnits()
  {}

  // ------------------------------------------------------- canonical decimals

  const ZERO: u16 := 48
  const NINE: u16 := 57

  predicate IsDigit(unit: u16) { ZERO <= unit <= NINE }

  predicate AllDigits(units: seq<u16>) { forall i :: 0 <= i < |units| ==> IsDigit(units[i]) }

  /** The canonical decimal spelling of a number. */
  function Spelling(n: nat): seq<u16> {
    if n < 10 then [ZERO + n] else Spelling(n / 10) + [ZERO + n % 10]
  }

  /** The number a digit string denotes. */
  function Value(units: seq<u16>): nat
    requires AllDigits(units)
  {
    if units == [] then 0
    else 10 * Value(units[..|units| - 1]) + (units[|units| - 1] - ZERO)
  }

  /** Digits without a redundant leading zero. */
  predicate CanonicalDigits(units: seq<u16>) {
    units != [] && AllDigits(units) && (units[0] == ZERO ==> |units| == 1)
  }

  lemma {:induction false} SpellingCanonical(n: nat)
    ensures CanonicalDigits(Spelling(n)) && Value(Spelling(n)) == n
    ensures n > 0 ==> Spelling(n)[0] != ZERO
  {
    if n >= 10 {
      SpellingCanonical(n / 10);
      var s := Spelling(n);
      assert s[..|s| - 1] == Spelling(n / 10);
      assert s[0] == Spelling(n / 10)[0];
    }
  }

  lemma {:induction false} CanonicalSpelling(units: seq<u16>)
    requires CanonicalDigits(units)
    ensures Spelling(Value(units)) == units
    ensures units[0] != ZERO ==> Value(units) > 0
  {
    var rest, last := units[..|units| - 1], units[|units| - 1];
    assert units == rest + [last];
    if rest != [] {
      assert units[0] == rest[0];
      CanonicalSpelling(rest);
      DivideByTen(Value(rest), last - ZERO);
    } else {
      assert Value(rest) == 0;
    }
  }

  lemma DivideByTen(q: nat, d: nat)
    requires d < 10
    ensures (10 * q + d) / 10 == q && (10 * q + d) % 10 == d
  {}

  ghost predicate Spells(units: seq<u16>, n: nat) { units == Spelling(n) }

  /** Canonical digit strings are exactly the spellings, one for each number. */
  lemma SpellingIff(units: seq<u16>)
    ensures CanonicalDigits(units) <==> exists n: nat :: Spells(units, n)
    ensures forall n: nat :: Spells(units, n) ==> CanonicalDigits(units) && n == Value(units)
  {
    if CanonicalDigits(units) {
      CanonicalSpelling(units);
      assert Spells(units, Value(units));
    }
    forall n: nat | Spells(units, n)
      ensures CanonicalDigits(units) && n == Value(units)
    {
      SpellingCanonical(n);
    }
  }

  lemma {:induction false} ValueGrows(units: seq<u16>, i: nat)
    requires AllDigits(units) && i <= |units|
    ensures Value(units[..i]) <= Value(units)
  {
    if i < |units| {
      var rest := units[..|units| - 1];
      ValueGrows(rest, i);
      assert rest[..i] == units[..i];
    } else {
      assert units[..i] == units;
    }
  }

  lemma ValueNext(units: seq<u16>, i: nat)
    requires i < |units| && AllDigits(units[..i]) && IsDigit(units[i])
    ensures AllDigits(units[..i + 1])
    ensures Value(units[..i + 1]) == 10 * Value(units[..i]) + (units[i] - ZERO)
  {
    assert units[..i + 1][..i] == units[..i];
  }

  /** The integers that have tagged-atom form. */
  ghost predicate SpellsTagged(units: seq<u16>) { exists n: nat :: Spells(units, n) && n < 0x8000_0000 }

  lemma TaggedIff(units: seq<u16>)
    ensures SpellsTagged(units) <==> CanonicalDigits(units) && Value(units) <= I32_MAX
  {
    SpellingIff(units);
    if CanonicalDigits(units) {
      CanonicalSpelling(units);
      assert Spells(units, Value(units));
    }
  }

  /** A digit prefix over the bound already decides the answer. */
  lemma OverflowDecides(units: seq<u16>, i: nat)
    requires i <= |units| && AllDigits(units[..i]) && Value(units[..i]) > I32_MAX
    ensures !SpellsTagged(units)
  {
    TaggedIff(units);
    if CanonicalDigits(units) { ValueGrows(units, i); }
  }

  function CheckedU32(x: nat): (r: Option<nat>)
    ensures r.Some? <==> x <= U32_MAX
    ensures r.Some? ==> r.value == x
  {
    if x <= U32_MAX then Some(x) else None
  }

  /** Recognizes canonical decimals up to 2^31-1 with checked 32-bit arithmetic. */
  method IsTaggedIntegerAtom(s: CompilerString) returns (tagged: bool)
    ensures tagged <==> SpellsTagged(s.CodeUnits())
  {
    var units := s.CodeUnits();
    TaggedIff(units);
    if units == [] {
      return false;
    }
    var first := units[0];
    if first == ZERO {
      if |units| == 1 { assert units[..0] == []; }
      return |units| == 1;
    }
    if !(ZERO < first <= NINE) {
      return false;
    }
    var integer: nat := first - ZERO;
    assert units[..1] == [first] && [first][..0] == [];
    for i := 1 to |units|
      invariant AllDigits(units[..i]) && integer == Value(units[..i]) && integer <= I32_MAX
    {
      var unit := units[i];
      if !IsDigit(unit) {
        return false;
      }
      ValueNext(units, i);
      var product := CheckedU32(integer * 10);
      if product.None? {
        OverflowDecides(units, i + 1);
        return false;
      }
      var next := CheckedU32(product.value + (unit - ZERO));
      if next.None? {
        OverflowDecides(units, i + 1);
        return false;
      }
      if next.value > I32_MAX {
        OverflowDecides(units, i + 1);
        return false;
      }
      integer := next.value;
    }
    assert units[..|units|] == units;
    return true;
  }

  datatype BigIntError = Empty | LeadingZero | InvalidDigit(index: nat, unit: u16)

  /** What each refusal of a BigInt payload says. */
  predicate BigIntErrorMeans(units: seq<u16>, e: BigIntError) {
    match e
    case Empty => units == []
    case LeadingZero => |units| > 1 && units[0] == ZERO
    case InvalidDigit(i, unit) =>
      i < |units| && units[i] == unit && !IsDigit(unit) && AllDigits(units[..i]) && (i > 0 ==> units[0] != ZERO)
  }

  /** Accepts exactly the canonical spellings of the natural numbers. */
  method TryFromDecimal(decimal: CompilerString) returns (r: Result<CompilerString, BigIntError>)
    ensures r.Ok? <==> exists n: nat :: Spells(decimal.CodeUnits(), n)
    ensures r.Ok? ==> r.value == decimal
    ensures r.Err? ==> BigIntErrorMeans(decimal.CodeUnits(), r.error)
  {
    var units := decimal.CodeUnits();
    SpellingIff(units);
    if units == [] {
      return Err(Empty);
    }
    var first := units[0];
    if !IsDigit(first) {
      return Err(InvalidDigit(0, first));
    }
    if first == ZERO && decimal.Len() != 1 {
      return Err(LeadingZero);
    }
    for i := 1 to |units|
      invariant forall j :: 0 <= j < i ==> IsDigit(units[j])
    {
      if !IsDigit(units[i]) {
        return Err(InvalidDigit(i, units[i]));
      }
    }
    return Ok(decimal);
  }

  /** Accepted BigInt payloads are equal exactly when the numbers are. */
  lemma BigIntEquality(a: CompilerString, b: CompilerString, m: nat, n: nat)
    requires a.Canonical() && b.Canonical() && Spells(a.CodeUnits(), m) && Spells(b.CodeUnits(), n)
    ensures a == b <==> m == n
  {
    StorageEquality(a, b);
    SpellingIff(a.CodeUnits());
    SpellingIff(b.CodeUnits());
  }
}
