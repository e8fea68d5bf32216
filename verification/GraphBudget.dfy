/** Exact aggregate budgets of a function graph, charged with checked 64-bit arithmetic. */
module GraphBudget {
  import opened FunctionGraph
  import opened Schema
  import opened Strings

  datatype Resource =
    | BytecodeBytes | Instructions | Constants | Atoms | StringPayloadBytes | ClosureVariables | TransferEvaluations

  /** The order in which each function is charged. */
  const CHARGED: seq<Resource> :=
    [BytecodeBytes, Instructions, Constants, Atoms, StringPayloadBytes, ClosureVariables, TransferEvaluations]

  datatype Limits = Limits(
    maxFunctions: u32, maxNestingDepth: u32, maxBytecodeBytes: u64, maxInstructions: u64, maxConstants: u64,
    maxAtoms: u64, maxStringPayloadBytes: u64, maxClosureVariables: u64, maxTransferEvaluations: u64,
    maxClosureEdgeEvaluations: u64)
  {
    function Of(r: Resource): u64 {
      match r
      case BytecodeBytes => maxBytecodeBytes
      case Instructions => maxInstructions
      case Constants => maxConstants
      case Atoms => maxAtoms
      case StringPayloadBytes => maxStringPayloadBytes
      case ClosureVariables => maxClosureVariables
      case TransferEvaluations => maxTransferEvaluations
    }
  }

  // ------------------------------------------------------- text payloads

  function ElementPayload(e: TemplateElement): nat {
    (if e.cooked.Some? then e.cooked.value.PayloadBytes() else 0) + e.raw.PayloadBytes()
  }

  function TemplatePayload(elements: seq<TemplateElement>): nat {
    if elements == [] then 0
    else TemplatePayload(elements[..|elements| - 1]) + ElementPayload(elements[|elements| - 1])
  }

  function ConstantPayload(c: Constant): nat {
    match c
    case Text(t) => t.PayloadBytes()
    case BigInt(d) => d.PayloadBytes()
    case Template(elements) => TemplatePayload(elements)
    case _ => 0
  }

  function ConstantsPayload(constants: seq<Constant>): nat {
    if constants == [] then 0
    else ConstantsPayload(constants[..|constants| - 1]) + ConstantPayload(constants[|constants| - 1])
  }

  function AtomsPayload(atoms: seq<Atom>): nat {
    if atoms == [] then 0
    else AtomsPayload(atoms[..|atoms| - 1]) + atoms[|atoms| - 1].text.PayloadBytes()
  }

  predicate ElementConstructed(e: TemplateElement) {
    e.raw.Canonical() && (e.cooked.Some? ==> e.cooked.value.Canonical())
  }

  /** What the constructors of strings and templates guarantee. */
  predicate Constructed(c: Constant) {
    c.Template? ==>
      0 < |c.elements| <= U32_MAX && forall i :: 0 <= i < |c.elements| ==> ElementConstructed(c.elements[i])
  }

  predicate FunctionConstructed(f: Function) {
    forall i :: 0 <= i < |f.constants| ==> Constructed(f.constants[i])
  }

  predicate AllConstructed(fs: seq<Function>) { forall i :: 0 <= i < |fs| ==> FunctionConstructed(fs[i]) }

  function SaturatingAdd(a: nat, b: nat): nat { if a + b <= U64_MAX then a + b else U64_MAX }

  const MAX_ELEMENT_PAYLOAD: nat := 4 * MAX_COMPILER_STRING_CODE_UNITS

  lemma {:induction false} TemplateBound(elements: seq<TemplateElement>)
    requires forall i :: 0 <= i < |elements| ==> ElementConstructed(elements[i])
    ensures TemplatePayload(elements) <= |elements| * MAX_ELEMENT_PAYLOAD
  {
    if elements != [] {
      var rest, last := elements[..|elements| - 1], elements[|elements| - 1];
      TemplateBound(rest);
      assert ElementConstructed(last) && ElementPayload(last) <= MAX_ELEMENT_PAYLOAD;
      assert |elements| * MAX_ELEMENT_PAYLOAD == |rest| * MAX_ELEMENT_PAYLOAD + MAX_ELEMENT_PAYLOAD;
    }
  }

  /** No template is large enough to saturate its payload. */
  lemma TemplateFits(c: Constant, i: nat)
    requires c.Template? && Constructed(c) && i <= |c.elements|
    ensures TemplatePayload(c.elements[..i]) <= U64_MAX
  {
    TemplateBound(c.elements[..i]);
    assert i * MAX_ELEMENT_PAYLOAD <= U32_MAX * MAX_ELEMENT_PAYLOAD <= U64_MAX;
  }

  /** The saturating sum over a template is the exact sum. */
  method SumTemplate(c: Constant) returns (total: nat)
    requires c.Template? && Constructed(c)
    ensures total == TemplatePayload(c.elements) <= U64_MAX
  {
    total := 0;
    var elements := c.elements;
    for i := 0 to |elements|
      invariant total == TemplatePayload(elements[..i])
    {
      assert elements[..i + 1][..i] == elements[..i];
      TemplateFits(c, i + 1);
      var e := elements[i];
      var cooked := if e.cooked.Some? then e.cooked.value.PayloadBytes() else 0;
      total := SaturatingAdd(total, SaturatingAdd(cooked, e.raw.PayloadBytes()));
    }
    assert elements[..|elements|] == elements;
    TemplateFits(c, |elements|);
  }

  method PayloadOf(c: Constant) returns (payload: nat)
    requires Constructed(c)
    ensures payload == ConstantPayload(c)
  {
    match c
    case Text(t) => payload := t.PayloadBytes();
    case BigInt(d) => payload := d.PayloadBytes();
    case Template(_) => payload := SumTemplate(c);
    case _ => payload := 0;
  }

  function CheckedAdd(a: nat, b: nat): (r: Option<nat>)
    ensures r.Some? <==> a + b <= U64_MAX
    ensures r.Some? ==> r.value == a + b
  {
    if a + b <= U64_MAX then Some(a + b) else None
  }

  lemma {:induction false} AtomsPayloadGrows(atoms: seq<Atom>, i: nat)
    requires i <= |atoms|
    ensures AtomsPayload(atoms[..i]) <= AtomsPayload(atoms)
  {
    if i < |atoms| {
      assert atoms[..|atoms| - 1][..i] == atoms[..i];
      AtomsPayloadGrows(atoms[..|atoms| - 1], i);
    } else {
      assert atoms[..i] == atoms;
    }
  }

  lemma {:induction false} ConstantsPayloadGrows(constants: seq<Constant>, i: nat)
    requires i <= |constants|
    ensures ConstantsPayload(constants[..i]) <= ConstantsPayload(constants)
  {
    if i < |constants| {
      assert constants[..|constants| - 1][..i] == constants[..i];
      ConstantsPayloadGrows(constants[..|constants| - 1], i);
    } else {
      assert constants[..i] == constants;
    }
  }

  method SumAtoms(atoms: seq<Atom>) returns (r: Option<nat>)
    ensures r == CheckedAdd(0, AtomsPayload(atoms))
  {
    var total := 0;
    for i := 0 to |atoms|
      invariant total == AtomsPayload(atoms[..i])
      invariant total <= U64_MAX
    {
      assert atoms[..i + 1][..i] == atoms[..i];
      var sum := CheckedAdd(total, atoms[i].text.PayloadBytes());
      if sum.None? {
        AtomsPayloadGrows(atoms, i + 1);
        return None;
      }
      total := sum.value;
    }
    assert atoms[..|atoms|] == atoms;
    return Some(total);
  }

  method AddConstants(start: nat, f: Function) returns (r: Option<nat>)
    requires FunctionConstructed(f) && start <= U64_MAX
    ensures r == CheckedAdd(start, ConstantsPayload(f.constants))
  {
    var total, constants := start, f.constants;
    for i := 0 to |constants|
      invariant total == start + ConstantsPayload(constants[..i])
      invariant total <= U64_MAX
    {
      assert constants[..i + 1][..i] == constants[..i];
      var payload := PayloadOf(constants[i]);
      var sum := CheckedAdd(total, payload);
      if sum.None? {
        ConstantsPayloadGrows(constants, i + 1);
        return None;
      }
      total := sum.value;
    }
    assert constants[..|constants|] == constants;
    return Some(total);
  }

  function TextPayload(f: Function): nat {
    (if f.atoms.Some? then AtomsPayload(f.atoms.value) else 0) + ConstantsPayload(f.constants)
  }

  /** Text retained by one function, or nothing when the sum leaves 64 bits. */
  method FunctionTextPayload(f: Function) returns (r: Option<nat>)
    requires FunctionConstructed(f)
    ensures r == CheckedAdd(0, TextPayload(f))
  {
    var start := 0;
    if f.atoms.Some? {
      var atoms := SumAtoms(f.atoms.value);
      if atoms.None? {
        return None;
      }
      start := atoms.value;
    }
    r := AddConstants(start, f);
  }

  // ------------------------------------------------------- text by code units

  /** One byte for each code unit when all fit one byte, otherwise two. */
  ghost function UnitBytes(units: seq<u16>): nat {
    if forall i :: 0 <= i < |units| ==> units[i] <= 0xFF then |units| else 2 * |units|
  }

  lemma StorageBytes(t: CompilerString)
    requires t.Canonical()
    ensures t.PayloadBytes() == UnitBytes(t.CodeUnits())
  {}

  ghost function AllBytes(texts: seq<CompilerString>): nat {
    if texts == [] then 0 else UnitBytes(texts[0].CodeUnits()) + AllBytes(texts[1..])
  }

  /** Texts of a template: of each element its cooked text, where it has one, and its raw text. */
  function ElementTexts(elements: seq<TemplateElement>): seq<CompilerString> {
    if elements == [] then []
    else
      ElementTexts(elements[..|elements| - 1]) +
      (if elements[|elements| - 1].cooked.Some? then [elements[|elements| - 1].cooked.value] else []) +
      [elements[|elements| - 1].raw]
  }

  function ConstantTexts(constants: seq<Constant>): seq<CompilerString> {
    if constants == [] then []
    else
      var rest, last := ConstantTexts(constants[..|constants| - 1]), constants[|constants| - 1];
      match last
      case Number => rest
      case FunctionRef(_) => rest
      case Text(t) => rest + [t]
      case BigInt(d) => rest + [d]
      case Template(elements) => rest + ElementTexts(elements)
  }

  function AtomTexts(atoms: seq<Atom>): seq<CompilerString> {
    seq(|atoms|, i requires 0 <= i < |atoms| => atoms[i].text)
  }

  /** Every text that a function holds. */
  function Texts(f: Function): seq<CompilerString> {
    (if f.atoms.Some? then AtomTexts(f.atoms.value) else []) + ConstantTexts(f.constants)
  }

  predicate AllCanonical(texts: seq<CompilerString>) { forall i :: 0 <= i < |texts| ==> texts[i].Canonical() }

  lemma {:induction false} AllBytesJoin(a: seq<CompilerString>, b: seq<CompilerString>)
    ensures AllBytes(a + b) == AllBytes(a) + AllBytes(b)
  {
    if a == [] {
      assert a + b == b;
    } else {
      AllBytesJoin(a[1..], b);
      assert (a + b)[1..] == a[1..] + b;
    }
  }

  lemma OneText(t: CompilerString)
    requires t.Canonical()
    ensures AllBytes([t]) == t.PayloadBytes()
  {
    StorageBytes(t);
    assert [t][1..] == [];
  }

  lemma {:induction false} ElementTextsBytes(elements: seq<TemplateElement>)
    requires AllCanonical(ElementTexts(elements))
    ensures AllBytes(ElementTexts(elements)) == TemplatePayload(elements)
  {
    if elements != [] {
      var rest, last := ElementTexts(elements[..|elements| - 1]), elements[|elements| - 1];
      var cooked := if last.cooked.Some? then [last.cooked.value] else [];
      var all := rest + cooked + [last.raw];
      assert forall i :: 0 <= i < |rest| ==> rest[i] == all[i];
      assert all[|all| - 1] == last.raw && (last.cooked.Some? ==> all[|rest|] == last.cooked.value);
      ElementTextsBytes(elements[..|elements| - 1]);
      AllBytesJoin(rest, cooked);
      AllBytesJoin(rest + cooked, [last.raw]);
      OneText(last.raw);
      if last.cooked.Some? { OneText(last.cooked.value); }
    }
  }

  lemma {:induction false} ConstantTextsBytes(constants: seq<Constant>)
    requires AllCanonical(ConstantTexts(constants))
    ensures AllBytes(ConstantTexts(constants)) == ConstantsPayload(constants)
  {
    if constants != [] {
      var rest, last := ConstantTexts(constants[..|constants| - 1]), constants[|constants| - 1];
      var own := match last
        case Text(t) => [t]
        case BigInt(d) => [d]
        case Template(elements) => ElementTexts(elements)
        case _ => [];
      var all := rest + own;
      assert all == ConstantTexts(constants);
      CanonicalParts(rest, own);
      ConstantTextsBytes(constants[..|constants| - 1]);
      AllBytesJoin(rest, own);
      match last
      case Text(t) => OneText(own[0]);
      case BigInt(d) => OneText(own[0]);
      case Template(elements) => ElementTextsBytes(elements);
      case _ =>
    }
  }

  lemma {:induction false} AtomTextsBytes(atoms: seq<Atom>)
    requires AllCanonical(AtomTexts(atoms))
    ensures AllBytes(AtomTexts(atoms)) == AtomsPayload(atoms)
  {
    if atoms != [] {
      var rest, last := atoms[..|atoms| - 1], atoms[|atoms| - 1].text;
      assert AtomTexts(atoms) == AtomTexts(rest) + [last];
      assert AtomTexts(atoms)[|rest|] == last;
      assert forall i :: 0 <= i < |rest| ==> AtomTexts(rest)[i] == AtomTexts(atoms)[i];
      AtomTextsBytes(rest);
      AllBytesJoin(AtomTexts(rest), [last]);
      OneText(last);
    }
  }

  lemma CanonicalParts(a: seq<CompilerString>, b: seq<CompilerString>)
    requires AllCanonical(a + b)
    ensures AllCanonical(a) && AllCanonical(b)
  {
    assert forall i :: 0 <= i < |a| ==> a[i] == (a + b)[i];
    assert forall i :: 0 <= i < |b| ==> b[i] == (a + b)[|a| + i];
  }

  /** The text payload of a function is the bytes of its texts, by code units. */
  lemma TextBytes(f: Function)
    requires AllCanonical(Texts(f))
    ensures TextPayload(f) == AllBytes(Texts(f))
  {
    var atoms := if f.atoms.Some? then AtomTexts(f.atoms.value) else [];
    CanonicalParts(atoms, ConstantTexts(f.constants));
    if f.atoms.Some? { AtomTextsBytes(f.atoms.value); }
    ConstantTextsBytes(f.constants);
    AllBytesJoin(atoms, ConstantTexts(f.constants));
  }

  // ------------------------------------------------------- charging all functions

  /** What one function contributes to a budget. */
  function Cost(f: Function, r: Resource): nat {
    match r
    case BytecodeBytes => f.body.bytecodeLength
    case Instructions => |f.body.instructions|
    case Constants => |f.constants|
    case Atoms => f.AtomCount()
    case StringPayloadBytes => TextPayload(f)
    case ClosureVariables => |f.closureSources|
    case TransferEvaluations => f.body.transferEvaluations
  }

  /** The mathematical sum over functions. */
  function Total(fs: seq<Function>, r: Resource): nat {
    if fs == [] then 0 else Total(fs[..|fs| - 1], r) + Cost(fs[|fs| - 1], r)
  }

  lemma {:induction false} TotalGrows(fs: seq<Function>, r: Resource, i: nat)
    requires i <= |fs|
    ensures Total(fs[..i], r) <= Total(fs, r)
  {
    if i < |fs| {
      assert fs[..|fs| - 1][..i] == fs[..i];
      TotalGrows(fs[..|fs| - 1], r, i);
    } else {
      assert fs[..i] == fs;
    }
  }

  lemma TotalNext(fs: seq<Function>, r: Resource, i: nat)
    requires i < |fs|
    ensures Total(fs[..i + 1], r) == Total(fs[..i], r) + Cost(fs[i], r)
  {
    assert fs[..i + 1][..i] == fs[..i];
  }

  // ------------------------------------------------------- the seven sums

  datatype Usage = Usage(
    bytecodeBytes: nat, instructions: nat, constants: nat, atoms: nat, stringPayloadBytes: nat,
    closureVariables: nat, transferEvaluations: nat)

  /** The usage of a graph: each quantity summed over its functions. */
  ghost function UsageOf(fs: seq<Function>): Usage {
    if fs == [] then Usage(0, 0, 0, 0, 0, 0, 0)
    else
      var u, f := UsageOf(fs[..|fs| - 1]), fs[|fs| - 1];
      Usage(
        u.bytecodeBytes + f.body.bytecodeLength,
        u.instructions + |f.body.instructions|,
        u.constants + |f.constants|,
        u.atoms + (if f.atoms.Some? then |f.atoms.value| else 0),
        u.stringPayloadBytes + AllBytes(Texts(f)),
        u.closureVariables + |f.closureSources|,
        u.transferEvaluations + f.body.transferEvaluations)
  }

  /** Every sum is within the limit that bears its name. */
  ghost predicate WithinLimits(fs: seq<Function>, limits: Limits) {
    var u := UsageOf(fs);
    && u.bytecodeBytes <= limits.maxBytecodeBytes && u.instructions <= limits.maxInstructions
    && u.constants <= limits.maxConstants && u.atoms <= limits.maxAtoms
    && u.stringPayloadBytes <= limits.maxStringPayloadBytes
    && u.closureVariables <= limits.maxClosureVariables
    && u.transferEvaluations <= limits.maxTransferEvaluations
  }

  ghost predicate CanonicalTexts(fs: seq<Function>) { forall i :: 0 <= i < |fs| ==> AllCanonical(Texts(fs[i])) }

  /** A usage record says what the usage is. */
  ghost predicate Records(used: map<Resource, nat>, u: Usage) {
    && (forall r: Resource :: r in used)
    && used[BytecodeBytes] == u.bytecodeBytes && used[Instructions] == u.instructions
    && used[Constants] == u.constants && used[Atoms] == u.atoms
    && used[StringPayloadBytes] == u.stringPayloadBytes && used[ClosureVariables] == u.closureVariables
    && used[TransferEvaluations] == u.transferEvaluations
  }

  /** The totals that are charged are those sums. */
  lemma {:induction false} TotalsAreUsage(fs: seq<Function>)
    requires CanonicalTexts(fs)
    ensures var u := UsageOf(fs);
            && Total(fs, BytecodeBytes) == u.bytecodeBytes && Total(fs, Instructions) == u.instructions
            && Total(fs, Constants) == u.constants && Total(fs, Atoms) == u.atoms
            && Total(fs, StringPayloadBytes) == u.stringPayloadBytes
            && Total(fs, ClosureVariables) == u.closureVariables
            && Total(fs, TransferEvaluations) == u.transferEvaluations
  {
    if fs != [] {
      TotalsAreUsage(fs[..|fs| - 1]);
      TextBytes(fs[|fs| - 1]);
    }
  }

  lemma RecordsUsage(fs: seq<Function>, used: map<Resource, nat>)
    requires CanonicalTexts(fs) && forall r: Resource :: r in used && used[r] == Total(fs, r)
    ensures Records(used, UsageOf(fs))
  {
    TotalsAreUsage(fs);
  }

  /** A graph is within its budgets exactly when each sum is within its own limit. */
  lemma BudgetsExactly(fs: seq<Function>, limits: Limits)
    requires CanonicalTexts(fs)
    ensures WithinBudgets(fs, limits) <==> WithinLimits(fs, limits)
  {
    TotalsAreUsage(fs);
    if WithinBudgets(fs, limits) {
      assert Total(fs, BytecodeBytes) <= limits.Of(BytecodeBytes) && Total(fs, Instructions) <= limits.Of(Instructions);
      assert Total(fs, Constants) <= limits.Of(Constants) && Total(fs, Atoms) <= limits.Of(Atoms);
      assert Total(fs, StringPayloadBytes) <= limits.Of(StringPayloadBytes);
      assert Total(fs, ClosureVariables) <= limits.Of(ClosureVariables);
      assert Total(fs, TransferEvaluations) <= limits.Of(TransferEvaluations);
    }
  }

  datatype ChargeError = Overflow | OverLimit(observed: nat)

  /** Charges an increment: refused, never wrapped, when the sum leaves 64 bits or the limit. */
  function Charge(total: nat, increment: nat, limit: u64): (r: Result<nat, ChargeError>)
    ensures r.Ok? <==> total + increment <= limit
    ensures r.Ok? ==> r.value == total + increment
    ensures r.Err? && r.error.Overflow? ==> total + increment > U64_MAX
    ensures r.Err? && r.error.OverLimit? ==> r.error.observed == total + increment <= U64_MAX
  {
    if CheckedAdd(total, increment).None? then Err(Overflow)
    else if total + increment <= limit then Ok(total + increment)
    else Err(OverLimit(total + increment))
  }

  datatype BudgetError = BudgetError(at: nat, resource: Resource, charge: ChargeError)

  /** Place of a budget in the order of charging. */
  function Rank(r: Resource): nat {
    match r
    case BytecodeBytes => 0
    case Instructions => 1
    case Constants => 2
    case Atoms => 3
    case StringPayloadBytes => 4
    case ClosureVariables => 5
    case TransferEvaluations => 6
  }

  /** The refused function is the first at which a running sum leaves its budget, and the
      budget is the first that it leaves there. */
  ghost predicate BudgetErrorMeans(fs: seq<Function>, limits: Limits, e: BudgetError) {
    && e.at < |fs| && Total(fs[..e.at], e.resource) <= limits.Of(e.resource)
    && Total(fs[..e.at + 1], e.resource) > limits.Of(e.resource)
    && (forall x: Resource :: Total(fs[..e.at], x) <= limits.Of(x))
    && (forall x: Resource :: Rank(x) < Rank(e.resource) ==> Total(fs[..e.at + 1], x) <= limits.Of(x))
    && (e.charge.OverLimit? ==> e.charge.observed == Total(fs[..e.at + 1], e.resource))
    && (e.charge.Overflow? ==> Total(fs[..e.at + 1], e.resource) > U64_MAX)
  }

  ghost predicate WithinBudgets(fs: seq<Function>, limits: Limits) {
    forall r: Resource :: Total(fs, r) <= limits.Of(r)
  }

  lemma BudgetErrorRefutes(fs: seq<Function>, limits: Limits, e: BudgetError)
    requires BudgetErrorMeans(fs, limits, e)
    ensures !WithinBudgets(fs, limits)
  {
    TotalGrows(fs, e.resource, e.at + 1);
  }

  /** A usage record holds the exact total of every budget over the first functions. */
  ghost predicate Measured(fs: seq<Function>, limits: Limits, used: map<Resource, nat>, r: Resource, i: nat)
    requires i <= |fs|
  {
    r in used && used[r] == Total(fs[..i], r) <= limits.Of(r)
  }

  ghost predicate AllMeasured(fs: seq<Function>, limits: Limits, used: map<Resource, nat>, i: nat)
    requires i <= |fs|
  {
    forall x: Resource :: Measured(fs, limits, used, x, i)
  }

  /** As above, when the next function has been charged to the first `j` budgets only. */
  ghost predicate PartMeasured(fs: seq<Function>, limits: Limits, used: map<Resource, nat>, x: Resource, i: nat, j: nat)
    requires i < |fs| && j <= |CHARGED|
  {
    if x in CHARGED[..j] then Measured(fs, limits, used, x, i + 1) else Measured(fs, limits, used, x, i)
  }

  ghost predicate PartlyMeasured(fs: seq<Function>, limits: Limits, used: map<Resource, nat>, i: nat, j: nat)
    requires i < |fs| && j <= |CHARGED|
  {
    forall x: Resource :: PartMeasured(fs, limits, used, x, i, j)
  }

  method IncrementOf(f: Function, r: Resource) returns (increment: Option<nat>)
    requires FunctionConstructed(f)
    ensures increment.Some? ==> increment.value == Cost(f, r)
    ensures increment.None? ==> r.StringPayloadBytes? && Cost(f, r) > U64_MAX
  {
    match r
    case BytecodeBytes => increment := Some(f.body.bytecodeLength);
    case Instructions => increment := Some(|f.body.instructions|);
    case Constants => increment := Some(|f.constants|);
    case Atoms => increment := Some(if f.atoms.Some? then |f.atoms.value| else 0);
    case StringPayloadBytes => increment := FunctionTextPayload(f);
    case ClosureVariables => increment := Some(|f.closureSources|);
    case TransferEvaluations => increment := Some(f.body.transferEvaluations);
  }

  lemma MeasureNext(fs: seq<Function>, limits: Limits, used: map<Resource, nat>, i: nat, j: nat, total: nat)
    requires i < |fs| && j < |CHARGED| && PartlyMeasured(fs, limits, used, i, j)
    requires total == Total(fs[..i + 1], CHARGED[j]) <= limits.Of(CHARGED[j])
    ensures PartlyMeasured(fs, limits, used[CHARGED[j] := total], i, j + 1)
  {
    assert CHARGED[..j + 1] == CHARGED[..j] + [CHARGED[j]];
    var after, k := used[CHARGED[j] := total], j + 1;
    forall x: Resource ensures PartMeasured(fs, limits, after, x, i, k) {
      assert PartMeasured(fs, limits, used, x, i, j);
    }
  }

  lemma MeasureAll(fs: seq<Function>, limits: Limits, used: map<Resource, nat>, i: nat)
    requires i < |fs| && PartlyMeasured(fs, limits, used, i, |CHARGED|)
    ensures AllMeasured(fs, limits, used, i + 1)
  {
    ChargedAll();
    var n := i + 1;
    forall x: Resource ensures Measured(fs, limits, used, x, n) {
      assert PartMeasured(fs, limits, used, x, i, |CHARGED|);
    }
  }

  /** Charges one function to every budget in order. */
  method ChargeFunction(fs: seq<Function>, i: nat, limits: Limits, used: map<Resource, nat>)
    returns (r: Result<map<Resource, nat>, BudgetError>)
    requires i < |fs| && FunctionConstructed(fs[i])
    requires AllMeasured(fs, limits, used, i)
    ensures r.Ok? ==> AllMeasured(fs, limits, r.value, i + 1)
    ensures r.Err? ==> BudgetErrorMeans(fs, limits, r.error)
  {
    var next := used;
    for j := 0 to |CHARGED|
      invariant PartlyMeasured(fs, limits, next, i, j)
    {
      var x := CHARGED[j];
      assert PartMeasured(fs, limits, next, x, i, j);
      ChargedOnce(j);
      TotalNext(fs, x, i);
      var increment := IncrementOf(fs[i], x);
      FirstLeft(fs, limits, used, next, i, j);
      if increment.None? {
        return Err(BudgetError(i, x, Overflow));
      }
      var charge := Charge(next[x], increment.value, limits.Of(x));
      if charge.Err? {
        return Err(BudgetError(i, x, charge.error));
      }
      MeasureNext(fs, limits, next, i, j, charge.value);
      next := next[x := charge.value];
    }
    MeasureAll(fs, limits, next, i);
    return Ok(next);
  }

  lemma FirstLeft(fs: seq<Function>, limits: Limits, used: map<Resource, nat>, next: map<Resource, nat>, i: nat, j: nat)
    requires i < |fs| && j < |CHARGED| && AllMeasured(fs, limits, used, i) && PartlyMeasured(fs, limits, next, i, j)
    ensures forall x: Resource :: Total(fs[..i], x) <= limits.Of(x)
    ensures forall x: Resource :: Rank(x) < Rank(CHARGED[j]) ==> Total(fs[..i + 1], x) <= limits.Of(x)
  {
    forall x: Resource ensures Total(fs[..i], x) <= limits.Of(x) { assert Measured(fs, limits, used, x, i); }
    forall x: Resource | Rank(x) < Rank(CHARGED[j]) ensures Total(fs[..i + 1], x) <= limits.Of(x) {
      RankOrders(x, j);
      assert PartMeasured(fs, limits, next, x, i, j);
    }
  }

  lemma RankOrders(x: Resource, j: nat)
    requires j < |CHARGED| && Rank(x) < Rank(CHARGED[j])
    ensures x in CHARGED[..j]
  {
    assert CHARGED[..j][Rank(x)] == x;
  }

  lemma ChargedOnce(j: nat)
    requires j < |CHARGED|
    ensures CHARGED[j] !in CHARGED[..j]
  {}

  lemma ChargedAll()
    ensures forall x: Resource :: x in CHARGED[..|CHARGED|]
  {
    forall x: Resource ensures x in CHARGED[..|CHARGED|] {
      match x
      case BytecodeBytes => assert CHARGED[0] == x;
      case Instructions => assert CHARGED[1] == x;
      case Constants => assert CHARGED[2] == x;
      case Atoms => assert CHARGED[3] == x;
      case StringPayloadBytes => assert CHARGED[4] == x;
      case ClosureVariables => assert CHARGED[5] == x;
      case TransferEvaluations => assert CHARGED[6] == x;
    }
  }

  /** Charges all functions. Success is equivalent to every mathematical sum being within
      its limit, and the returned usage is those sums. */
  method Preflight(fs: seq<Function>, limits: Limits) returns (r: Result<map<Resource, nat>, BudgetError>)
    requires AllConstructed(fs)
    ensures r.Ok? <==> WithinBudgets(fs, limits)
    ensures r.Ok? ==> forall x: Resource :: x in r.value && r.value[x] == Total(fs, x)
    ensures CanonicalTexts(fs) ==> (r.Ok? <==> WithinLimits(fs, limits))
    ensures CanonicalTexts(fs) && r.Ok? ==> Records(r.value, UsageOf(fs))
    ensures r.Err? ==> BudgetErrorMeans(fs, limits, r.error)
  {
    if CanonicalTexts(fs) { BudgetsExactly(fs, limits); }
    var used: map<Resource, nat> := map x: Resource | x in CHARGED :: 0;
    ChargedAll();
    assert CHARGED[..|CHARGED|] == CHARGED;
    for i := 0 to |fs|
      invariant AllMeasured(fs, limits, used, i)
    {
      var next := ChargeFunction(fs, i, limits, used);
      if next.Err? {
        BudgetErrorRefutes(fs, limits, next.error);
        return next;
      }
      used := next.value;
    }
    assert fs[..|fs|] == fs;
    forall x: Resource ensures x in used && used[x] == Total(fs, x) <= limits.Of(x) {
      assert Measured(fs, limits, used, x, |fs|);
    }
    if CanonicalTexts(fs) { RecordsUsage(fs, used); }
    return Ok(used);
  }
}
