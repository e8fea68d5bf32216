/** Compiler function records and the checks made on each record alone. */
module FunctionGraph {
  import opened ByteFormat
  import opened Codec
  import opened Digraph
  import opened DirectEval
  import opened Schema
  import opened Strings

  /** Where a closure slot of a function comes from. */
  datatype ClosureSource =
    | ParentVariable(index: u32)
    | ParentClosure(index: u32)
    | RealmGlobal(atom: u32)
    | DirectEvalBinding(index: u32, environmentSize: u32)
    | DirectEvalVariable(index: u32, environmentSize: u32)
    | ModuleCell(index: u32)
  {
    predicate FromParent() { ParentVariable? || ParentClosure? }
  }

  datatype Atom = Atom(text: CompilerString, staticPropertyOnly: bool)

  datatype TemplateElement = TemplateElement(cooked: Option<CompilerString>, raw: CompilerString)

  datatype Constant =
    | Number
    | Text(text: CompilerString)
    | BigInt(decimal: CompilerString)
    | Template(elements: seq<TemplateElement>)
    | FunctionRef(target: u32)
  {
    function Kind(): ConstantKind { if FunctionRef? then FunctionKind else ValueKind }
  }

  datatype ConstantKind = ValueKind | FunctionKind

  /** The instructions, counts and layouts of the verified body of a function. */
  datatype Body = Body(
    bytecodeLength: nat, instructions: seq<FlowInstruction>, transferEvaluations: nat,
    atomPoolLength: u32, constantPoolLength: u32, closureVariableCount: u32, variableReferenceCount: u32,
    hasCaptureLayout: bool, constantKinds: Option<seq<ConstantKind>>)

  datatype Function = Function(
    body: Body, atoms: Option<seq<Atom>>, constants: seq<Constant>, closureSources: seq<ClosureSource>,
    initializerPrefixStart: u32, evalRecord: EvalRecord)
  {
    function AtomCount(): nat { if atoms.Some? then |atoms.value| else 0 }
  }

  /** Targets of the function constants, in pool order and with repetitions. */
  function Targets(constants: seq<Constant>): (r: seq<nat>)
    ensures forall t :: t in r <==> 0 <= t <= U32_MAX && FunctionRef(t) in constants
    ensures |r| <= |constants|
  {
    if constants == [] then []
    else
      var rest, last := constants[..|constants| - 1], constants[|constants| - 1];
      assert constants == rest + [last];
      Targets(rest) + (if last.FunctionRef? then [last.target as nat] else [])
  }

  /** An embedded function counts as often as it is embedded. */
  lemma {:induction false} TargetsCount(constants: seq<Constant>, t: u32)
    ensures multiset(Targets(constants))[t] == multiset(constants)[FunctionRef(t)]
  {
    if constants != [] {
      var rest, last := constants[..|constants| - 1], constants[|constants| - 1];
      TargetsCount(rest, t);
      assert constants == rest + [last];
    }
  }

  /** The graph of function constants: an edge from a function to each function it embeds. */
  function GraphOf(fs: seq<Function>): (g: Graph)
    ensures |g| == |fs| && forall u :: 0 <= u < |fs| ==> g[u] == Targets(fs[u].constants)
  {
    seq(|fs|, u requires 0 <= u < |fs| => Targets(fs[u].constants))
  }

  // ------------------------------------------------------- one record

  predicate DistinctSources(sources: seq<ClosureSource>) {
    forall i, j :: 0 <= i < j < |sources| ==> sources[i] != sources[j]
  }

  /** Exactly the empty string and the tagged integers are static-property-only atoms. */
  ghost predicate AtomOk(a: Atom) {
    a.staticPropertyOnly <==> a.text.Len() == 0 || SpellsTagged(a.text.CodeUnits())
  }

  ghost predicate AtomTableOk(atoms: seq<Atom>) {
    && (forall i :: 0 <= i < |atoms| ==> AtomOk(atoms[i]))
    && (forall i, j :: 0 <= i < j < |atoms| ==> atoms[i].text != atoms[j].text)
  }

  /** The atom that an instruction names. */
  function AtomOperand(x: Instruction): Option<int> {
    if x.operands.format in {FAtom, FAtomU8, FAtomU16, FAtomLabelU8, FAtomLabelU16} && x.operands.values != []
    then Some(x.operands.values[0])
    else None
  }

  /** Instructions whose atom is a property name fixed at compile time. */
  predicate NamesStaticProperty(x: Instruction) {
    || x.opcode in {OP_DEFINE_FIELD, OP_DEFINE_METHOD, OP_DEFINE_CLASS, OP_SET_NAME}
    || (x.opcode == OP_THROW_ERROR && x.operands.format == FAtomU8 &&
        |x.operands.values| == 2 && x.operands.values[1] == 3)
  }

  /** A static-property-only atom is named by such instructions only. */
  predicate AtomOperandOk(atoms: seq<Atom>, x: Instruction) {
    var a := AtomOperand(x);
    a.Some? && 0 <= a.value < |atoms| && atoms[a.value].staticPropertyOnly ==> NamesStaticProperty(x)
  }

  predicate AtomOperandsOk(atoms: seq<Atom>, code: seq<FlowInstruction>) {
    forall i :: 0 <= i < |code| ==> AtomOperandOk(atoms, code[i].instruction)
  }

  /** A realm global is not named by a static-property-only atom. */
  predicate OrdinaryAtomSource(f: Function, s: ClosureSource) {
    s.RealmGlobal? && s.atom < f.AtomCount() ==> !f.atoms.value[s.atom].staticPropertyOnly
  }

  /** A realm global is named by an atom of the pool. */
  predicate RealmAtomInBounds(f: Function, s: ClosureSource) {
    s.RealmGlobal? ==> s.atom < f.body.atomPoolLength
  }

  predicate KindsMatch(constants: seq<Constant>, kinds: seq<ConstantKind>) {
    forall i :: 0 <= i < |constants| && i < |kinds| ==> constants[i].Kind() == kinds[i]
  }

  predicate TargetsBelow(constants: seq<Constant>, n: nat) {
    forall i :: 0 <= i < |constants| && constants[i].FunctionRef? ==> constants[i].target < n
  }

  /** What a record must satisfy in a graph of `n` functions. */
  ghost predicate RecordOk(f: Function, n: nat) {
    && f.initializerPrefixStart <= SaturateU32(|f.body.instructions|)
    && EvalRecordOk(f.body.instructions, f.evalRecord) && f.body.hasCaptureLayout && f.body.constantKinds.Some?
    && f.AtomCount() == f.body.atomPoolLength
    && |f.constants| == f.body.constantPoolLength
    && |f.closureSources| == f.body.closureVariableCount
    && AtomsOk(f)
    && (forall i :: 0 <= i < |f.closureSources| ==> RealmAtomInBounds(f, f.closureSources[i]))
    && DistinctSources(f.closureSources)
    && KindsMatch(f.constants, f.body.constantKinds.value)
    && TargetsBelow(f.constants, n)
  }

  datatype RecordError =
    | PrefixStart | DirectEvalInvalid(eval: EvalError) | MissingCaptureLayout | MissingConstantLayout
    | MissingAtomPool | AtomCountMismatch | ConstantCountMismatch | ClosureCountMismatch
    | BadAtom(index: nat) | DuplicateAtom(first: nat, duplicate: nat) | StaticAtomOperand(index: nat)
    | StaticAtomSource(closure: nat) | RealmAtomOutOfBounds(closure: nat)
    | DuplicateSource(first: nat, duplicate: nat)
    | KindMismatch(index: nat) | TargetOutOfBounds(index: nat)

  /** What each refusal of a record says about it. */
  ghost predicate RecordErrorMeans(f: Function, n: nat, e: RecordError) {
    match e
    case PrefixStart => f.initializerPrefixStart > SaturateU32(|f.body.instructions|)
    case DirectEvalInvalid(e) => EvalErrorMeans(f.body.instructions, f.evalRecord, e)
    case MissingCaptureLayout => !f.body.hasCaptureLayout
    case MissingConstantLayout => f.body.constantKinds.None?
    case MissingAtomPool => f.atoms.None? && f.body.atomPoolLength > 0
    case AtomCountMismatch => f.AtomCount() != f.body.atomPoolLength
    case ConstantCountMismatch => |f.constants| != f.body.constantPoolLength
    case ClosureCountMismatch => |f.closureSources| != f.body.closureVariableCount
    case BadAtom(i) => i < f.AtomCount() && !AtomOk(f.atoms.value[i])
    case DuplicateAtom(i, j) => i < j < f.AtomCount() && f.atoms.value[i].text == f.atoms.value[j].text
    case StaticAtomOperand(i) =>
      f.atoms.Some? && i < |f.body.instructions| && !AtomOperandOk(f.atoms.value, f.body.instructions[i].instruction)
    case StaticAtomSource(i) => i < |f.closureSources| && !OrdinaryAtomSource(f, f.closureSources[i])
    case RealmAtomOutOfBounds(i) => i < |f.closureSources| && !RealmAtomInBounds(f, f.closureSources[i])
    case DuplicateSource(i, j) => i < j < |f.closureSources| && f.closureSources[i] == f.closureSources[j]
    case KindMismatch(i) =>
      && f.body.constantKinds.Some? && i < |f.constants| && i < |f.body.constantKinds.value|
      && f.constants[i].Kind() != f.body.constantKinds.value[i]
    case TargetOutOfBounds(i) =>
      i < |f.constants| && f.constants[i].FunctionRef? && f.constants[i].target >= n
  }

  /** An error refutes the record. */
  lemma RecordErrorRefutes(f: Function, n: nat, e: RecordError)
    requires RecordErrorMeans(f, n, e)
    ensures !RecordOk(f, n)
  {
    match e
    case DirectEvalInvalid(error) => EvalErrorRefutes(f.body.instructions, f.evalRecord, error);
    case BadAtom(i) => assert !AtomTableOk(f.atoms.value);
    case DuplicateAtom(i, j) => assert !AtomTableOk(f.atoms.value);
    case DuplicateSource(i, j) => assert !DistinctSources(f.closureSources);
    case _ =>
  }

  /** Atom table: classification of every atom and a first-occurrence index of contents. */
  method ValidateAtomTable(atoms: seq<Atom>) returns (r: Option<RecordError>)
    ensures r.None? ==> AtomTableOk(atoms)
    ensures r.Some? ==>
              || (r.value.BadAtom? && r.value.index < |atoms| && !AtomOk(atoms[r.value.index]))
              || (r.value.DuplicateAtom? && r.value.first < r.value.duplicate < |atoms|
                  && atoms[r.value.first].text == atoms[r.value.duplicate].text)
  {
    var seen: map<CompilerString, nat> := map[];
    for i := 0 to |atoms|
      invariant forall j :: 0 <= j < i ==> AtomOk(atoms[j]) && atoms[j].text in seen
      invariant forall t :: t in seen ==> seen[t] < i && atoms[seen[t]].text == t
      invariant forall j, k :: 0 <= j < k < i ==> atoms[j].text != atoms[k].text
    {
      var atom := atoms[i];
      var tagged := IsTaggedIntegerAtom(atom.text);
      var special := atom.text.Len() == 0 || tagged;
      if atom.staticPropertyOnly && !special {
        return Some(BadAtom(i));
      }
      if !atom.staticPropertyOnly && special {
        return Some(BadAtom(i));
      }
      if atom.text in seen {
        return Some(DuplicateAtom(seen[atom.text], i));
      }
      seen := seen[atom.text := i];
    }
    return None;
  }

  /** First instruction, if any, that names a static-property-only atom without the right. */
  method FirstStaticOperand(atoms: seq<Atom>, code: seq<FlowInstruction>) returns (r: Option<nat>)
    ensures r.None? ==> AtomOperandsOk(atoms, code)
    ensures r.Some? ==> r.value < |code| && !AtomOperandOk(atoms, code[r.value].instruction)
    ensures r.Some? ==> AtomOperandsOk(atoms, code[..r.value])
  {
    for i := 0 to |code|
      invariant forall j :: 0 <= j < i ==> AtomOperandOk(atoms, code[j].instruction)
    {
      var x := code[i].instruction;
      var index := AtomOperand(x);
      if index.None? || !(0 <= index.value < |atoms|) {
        continue;
      }
      var names := x.opcode in {OP_DEFINE_FIELD, OP_DEFINE_METHOD, OP_DEFINE_CLASS, OP_SET_NAME};
      if x.opcode == OP_THROW_ERROR && x.operands.format == FAtomU8 && |x.operands.values| == 2 {
        names := x.operands.values[1] == 3;
      }
      if atoms[index.value].staticPropertyOnly && !names {
        return Some(i);
      }
    }
    return None;
  }

  /** First realm global named by a static-property-only atom. */
  method FirstStaticSource(f: Function) returns (r: Option<nat>)
    requires f.atoms.Some?
    ensures r.None? ==> forall i :: 0 <= i < |f.closureSources| ==> OrdinaryAtomSource(f, f.closureSources[i])
    ensures r.Some? ==> r.value < |f.closureSources| && !OrdinaryAtomSource(f, f.closureSources[r.value])
    ensures r.Some? ==> forall i :: 0 <= i < r.value ==> OrdinaryAtomSource(f, f.closureSources[i])
  {
    for i := 0 to |f.closureSources|
      invariant forall j :: 0 <= j < i ==> OrdinaryAtomSource(f, f.closureSources[j])
    {
      match f.closureSources[i] {
        case RealmGlobal(atom) =>
          if atom < |f.atoms.value| && f.atoms.value[atom].staticPropertyOnly {
            return Some(i);
          }
        case _ =>
      }
    }
    return None;
  }

  /** First realm global that names no atom of the pool. */
  method FirstUnknownAtom(f: Function) returns (r: Option<nat>)
    ensures r.None? ==> forall i :: 0 <= i < |f.closureSources| ==> RealmAtomInBounds(f, f.closureSources[i])
    ensures r.Some? ==> r.value < |f.closureSources| && !RealmAtomInBounds(f, f.closureSources[r.value])
    ensures r.Some? ==> forall i :: 0 <= i < r.value ==> RealmAtomInBounds(f, f.closureSources[i])
  {
    for i := 0 to |f.closureSources|
      invariant forall j :: 0 <= j < i ==> RealmAtomInBounds(f, f.closureSources[j])
    {
      match f.closureSources[i] {
        case RealmGlobal(atom) =>
          if atom >= f.body.atomPoolLength {
            return Some(i);
          }
        case _ =>
      }
    }
    return None;
  }

  /** First repeated source, with its first occurrence. */
  method ValidateUniqueSources(sources: seq<ClosureSource>) returns (r: Option<(nat, nat)>)
    ensures r.None? ==> DistinctSources(sources)
    ensures r.Some? ==> r.value.0 < r.value.1 < |sources| && sources[r.value.0] == sources[r.value.1]
                        && DistinctSources(sources[..r.value.1])
  {
    var seen: set<ClosureSource> := {};
    for i := 0 to |sources|
      invariant DistinctSources(sources[..i])
      invariant forall s :: s in seen <==> s in sources[..i]
    {
      if sources[i] in seen {
        var first := 0;
        while sources[first] != sources[i]
          invariant first < |sources[..i]| && sources[i] in sources[first..i]
          decreases i - first
        {
          assert sources[first..i] == [sources[first]] + sources[first + 1..i];
          first := first + 1;
        }
        return Some((first, i));
      }
      assert sources[..i + 1] == sources[..i] + [sources[i]];
      seen := seen + {sources[i]};
    }
    assert sources[..|sources|] == sources;
    return None;
  }

  method ValidateConstants(f: Function, n: nat) returns (r: Option<RecordError>)
    requires f.body.constantKinds.Some?
    ensures r.None? ==> KindsMatch(f.constants, f.body.constantKinds.value) && TargetsBelow(f.constants, n)
    ensures r.Some? ==> RecordErrorMeans(f, n, r.value)
  {
    var kinds := f.body.constantKinds.value;
    for i := 0 to if |f.constants| <= |kinds| then |f.constants| else |kinds|
      invariant forall j :: 0 <= j < i ==> f.constants[j].Kind() == kinds[j]
    {
      var actual := if f.constants[i].FunctionRef? then FunctionKind else ValueKind;
      if actual != kinds[i] {
        return Some(KindMismatch(i));
      }
    }
    for i := 0 to |f.constants|
      invariant TargetsBelow(f.constants[..i], n)
    {
      if f.constants[i].FunctionRef? && f.constants[i].target >= n {
        return Some(TargetOutOfBounds(i));
      }
      assert f.constants[..i + 1] == f.constants[..i] + [f.constants[i]];
    }
    assert f.constants[..|f.constants|] == f.constants;
    return None;
  }

  /** All checks on one record, in order. */
  method ValidateRecord(f: Function, n: nat) returns (r: Option<RecordError>)
    ensures r.None? <==> RecordOk(f, n)
    ensures r.Some? ==> RecordErrorMeans(f, n, r.value)
  {
    r := RecordChecks(f, n);
    if r.Some? { RecordErrorRefutes(f, n, r.value); }
  }

  /** What the atoms of a record must satisfy, alone, as operands and as realm globals. */
  ghost predicate AtomsOk(f: Function) {
    && (f.atoms.Some? ==> AtomTableOk(f.atoms.value) && AtomOperandsOk(f.atoms.value, f.body.instructions))
    && (forall i :: 0 <= i < |f.closureSources| ==> OrdinaryAtomSource(f, f.closureSources[i]))
  }

  method ValidateAtoms(f: Function) returns (r: Option<RecordError>)
    ensures r.None? ==> AtomsOk(f)
    ensures forall n: nat :: r.Some? ==> RecordErrorMeans(f, n, r.value)
  {
    if f.atoms.None? {
      return None;
    }
    var bad := ValidateAtomTable(f.atoms.value);
    if bad.Some? { return bad; }
    var operand := FirstStaticOperand(f.atoms.value, f.body.instructions);
    if operand.Some? { return Some(StaticAtomOperand(operand.value)); }
    var named := FirstStaticSource(f);
    if named.Some? { return Some(StaticAtomSource(named.value)); }
    return None;
  }

  method RecordChecks(f: Function, n: nat) returns (r: Option<RecordError>)
    ensures r.None? ==> RecordOk(f, n)
    ensures r.Some? ==> RecordErrorMeans(f, n, r.value)
  {
    if f.initializerPrefixStart > SaturateU32(|f.body.instructions|) { return Some(PrefixStart); }
    var eval := ValidateEvalRecord(f.body.instructions, f.evalRecord);
    if eval.Some? { return Some(DirectEvalInvalid(eval.value)); }
    if !f.body.hasCaptureLayout { return Some(MissingCaptureLayout); }
    if f.body.constantKinds.None? { return Some(MissingConstantLayout); }
    if f.body.atomPoolLength != 0 && f.atoms.None? { return Some(MissingAtomPool); }
    var atoms := if f.atoms.Some? then |f.atoms.value| else 0;
    if atoms != f.body.atomPoolLength { return Some(AtomCountMismatch); }
    if |f.constants| != f.body.constantPoolLength { return Some(ConstantCountMismatch); }
    if |f.closureSources| != f.body.closureVariableCount { return Some(ClosureCountMismatch); }
    r := ValidateAtoms(f);
    if r.Some? { return; }
    var realm := FirstUnknownAtom(f);
    if realm.Some? { return Some(RealmAtomOutOfBounds(realm.value)); }
    var repeated := ValidateUniqueSources(f.closureSources);
    if repeated.Some? { return Some(DuplicateSource(repeated.value.0, repeated.value.1)); }
    r := ValidateConstants(f, n);
  }

  predicate AllTargetsBelow(fs: seq<Function>) {
    forall i :: 0 <= i < |fs| ==> TargetsBelow(fs[i].constants, |fs|)
  }

  lemma GraphWellFormed(fs: seq<Function>)
    requires AllTargetsBelow(fs)
    ensures WellFormed(GraphOf(fs))
  {
    var g := GraphOf(fs);
    forall u, j | 0 <= u < |g| && 0 <= j < |g[u]|
      ensures g[u][j] < |g|
    {
      assert g[u][j] in Targets(fs[u].constants);
    }
  }

  /** The atom that an instruction names is the little-endian word at the start of its
      operands, for the formats that carry one and for no other. */
  lemma AtomOperandBytes(opcode: nat, f: OperandFormat, b: seq<u8>)
    requires |b| == OperandWidth(f)
    ensures var x := Instruction(opcode, Operands(f, OperandsAt(f, b)));
            if f.FAtom? || f.FAtomU8? || f.FAtomU16? || f.FAtomLabelU8? || f.FAtomLabelU16?
            then AtomOperand(x) == Some(b[0] as int + 0x100 * b[1] as int
                                        + 0x1_0000 * b[2] as int + 0x100_0000 * b[3] as int)
            else AtomOperand(x) == None
  {}
}
