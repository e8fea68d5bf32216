/** Direct-eval records: what a function declares about its eval instructions, checked
    against the instructions themselves. */
module DirectEval {
  import opened ByteFormat
  import opened Codec
  import opened Schema

  /** A verified instruction with the stack depth on entry, where it is reachable. */
  datatype FlowInstruction = FlowInstruction(instruction: Instruction, entryDepth: Option<nat>)

  datatype EvalRecord = EvalRecord(
    hasDirectEval: bool, parameterEnd: Option<u32>, referenceCalls: seq<u32>, simpleParameters: bool)

  predicate IsEval(x: Instruction) {
    x.opcode in {OP_EVAL, OP_APPLY_EVAL, OP_TAIL_EVAL, OP_TAIL_APPLY_EVAL}
  }

  predicate CountedEval(x: Instruction) {
    x.opcode in {OP_EVAL, OP_TAIL_EVAL} && x.operands.format == FNPopU16 && |x.operands.values| == 2
  }

  predicate AppliedEval(x: Instruction) {
    x.opcode in {OP_APPLY_EVAL, OP_TAIL_APPLY_EVAL} && x.operands.format == FU16 && |x.operands.values| == 1
  }

  /** The scope that an eval instruction names. */
  function ScopeIndex(x: Instruction): Option<int> {
    if CountedEval(x) then Some(x.operands.values[1])
    else if AppliedEval(x) then Some(x.operands.values[0])
    else None
  }

  /** Values that an eval call with a receiver needs: callee, receiver and arguments. */
  function RequiredDepth(x: Instruction): Option<int> {
    if CountedEval(x) then Some(x.operands.values[0] + 2)
    else if AppliedEval(x) then Some(3)
    else None
  }

  // ------------------------------------------------------- the conditions

  predicate MarkerOk(code: seq<FlowInstruction>, r: EvalRecord) {
    r.hasDirectEval <==> exists i :: 0 <= i < |code| && IsEval(code[i].instruction)
  }

  predicate Ascending(calls: seq<u32>) { forall j, k :: 0 <= j < k < |calls| ==> calls[j] < calls[k] }

  /** The call is an eval instruction whose receiver is on the stack wherever it is reachable. */
  predicate CallOk(code: seq<FlowInstruction>, i: nat) {
    && i < |code| && RequiredDepth(code[i].instruction).Some?
    && (code[i].entryDepth.Some? ==> code[i].entryDepth.value >= RequiredDepth(code[i].instruction).value)
  }

  predicate CallsOk(code: seq<FlowInstruction>, r: EvalRecord) {
    Ascending(r.referenceCalls) && forall k :: 0 <= k < |r.referenceCalls| ==> CallOk(code, r.referenceCalls[k])
  }

  predicate BoundaryOk(code: seq<FlowInstruction>, r: EvalRecord) {
    r.parameterEnd.Some? ==>
      r.hasDirectEval && r.parameterEnd.value <= SaturateU32(|code|) && !r.simpleParameters
  }

  /** Scope zero is named exactly while parameters are being initialized. */
  predicate PhaseOk(code: seq<FlowInstruction>, r: EvalRecord, i: nat)
    requires i < |code|
  {
    var scope := ScopeIndex(code[i].instruction);
    scope.Some? ==> (scope.value == 0 <==> r.parameterEnd.Some? && SaturateU32(i) < r.parameterEnd.value)
  }

  predicate EvalRecordOk(code: seq<FlowInstruction>, r: EvalRecord) {
    MarkerOk(code, r) && CallsOk(code, r) && BoundaryOk(code, r) && forall i: nat :: i < |code| ==> PhaseOk(code, r, i)
  }

  datatype EvalError =
    | MarkerMismatch | CallOrder(call: nat) | CallOutOfBounds(call: nat) | CallOpcode(call: nat)
    | ReceiverMissing(call: nat) | BoundaryInvalid | PhaseMismatch(index: nat)

  predicate EvalErrorMeans(code: seq<FlowInstruction>, r: EvalRecord, e: EvalError) {
    match e
    case MarkerMismatch => !MarkerOk(code, r)
    case CallOrder(k) => 0 < k < |r.referenceCalls| && r.referenceCalls[k] <= r.referenceCalls[k - 1]
    case CallOutOfBounds(k) => k < |r.referenceCalls| && r.referenceCalls[k] >= |code|
    case CallOpcode(k) =>
      && k < |r.referenceCalls| && r.referenceCalls[k] < |code|
      && RequiredDepth(code[r.referenceCalls[k]].instruction).None?
    case ReceiverMissing(k) =>
      k < |r.referenceCalls| && r.referenceCalls[k] < |code| && !CallOk(code, r.referenceCalls[k])
    case BoundaryInvalid => !BoundaryOk(code, r)
    case PhaseMismatch(i) => i < |code| && !PhaseOk(code, r, i)
  }

  lemma EvalErrorRefutes(code: seq<FlowInstruction>, r: EvalRecord, e: EvalError)
    requires EvalErrorMeans(code, r, e)
    ensures !EvalRecordOk(code, r)
  {
    match e
    case CallOrder(k) => assert !Ascending(r.referenceCalls);
    case CallOutOfBounds(k) => assert !CallOk(code, r.referenceCalls[k]);
    case CallOpcode(k) => assert !CallOk(code, r.referenceCalls[k]);
    case _ =>
  }

  // ------------------------------------------------------- the checks

  method AnyEval(code: seq<FlowInstruction>) returns (found: bool)
    ensures found <==> exists i :: 0 <= i < |code| && IsEval(code[i].instruction)
  {
    for i := 0 to |code|
      invariant forall j :: 0 <= j < i ==> !IsEval(code[j].instruction)
    {
      var opcode := code[i].instruction.opcode;
      if opcode == OP_EVAL || opcode == OP_APPLY_EVAL || opcode == OP_TAIL_EVAL || opcode == OP_TAIL_APPLY_EVAL {
        return true;
      }
    }
    return false;
  }

  /** Stack values that an eval call with a receiver needs, by opcode and operands. */
  method OperandsNeeded(x: Instruction) returns (required: Option<int>)
    ensures required == RequiredDepth(x)
  {
    var opcode, operands := x.opcode, x.operands;
    if (opcode == OP_EVAL || opcode == OP_TAIL_EVAL) && operands.format.FNPopU16? && |operands.values| == 2 {
      var argumentCount := operands.values[0];
      return Some(argumentCount + 2);
    }
    if (opcode == OP_APPLY_EVAL || opcode == OP_TAIL_APPLY_EVAL) && operands.format.FU16? && |operands.values| == 1 {
      return Some(3);
    }
    return None;
  }

  /** The scope that an eval instruction names, by opcode and operands. */
  method ScopeNamed(x: Instruction) returns (scope: Option<int>)
    ensures scope == ScopeIndex(x)
  {
    var opcode, operands := x.opcode, x.operands;
    if (opcode == OP_EVAL || opcode == OP_TAIL_EVAL) && operands.format.FNPopU16? && |operands.values| == 2 {
      return Some(operands.values[1]);
    }
    if (opcode == OP_APPLY_EVAL || opcode == OP_TAIL_APPLY_EVAL) && operands.format.FU16? && |operands.values| == 1 {
      return Some(operands.values[0]);
    }
    return None;
  }

  /** Calls in order: ascending, in bounds, eval instructions, receivers present. */
  method ValidateEvalReferenceCalls(code: seq<FlowInstruction>, r: EvalRecord) returns (e: Option<EvalError>)
    ensures e.None? ==> CallsOk(code, r)
    ensures e.Some? ==> EvalErrorMeans(code, r, e.value)
  {
    var calls := r.referenceCalls;
    var previous: Option<u32> := None;
    for k := 0 to |calls|
      invariant previous == if k == 0 then None else Some(calls[k - 1])
      invariant forall i, j :: 0 <= i < j < k ==> calls[i] < calls[j]
      invariant forall j :: 0 <= j < k ==> CallOk(code, calls[j])
    {
      if previous.Some? && calls[k] <= previous.value {
        return Some(CallOrder(k));
      }
      previous := Some(calls[k]);
      if calls[k] >= |code| {
        return Some(CallOutOfBounds(k));
      }
      var required := OperandsNeeded(code[calls[k]].instruction);
      if required.None? {
        return Some(CallOpcode(k));
      }
      var entry := code[calls[k]].entryDepth;
      if entry.Some? && entry.value < required.value {
        return Some(ReceiverMissing(k));
      }
    }
    return None;
  }

  method ValidatePhases(code: seq<FlowInstruction>, r: EvalRecord) returns (e: Option<EvalError>)
    ensures e.None? ==> forall i: nat :: i < |code| ==> PhaseOk(code, r, i)
    ensures e.Some? ==> EvalErrorMeans(code, r, e.value)
  {
    for i := 0 to |code|
      invariant forall j: nat :: j < i ==> PhaseOk(code, r, j)
    {
      var scope := ScopeNamed(code[i].instruction);
      if scope.Some? {
        var parameterPhase := r.parameterEnd.Some? && SaturateU32(i) < r.parameterEnd.value;
        if (scope.value == 0) != parameterPhase {
          return Some(PhaseMismatch(i));
        }
      }
    }
    return None;
  }

  /** A direct-eval record passes exactly when it tells the truth about the instructions. */
  method ValidateEvalRecord(code: seq<FlowInstruction>, r: EvalRecord) returns (e: Option<EvalError>)
    ensures e.None? <==> EvalRecordOk(code, r)
    ensures e.Some? ==> EvalErrorMeans(code, r, e.value)
  {
    e := EvalRecordChecks(code, r);
    if e.Some? { EvalErrorRefutes(code, r, e.value); }
  }

  method EvalRecordChecks(code: seq<FlowInstruction>, r: EvalRecord) returns (e: Option<EvalError>)
    ensures e.None? ==> EvalRecordOk(code, r)
    ensures e.Some? ==> EvalErrorMeans(code, r, e.value)
  {
    var encoded := AnyEval(code);
    if r.hasDirectEval != encoded {
      return Some(MarkerMismatch);
    }
    e := ValidateEvalReferenceCalls(code, r);
    if e.Some? {
      return;
    }
    if r.parameterEnd.Some? {
      var boundary := r.parameterEnd.value;
      if !r.hasDirectEval || boundary > SaturateU32(|code|) || r.simpleParameters {
        return Some(BoundaryInvalid);
      }
    }
    e := ValidatePhases(code, r);
  }

  /** An unmarked function declares nothing else. */
  lemma UnmarkedDeclaresNothing(code: seq<FlowInstruction>, r: EvalRecord)
    requires EvalRecordOk(code, r) && !r.hasDirectEval
    ensures r.referenceCalls == [] && r.parameterEnd.None?
  {
    if r.referenceCalls != [] {
      assert CallOk(code, r.referenceCalls[0]);
      assert IsEval(code[r.referenceCalls[0]].instruction);
    }
  }

  /** All evals of the parameter phase come before all evals of the body. */
  lemma PhasesSeparate(code: seq<FlowInstruction>, r: EvalRecord, i: nat, j: nat)
    requires EvalRecordOk(code, r) && i < |code| && j < |code|
    requires ScopeIndex(code[i].instruction) == Some(0)
    requires ScopeIndex(code[j].instruction).Some? && ScopeIndex(code[j].instruction).value != 0
    ensures i < j
  {
    assert PhaseOk(code, r, i) && PhaseOk(code, r, j);
  }

  // ------------------------------------------------------- what the bytes say

  /** A counted eval: two bytes of argument count, then two bytes of scope. */
  lemma CountedEvalBytes(opcode: nat, b: seq<u8>)
    requires |b| == 4 && (opcode == OP_EVAL || opcode == OP_TAIL_EVAL)
    ensures var x := Instruction(opcode, Operands(FNPopU16, OperandsAt(FNPopU16, b)));
            && RequiredDepth(x) == Some(b[0] as int + 0x100 * b[1] as int + 2)
            && ScopeIndex(x) == Some(b[2] as int + 0x100 * b[3] as int) && IsEval(x)
  {}

  /** An applied eval: two bytes of scope, and three values on the stack. */
  lemma AppliedEvalBytes(opcode: nat, b: seq<u8>)
    requires |b| == 2 && (opcode == OP_APPLY_EVAL || opcode == OP_TAIL_APPLY_EVAL)
    ensures var x := Instruction(opcode, Operands(FU16, OperandsAt(FU16, b)));
            && RequiredDepth(x) == Some(3) && ScopeIndex(x) == Some(b[0] as int + 0x100 * b[1] as int) && IsEval(x)
  {}

  /** No other instruction is an eval. */
  lemma OtherNoEval(x: Instruction)
    requires x.opcode != OP_EVAL && x.opcode != OP_APPLY_EVAL
    requires x.opcode != OP_TAIL_EVAL && x.opcode != OP_TAIL_APPLY_EVAL
    ensures RequiredDepth(x).None? && ScopeIndex(x).None? && !IsEval(x)
  {}
}
