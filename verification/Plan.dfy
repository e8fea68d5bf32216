/** The symbolic assembly plan: planned items, labels and their bindings. */
module Plan {
  import opened Schema
  import opened Codec

  datatype BranchKind = IfFalse | IfTrue | Goto | Catch | Gosub

  /** One planned instruction. `target` is a plan-local label index. */
  datatype Item =
    | Plain(instruction: Instruction)
    | Branch(kind: BranchKind, target: nat)
    | WithBranch(opcode: nat, atom: u32, value: u8, target: nat)

  datatype Plan = Plan(items: seq<Item>, bindings: seq<Option<nat>>)

  datatype AssemblerError =
    | InstructionLimitExceeded(index: nat, limit: nat, observed: nat)
    | RelaxationLimitExceeded(index: nat, limit: nat, observed: nat)
    | TooManyLabels
    | TooManyInstructions
    | ForeignLabel
    | UnknownLabel(labelIndex: nat)
    | DuplicateLabel(labelIndex: nat)
    | UnboundLabel(labelIndex: nat)
    | TargetAtEnd(labelIndex: nat)
    | SymbolicBranchRequired(opcode: nat)
    | InvalidInstruction(index: nat, cause: InstructionError)
    | EncodedLengthOutOfRange(encodedBytes: int)
    | BranchDisplacementOutOfRange(index: nat, labelIndex: nat, displacement: int)
    | EncodingFailed(index: nat)
    | LayoutMismatch(index: nat)

  /** A label names an instruction boundary of the plan, possibly its end. */
  predicate BoundWithin(p: Plan, l: nat) {
    l < |p.bindings| && p.bindings[l].Some? && p.bindings[l].value <= |p.items|
  }

  /** Every label is bound and every referenced label names a planned instruction. */
  predicate Resolved(p: Plan) {
    && (forall l :: 0 <= l < |p.bindings| ==> BoundWithin(p, l))
    && (forall i :: 0 <= i < |p.items| && !p.items[i].Plain? ==>
          BoundWithin(p, p.items[i].target) && p.bindings[p.items[i].target].value < |p.items|)
  }

  /** Position, in items, of the instruction a label is bound to. */
  function At(p: Plan, l: nat): nat
    requires Resolved(p) && l < |p.bindings|
  {
    assert BoundWithin(p, l);
    p.bindings[l].value
  }

  /** Position of the item that a branching item refers to. */
  function TargetOf(p: Plan, i: nat): (t: nat)
    requires Resolved(p) && i < |p.items| && !p.items[i].Plain?
    ensures t < |p.items|
  {
    At(p, p.items[i].target)
  }
}
