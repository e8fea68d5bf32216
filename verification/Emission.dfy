/** Final emission: turning a relaxed plan into encoded instructions. */
module Emission {
  import Finite
  import opened Schema
  import opened Codec
  import opened Builder
  import opened Plan
  import opened Layout
  import opened Relaxation

  /** The final opcode of a branch family at a given instruction size. */
  function BranchOpcode(k: BranchKind, w: nat): nat {
    match k
    case IfFalse => if w == 2 then OP_IF_FALSE8 else OP_IF_FALSE
    case IfTrue => if w == 2 then OP_IF_TRUE8 else OP_IF_TRUE
    case Goto => if w == 2 then OP_GOTO8 else if w == 3 then OP_GOTO16 else OP_GOTO
    case Catch => OP_CATCH
    case Gosub => OP_GOSUB
  }

  function LabelFormat(w: nat): OperandFormat {
    if w == 2 then FLabel8 else if w == 3 then FLabel16 else FLabel
  }

  /** Builds a final branch; rejected exactly when the family has no such size or the
      displacement does not fit it. */
  function BranchInstruction(t: OpcodeTable, k: BranchKind, w: nat, d: int, index: nat, l: nat)
    : (r: Result<Instruction, AssemblerError>)
    requires PinnedSchema(t)
    ensures r.Ok? <==> SupportsWidth(k, w) && FitsWidth(d, w)
    ensures r.Ok? ==> ValidInstruction(t, r.value) && EncodedSize(r.value) == w
    ensures r.Ok? ==> r.value == Instruction(BranchOpcode(k, w), Operands(LabelFormat(w), [d]))
    ensures r.Err? ==> r.error.BranchDisplacementOutOfRange?
  {
    if !SupportsWidth(k, w) || !FitsWidth(d, w) then Err(BranchDisplacementOutOfRange(index, l, d))
    else Ok(NewInstruction(t, BranchOpcode(k, w), Operands(LabelFormat(w), [d])).value)
  }

  predicate IsWithOpcode(opcode: nat) { OP_WITH_GET_VAR <= opcode <= OP_WITH_GET_REF }

  /** Distance from the label field of an object-environment branch, at pc + 5. */
  function WithDisplacement(p: Plan, ws: Widths, i: nat): int
    requires Resolved(p) && |ws| == |p.items| && i < |ws| && p.items[i].WithBranch?
  {
    Position(ws, TargetOf(p, i)) - (Position(ws, i) + 5)
  }

  /** Formats that carry a relative label and therefore need a symbolic branch. */
  predicate HasSymbolicLabel(f: OperandFormat) {
    f in {FLabel8, FLabel16, FLabel, FAtomLabelU8, FAtomLabelU16, FLabelU16}
  }

  /** Items as the assembler's own methods append them. */
  predicate PlannedItem(t: OpcodeTable, item: Item) {
    match item
    case Plain(instruction) =>
      ValidInstruction(t, instruction) && !HasSymbolicLabel(instruction.operands.format)
    case Branch(_, _) => true
    case WithBranch(opcode, _, _, _) => IsWithOpcode(opcode)
  }

  predicate PlannedItems(t: OpcodeTable, p: Plan) {
    forall i :: 0 <= i < |p.items| ==> PlannedItem(t, p.items[i])
  }

  /** `x` is the final form of item `i`: an ordinary instruction is itself, and a branch
      has the opcode of its family and size, with a displacement that leads from its base
      exactly to the position of its target. */
  predicate Encodes(p: Plan, ws: Widths, i: nat, x: Instruction)
    requires Resolved(p) && |ws| == |p.items| && i < |ws|
  {
    match p.items[i]
    case Plain(instruction) => x == instruction
    case Branch(k, _) =>
      && x.opcode == BranchOpcode(k, ws[i]) && x.operands.format == LabelFormat(ws[i])
      && |x.operands.values| == 1
      && Position(ws, i) + 1 + x.operands.values[0] == Position(ws, TargetOf(p, i))
    case WithBranch(opcode, atom, value, _) =>
      && x.opcode == opcode && x.operands.format == FAtomLabelU8
      && |x.operands.values| == 3 && x.operands.values[0] == atom && x.operands.values[2] == value
      && Position(ws, i) + 5 + x.operands.values[1] == Position(ws, TargetOf(p, i))
  }

  /** A valid instruction of the planned size that is the final form of item `i`. */
  predicate FinalForm(t: OpcodeTable, p: Plan, ws: Widths, i: nat, x: Instruction)
    requires Resolved(p) && |ws| == |p.items| && i < |ws|
  {
    ValidInstruction(t, x) && EncodedSize(x) == ws[i] && Encodes(p, ws, i, x)
  }

  /** `code` is the final instruction stream of plan `p` under layout `ws`. */
  predicate Assembled(t: OpcodeTable, p: Plan, ws: Widths, code: seq<Instruction>)
    requires Resolved(p) && |ws| == |p.items|
  {
    |code| == |p.items| && AssembledSoFar(t, p, ws, code)
  }

  predicate AssembledSoFar(t: OpcodeTable, p: Plan, ws: Widths, code: seq<Instruction>)
    requires Resolved(p) && |ws| == |p.items|
  {
    |code| <= |p.items| && forall i :: 0 <= i < |code| ==> FinalForm(t, p, ws, i, code[i])
  }

  lemma AssembleOneMore(t: OpcodeTable, p: Plan, ws: Widths, code: seq<Instruction>, x: Instruction)
    requires Resolved(p) && |ws| == |p.items| && AssembledSoFar(t, p, ws, code)
    requires |code| < |ws| && FinalForm(t, p, ws, |code|, x)
    ensures AssembledSoFar(t, p, ws, code + [x])
  {}

  /** An object-environment branch keeps its fixed atom/label/byte encoding. */
  function WithInstruction(t: OpcodeTable, opcode: nat, atom: u32, value: u8, d: int, index: nat, l: nat)
    : (r: Result<Instruction, AssemblerError>)
    requires PinnedSchema(t) && IsWithOpcode(opcode)
    ensures r.Ok? <==> FitsWidth(d, 5)
    ensures r.Ok? ==> ValidInstruction(t, r.value) && EncodedSize(r.value) == 10
    ensures r.Ok? ==> r.value == Instruction(opcode, Operands(FAtomLabelU8, [atom, d, value]))
    ensures r.Err? ==> r.error == BranchDisplacementOutOfRange(index, l, d)
  {
    if !FitsWidth(d, 5) then Err(BranchDisplacementOutOfRange(index, l, d))
    else Ok(NewInstruction(t, opcode, Operands(FAtomLabelU8, [atom, d, value])).value)
  }

  /** The final instruction of one item, from the positions relaxation computed. */
  method EmitItem(t: OpcodeTable, p: Plan, ws: Widths, ps: seq<nat>, i: nat)
    returns (r: Result<Instruction, AssemblerError>)
    requires PinnedSchema(t) && Resolved(p) && PlannedItems(t, p)
    requires ValidLayout(p, ws) && SmallLayout(ws) && IsPositions(ws, ps) && i < |ws|
    ensures r.Ok? <==> (p.items[i].WithBranch? ==> FitsWidth(WithDisplacement(p, ws, i), 5))
    ensures r.Ok? ==> FinalForm(t, p, ws, i, r.value)
    ensures r.Err? ==> r.error == BranchDisplacementOutOfRange(i, p.items[i].target, WithDisplacement(p, ws, i))
  {
    assert PlannedItem(t, p.items[i]);
    match p.items[i]
    case Plain(instruction) =>
      return Ok(instruction);
    case Branch(kind, l) =>
      PositionBound(ws, i);
      PositionBound(ws, TargetOf(p, i));
      assert BranchFits(p, ws, i);
      var d := SignedDisplacement(ps[i], ps[TargetOf(p, i)]);
      r := BranchInstruction(t, kind, ws[i], d.value, i, l);
    case WithBranch(opcode, atom, value, l) =>
      var d: int := ps[TargetOf(p, i)] as int - (ps[i] + 5);
      r := WithInstruction(t, opcode, atom, value, d, i, l);
  }

  predicate WithBranchFits(p: Plan, ws: Widths, i: nat)
    requires Resolved(p) && |ws| == |p.items| && i < |ws|
  {
    p.items[i].WithBranch? ==> FitsWidth(WithDisplacement(p, ws, i), 5)
  }

  /** A layout under which every branch, object-environment ones included, reaches its
      target, within a number of bytes. */
  predicate FitsWithin(p: Plan, ws: Widths, limit: nat) {
    && Resolved(p) && ValidLayout(p, ws) && Position(ws, |ws|) <= limit
    && forall i :: 0 <= i < |ws| ==> WithBranchFits(p, ws, i)
  }

  /** Some layout at all fits. */
  ghost predicate Assemblable(p: Plan, limit: nat) { exists ws: Widths :: FitsWithin(p, ws, limit) }

  /** An object-environment branch that reaches its target in a wider layout does so in a
      narrower one. */
  lemma WithFitsWhenNarrowed(p: Plan, ws: Widths, vs: Widths, i: nat)
    requires Resolved(p) && Shape(p, ws) && Below(ws, vs) && i < |ws| && WithBranchFits(p, vs, i)
    ensures WithBranchFits(p, ws, i)
  {
    if p.items[i].WithBranch? {
      var t := TargetOf(p, i);
      if t > i {
        DistanceMonotone(ws, vs, i, t);
        PositionIncreasing(ws, i, t);
      } else {
        DistanceMonotone(ws, vs, t, i);
        PositionIncreasing(ws, t, i);
      }
    }
  }

  /** If any layout fits, the least one does. */
  lemma LeastDecides(p: Plan, ws: Widths, limit: nat)
    requires Resolved(p) && LeastLayout(p, ws)
    ensures Assemblable(p, limit) <==> FitsWithin(p, ws, limit)
  {
    if vs: Widths :| FitsWithin(p, vs, limit) {
      assert Below(ws, vs);
      DistanceMonotone(ws, vs, 0, |ws|);
      forall i: nat | i < |ws| ensures WithBranchFits(p, ws, i) {
        assert WithBranchFits(p, vs, i);
        WithFitsWhenNarrowed(p, ws, vs, i);
      }
    }
  }

  /** Appends one final instruction where the layout expects it. */
  method Place(builder: BytecodeBuilder, x: Instruction, index: nat, expected: nat)
    returns (r: Option<AssemblerError>)
    requires builder.Valid() && ValidInstruction(builder.table, x)
    requires builder.nextPc == expected && expected + EncodedSize(x) <= U32_MAX && builder.origin == 0
    modifies builder
    ensures builder.Valid()
    ensures r.None? <==> expected + EncodedSize(x) <= builder.byteLimit
    ensures r.None? ==> builder.instructions == old(builder.instructions) + [x]
                        && builder.nextPc == expected + EncodedSize(x)
    ensures r.Some? ==> r.value == EncodingFailed(index)
  {
    var actual := builder.PushInstruction(x);
    if actual.Err? {
      return Some(EncodingFailed(index));
    }
    if actual.value != expected {
      return Some(LayoutMismatch(index));
    }
    return None;
  }

  /** A plan with its relaxed layout, ready for emission. */
  predicate Ready(t: OpcodeTable, p: Plan, ws: Widths, ps: seq<nat>) {
    && PinnedSchema(t) && Resolved(p) && PlannedItems(t, p)
    && ValidLayout(p, ws) && SmallLayout(ws) && IsPositions(ws, ps)
    && Position(ws, |ws|) <= U32_MAX
  }

  /** The builder holds the final forms of the first `i` items. */
  ghost predicate EmittedTo(b: BytecodeBuilder, p: Plan, ws: Widths, ps: seq<nat>, i: nat)
    reads b
    requires Ready(b.table, p, ws, ps) && i <= |ws|
  {
    && b.Valid() && b.origin == 0 && b.nextPc == ps[i] <= b.byteLimit
    && |b.instructions| == i && AssembledSoFar(b.table, p, ws, b.instructions)
    && forall j :: 0 <= j < i ==> WithBranchFits(p, ws, j)
  }

  /** Emits item `i` where the layout expects it. */
  method EmitNext(b: BytecodeBuilder, p: Plan, ws: Widths, ps: seq<nat>, i: nat)
    returns (r: Option<AssemblerError>)
    requires Ready(b.table, p, ws, ps) && i < |ws| && EmittedTo(b, p, ws, ps, i)
    modifies b
    ensures r.None? ==> EmittedTo(b, p, ws, ps, i + 1)
    ensures r.Some? ==> if WithBranchFits(p, ws, i)
                        then r.value == EncodingFailed(i) && ps[|ws|] > b.byteLimit
                        else r.value.BranchDisplacementOutOfRange? && r.value.index == i
  {
    PositionIncreasing(ws, i + 1, |ws|);
    var x := EmitItem(b.table, p, ws, ps, i);
    if x.Err? {
      return Some(x.error);
    }
    assert ps[i + 1] == ps[i] + EncodedSize(x.value);
    AssembleOneMore(b.table, p, ws, b.instructions, x.value);
    r := Place(b, x.value, i, ps[i]);
  }

  /** Encodes every item in order. The layout and the encoder never disagree, ordinary
      branches never fail, and the byte limit is the only encoder failure. */
  method Emit(t: OpcodeTable, p: Plan, ws: Widths, ps: seq<nat>, byteLimit: u32)
    returns (r: Result<(seq<u8>, seq<nat>), AssemblerError>, ghost code: seq<Instruction>)
    requires Ready(t, p, ws, ps)
    ensures r.Ok? ==> Assembled(t, p, ws, code) && r.value.0 == EncodeStream(code)
    ensures r.Ok? ==> r.value.1 == ps[..|ws|] && Position(ws, |ws|) <= byteLimit
    ensures r.Ok? ==> forall i :: 0 <= i < |ws| ==> WithBranchFits(p, ws, i)
    ensures r.Err? ==> r.error.BranchDisplacementOutOfRange? || r.error.EncodingFailed?
    ensures r.Err? && r.error.EncodingFailed? ==> Position(ws, |ws|) > byteLimit
    ensures r.Err? && r.error.BranchDisplacementOutOfRange? ==>
              r.error.index < |ws| && !WithBranchFits(p, ws, r.error.index)
  {
    var b := new BytecodeBuilder(t, 0, byteLimit);
    var pcs: seq<nat> := [];
    code := [];
    for i := 0 to |p.items|
      invariant fresh(b) && b.table == t && b.byteLimit == byteLimit
      invariant EmittedTo(b, p, ws, ps, i)
      invariant pcs == ps[..i]
    {
      Finite.TakeOneMore(ps, i);
      pcs := pcs + [b.nextPc];
      var failure := EmitNext(b, p, ws, ps, i);
      if failure.Some? {
        return Err(failure.value), code;
      }
    }
    code := b.instructions;
    return Ok((b.bytes, pcs)), code;
  }

  /** What the decoder must report for item `i` of an assembled plan. */
  function Slot(ws: Widths, code: seq<Instruction>, i: nat): Result<Decoded, DecodeError>
    requires i < |ws| == |code| && Position(ws, |ws|) <= U32_MAX
  {
    PositionIncreasing(ws, i, i + 1);
    PositionIncreasing(ws, i + 1, |ws|);
    Ok(Decoded(Position(ws, i), code[i], Position(ws, i + 1)))
  }

  lemma {:induction false} SuffixSize(code: seq<Instruction>, ws: Widths, k: nat)
    requires |code| == |ws| && k <= |ws|
    requires forall i :: 0 <= i < |ws| ==> EncodedSize(code[i]) == ws[i]
    ensures Position(ws, k) + StreamSize(code[k..]) == Position(ws, |ws|)
    decreases |ws| - k
  {
    if k < |ws| {
      SuffixSize(code, ws, k + 1);
      assert code[k..][1..] == code[k + 1..];
    }
  }

  lemma {:induction false} LocatedAtSlot(code: seq<Instruction>, ws: Widths, k: nat, i: nat)
    requires k <= i < |ws| == |code| && Position(ws, |ws|) <= U32_MAX
    requires forall i :: 0 <= i < |ws| ==> EncodedSize(code[i]) == ws[i]
    requires Position(ws, k) + StreamSize(code[k..]) <= U32_MAX
    ensures Located(code[k..], Position(ws, k))[i - k] == Slot(ws, code, i)
    decreases i - k
  {
    assert code[k..][1..] == code[k + 1..];
    if k < i { LocatedAtSlot(code, ws, k + 1, i); }
  }

  /** Decoding the emitted bytes yields exactly one instruction per item, each at the
      position the layout assigned to it. */
  lemma EmittedDecodes(t: OpcodeTable, p: Plan, ws: Widths, code: seq<Instruction>)
    requires PinnedSchema(t) && Resolved(p) && |ws| == |p.items| && Assembled(t, p, ws, code)
    requires Position(ws, |ws|) <= U32_MAX
    ensures var rs := DecodeFrom(t, EncodeStream(code), 0);
            |rs| == |code| && forall i :: 0 <= i < |rs| ==> rs[i] == Slot(ws, code, i)
    ensures |EncodeStream(code)| == Position(ws, |ws|)
  {
    SuffixSize(code, ws, 0);
    assert code[0..] == code;
    forall i | 0 <= i < |ws|
      ensures Located(code, 0)[i] == Slot(ws, code, i)
    {
      LocatedAtSlot(code, ws, 0, i);
    }
    assert EncodeStream(code)[0..] == EncodeStream(code);
    StreamRoundTrip(t, EncodeStream(code), 0, code);
  }
}
