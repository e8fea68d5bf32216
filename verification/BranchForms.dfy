/** What relaxation decides, said through the encoder: which sizes a branch has, which
    displacements they hold, and which layouts can be encoded. */
module BranchForms {
  import opened Codec
  import opened Emission
  import opened Layout
  import PinnedTable
  import opened Plan
  import opened Schema

  /** The family of a final branch opcode. */
  function Family(opcode: nat): Option<BranchKind> {
    if opcode == OP_IF_FALSE || opcode == OP_IF_FALSE8 then Some(IfFalse)
    else if opcode == OP_IF_TRUE || opcode == OP_IF_TRUE8 then Some(IfTrue)
    else if opcode == OP_GOTO || opcode == OP_GOTO8 || opcode == OP_GOTO16 then Some(Goto)
    else if opcode == OP_CATCH then Some(Catch)
    else if opcode == OP_GOSUB then Some(Gosub)
    else None
  }

  /** Bytes of an instruction before its label field: the opcode and the unsigned fields. */
  function LabelStart(ks: seq<Field>): nat {
    if ks == [] || ks[0].signed then 1 else ks[0].width + LabelStart(ks[1..])
  }

  /** An instruction of the family, of the given size, whose label field says `d`. */
  predicate IsForm(t: OpcodeTable, k: BranchKind, w: nat, d: int, x: Instruction) {
    ValidInstruction(t, x) && Family(x.opcode) == Some(k) && EncodedSize(x) == w && x.operands.values == [d]
  }

  ghost predicate HasForm(t: OpcodeTable, k: BranchKind, w: nat, d: int) {
    exists x: Instruction :: IsForm(t, k, w, d, x)
  }

  lemma FormOf(t: OpcodeTable, k: BranchKind, w: nat, d: int)
    requires PinnedSchema(t) && SupportsWidth(k, w) && FitsWidth(d, w)
    ensures HasForm(t, k, w, d)
  {
    var x := Instruction(BranchOpcode(k, w), Operands(LabelFormat(w), [d]));
    assert IsForm(t, k, w, d, x);
  }

  lemma FormFits(t: OpcodeTable, k: BranchKind, w: nat, d: int, x: Instruction)
    requires PinnedSchema(t) && IsForm(t, k, w, d, x)
    ensures SupportsWidth(k, w) && FitsWidth(d, w) && LabelStart(FieldsOf(x.operands.format)) == 1
  {
    assert t[x.opcode] in {FLabel8, FLabel16, FLabel};
  }

  /** A displacement fits a size of a family exactly when there is a valid instruction of that
      family and size that carries it. */
  lemma FitsExactly(t: OpcodeTable, k: BranchKind, w: nat, d: int)
    requires PinnedSchema(t)
    ensures SupportsWidth(k, w) && FitsWidth(d, w) <==> HasForm(t, k, w, d)
  {
    if SupportsWidth(k, w) && FitsWidth(d, w) { FormOf(t, k, w, d); }
    if x: Instruction :| IsForm(t, k, w, d, x) { FormFits(t, k, w, d, x); }
  }

  /** A family has exactly the sizes of its final instructions. */
  lemma SupportsExactly(t: OpcodeTable, k: BranchKind, w: nat)
    requires PinnedSchema(t)
    ensures SupportsWidth(k, w) <==> exists d: int :: HasForm(t, k, w, d)
  {
    if SupportsWidth(k, w) { FitsExactly(t, k, w, 0); }
    if d: int :| HasForm(t, k, w, d) { FitsExactly(t, k, w, d); }
  }

  /** The same of object-environment branches. */
  predicate IsWithForm(t: OpcodeTable, item: Item, w: nat, d: int, x: Instruction)
    requires item.WithBranch?
  {
    && ValidInstruction(t, x) && x.opcode == item.opcode && EncodedSize(x) == w
    && x.operands.values == [item.atom, d, item.value]
  }

  lemma WithFitsExactly(t: OpcodeTable, item: Item, w: nat, d: int)
    requires PinnedSchema(t) && item.WithBranch? && IsWithOpcode(item.opcode)
    ensures w == 10 && FitsWidth(d, 5) <==> exists x: Instruction :: IsWithForm(t, item, w, d, x)
    ensures LabelStart(FieldsOf(t[item.opcode])) == 5
  {
    assert t[item.opcode] == FAtomLabelU8;
    LabelStartAtom();
    if w == 10 && FitsWidth(d, 5) {
      assert IsWithForm(t, item, w, d, Instruction(item.opcode, Operands(FAtomLabelU8, [item.atom, d, item.value])));
    }
  }

  lemma LabelStartAtom()
    ensures LabelStart(FieldsOf(FAtomLabelU8)) == 5
  {
    var ks := FieldsOf(FAtomLabelU8);
    assert ks == [B32, S32, B8] && ks[1..] == [S32, B8];
  }

  /** In the pinned table the opcodes that need a symbolic branch are exactly those of the
      branch families and of the object environment. */
  lemma SymbolicExactly(o: nat)
    requires o < PinnedTable.FINAL_OPCODES
    ensures HasSymbolicLabel(PinnedTable.FinalTable()[o]) <==> Family(o).Some? || 114 <= o <= 118
  {
    assert HasSymbolicLabel(PinnedTable.FormatOf(o)) <==> Family(o).Some? || 114 <= o <= 118;
  }

  // ------------------------------------------------------- layouts

  /** Distance from the label field of item `i` to its target. */
  function Distance(p: Plan, ws: Widths, i: nat, f: OperandFormat): int
    requires Resolved(p) && |ws| == |p.items| && i < |ws| && !p.items[i].Plain?
  {
    Position(ws, TargetOf(p, i)) - (Position(ws, i) + LabelStart(FieldsOf(f)))
  }

  /** Item `i` has an instruction of its size; a branch has one of its family whose label
      field holds the distance to its target. */
  ghost predicate EncodableAt(t: OpcodeTable, p: Plan, ws: Widths, i: nat)
    requires PinnedSchema(t) && Resolved(p) && PlannedItems(t, p) && |ws| == |p.items| && i < |ws|
  {
    assert PlannedItem(t, p.items[i]);
    match p.items[i]
    case Plain(x) => ws[i] == EncodedSize(x)
    case Branch(k, _) =>
      exists x: Instruction :: IsForm(t, k, ws[i], Distance(p, ws, i, x.operands.format), x)
    case WithBranch(opcode, _, _, _) => ws[i] == InstructionSize(t[opcode])
  }

  ghost predicate EncodableLayout(t: OpcodeTable, p: Plan, ws: Widths)
    requires PinnedSchema(t) && Resolved(p) && PlannedItems(t, p)
  {
    |ws| == |p.items| && forall i: nat :: i < |ws| ==> EncodableAt(t, p, ws, i)
  }

  lemma BranchExactly(t: OpcodeTable, p: Plan, ws: Widths, i: nat)
    requires PinnedSchema(t) && Resolved(p) && PlannedItems(t, p) && |ws| == |p.items| && i < |ws|
    requires p.items[i].Branch?
    ensures EncodableAt(t, p, ws, i) <==> SupportsWidth(p.items[i].kind, ws[i]) && BranchFits(p, ws, i)
  {
    var k, d := p.items[i].kind, Displacement(p, ws, i);
    if SupportsWidth(k, ws[i]) && BranchFits(p, ws, i) {
      FormOf(t, k, ws[i], d);
      var x: Instruction :| IsForm(t, k, ws[i], d, x);
      FormFits(t, k, ws[i], d, x);
      assert IsForm(t, k, ws[i], Distance(p, ws, i, x.operands.format), x);
    }
    if x: Instruction :| IsForm(t, k, ws[i], Distance(p, ws, i, x.operands.format), x) {
      FormFits(t, k, ws[i], Distance(p, ws, i, x.operands.format), x);
    }
  }

  lemma OtherExactly(t: OpcodeTable, p: Plan, ws: Widths, i: nat)
    requires PinnedSchema(t) && Resolved(p) && PlannedItems(t, p) && |ws| == |p.items| && i < |ws|
    requires !p.items[i].Branch?
    ensures EncodableAt(t, p, ws, i) <==> ws[i] == MinimumSize(p.items[i])
  {
    assert PlannedItem(t, p.items[i]);
    if p.items[i].WithBranch? { assert t[p.items[i].opcode] == FAtomLabelU8; }
  }

  /** A layout is valid exactly when every item can be encoded under it. */
  lemma ValidExactly(t: OpcodeTable, p: Plan, ws: Widths)
    requires PinnedSchema(t) && Resolved(p) && PlannedItems(t, p)
    ensures ValidLayout(p, ws) <==> EncodableLayout(t, p, ws)
  {
    if |ws| == |p.items| {
      forall i: nat | i < |ws|
        ensures EncodableAt(t, p, ws, i) <==>
                if p.items[i].Branch? then SupportsWidth(p.items[i].kind, ws[i]) && BranchFits(p, ws, i)
                else ws[i] == MinimumSize(p.items[i])
      {
        if p.items[i].Branch? { BranchExactly(t, p, ws, i); } else { OtherExactly(t, p, ws, i); }
      }
    }
  }

  /** The least layout is the pointwise least among all that can be encoded. */
  lemma LeastExactly(t: OpcodeTable, p: Plan, ws: Widths)
    requires PinnedSchema(t) && Resolved(p) && PlannedItems(t, p)
    ensures LeastLayout(p, ws) <==>
            EncodableLayout(t, p, ws) && forall vs: Widths :: EncodableLayout(t, p, vs) ==> Below(ws, vs)
  {
    forall vs: Widths ensures ValidLayout(p, vs) <==> EncodableLayout(t, p, vs) { ValidExactly(t, p, vs); }
  }

  /** An object-environment branch reaches its target exactly when some instruction says so. */
  lemma WithReachExactly(t: OpcodeTable, p: Plan, ws: Widths, i: nat)
    requires PinnedSchema(t) && Resolved(p) && PlannedItems(t, p) && Shape(p, ws) && i < |ws|
    requires p.items[i].WithBranch?
    ensures WithBranchFits(p, ws, i) <==>
            exists x: Instruction :: IsWithForm(t, p.items[i], ws[i], Distance(p, ws, i, x.operands.format), x)
  {
    assert PlannedItem(t, p.items[i]);
    var item := p.items[i];
    var d := WithDisplacement(p, ws, i);
    WithFitsExactly(t, item, ws[i], d);
    assert Distance(p, ws, i, t[item.opcode]) == d;
    if x: Instruction :| IsWithForm(t, item, ws[i], d, x) {
      assert IsWithForm(t, item, ws[i], Distance(p, ws, i, x.operands.format), x);
    }
    if x: Instruction :| IsWithForm(t, item, ws[i], Distance(p, ws, i, x.operands.format), x) {
      assert IsWithForm(t, item, ws[i], d, x);
    }
  }
}
