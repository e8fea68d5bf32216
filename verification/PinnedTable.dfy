/** The pinned table of final opcodes, as runs of equal operand formats. */
module PinnedTable {
  import opened Schema

  const FINAL_OPCODES: nat := 249

  function FormatOf(o: nat): OperandFormat {
    if o <= 0 then FNone else if o <= 1 then FI32 else if o <= 3 then FConst else if o <= 5 then FAtom else
    if o <= 11 then FNone else if o <= 12 then FU8 else if o <= 13 then FU16 else if o <= 32 then FNone else
    if o <= 38 then FNPop else if o <= 39 then FU16 else if o <= 48 then FNone else if o <= 49 then FAtomU8 else
    if o <= 50 then FNPopU16 else if o <= 51 then FU16 else if o <= 55 then FNone else
    if o <= 59 then FVarRef else if o <= 61 then FNone else if o <= 64 then FAtom else if o <= 66 then FNone else
    if o <= 67 then FU8 else if o <= 73 then FNone else if o <= 75 then FAtom else if o <= 80 then FNone else
    if o <= 81 then FU8 else if o <= 82 then FAtomU8 else if o <= 83 then FU8 else if o <= 85 then FAtomU8 else
    if o <= 88 then FLoc else if o <= 91 then FArg else if o <= 94 then FVarRef else if o <= 100 then FLoc else
    if o <= 103 then FVarRef else if o <= 104 then FLoc else if o <= 109 then FLabel else
    if o <= 113 then FNone else if o <= 118 then FAtomLabelU8 else if o <= 121 then FAtomU16 else
    if o <= 122 then FAtom else if o <= 126 then FNone else if o <= 127 then FU8 else if o <= 132 then FNone else
    if o <= 133 then FU8 else if o <= 144 then FNone else if o <= 147 then FLoc8 else if o <= 151 then FNone else
    if o <= 152 then FAtom else if o <= 176 then FNone else if o <= 177 then FI32 else
    if o <= 178 then FNone else if o <= 187 then FNoneInt else if o <= 188 then FI8 else
    if o <= 189 then FI16 else if o <= 191 then FConst8 else if o <= 192 then FNone else
    if o <= 195 then FLoc8 else if o <= 207 then FNoneLoc else if o <= 219 then FNoneArg else
    if o <= 231 then FNoneVarRef else if o <= 232 then FNone else if o <= 235 then FLabel8 else
    if o <= 236 then FLabel16 else if o <= 240 then FNPopX else if o <= 244 then FNone else
    if o <= 245 then FU16 else if o <= 246 then FNPopU16 else if o <= 247 then FU16 else
    FNone
  }

  /** The instruction sizes that the table lists. */
  function ListedSize(o: nat): nat {
    if o <= 0 then 1 else if o <= 5 then 5 else if o <= 11 then 1 else if o <= 12 then 2 else
    if o <= 13 then 3 else if o <= 32 then 1 else if o <= 39 then 3 else if o <= 48 then 1 else
    if o <= 49 then 6 else if o <= 50 then 5 else if o <= 51 then 3 else if o <= 55 then 1 else
    if o <= 59 then 3 else if o <= 61 then 1 else if o <= 64 then 5 else if o <= 66 then 1 else
    if o <= 67 then 2 else if o <= 73 then 1 else if o <= 75 then 5 else if o <= 80 then 1 else
    if o <= 81 then 2 else if o <= 82 then 6 else if o <= 83 then 2 else if o <= 85 then 6 else
    if o <= 104 then 3 else if o <= 109 then 5 else if o <= 113 then 1 else if o <= 118 then 10 else
    if o <= 121 then 7 else if o <= 122 then 5 else if o <= 126 then 1 else if o <= 127 then 2 else
    if o <= 132 then 1 else if o <= 133 then 2 else if o <= 144 then 1 else if o <= 147 then 2 else
    if o <= 151 then 1 else if o <= 152 then 5 else if o <= 176 then 1 else if o <= 177 then 5 else
    if o <= 187 then 1 else if o <= 188 then 2 else if o <= 189 then 3 else if o <= 191 then 2 else
    if o <= 192 then 1 else if o <= 195 then 2 else if o <= 232 then 1 else if o <= 235 then 2 else
    if o <= 236 then 3 else if o <= 244 then 1 else if o <= 245 then 3 else if o <= 246 then 5 else
    if o <= 247 then 3 else
    1
  }

  function FinalTable(): (t: OpcodeTable)
    ensures |t| == FINAL_OPCODES && forall o: nat :: o < FINAL_OPCODES ==> t[o] == FormatOf(o)
  {
    seq(FINAL_OPCODES, (o: nat) => FormatOf(o))
  }

  /** The pinned table has the branch family that the assembler relies on. */
  lemma PinnedTableFits()
    ensures PinnedSchema(FinalTable())
  {
    forall o | OP_WITH_GET_VAR <= o <= OP_WITH_GET_REF ensures FinalTable()[o] == FAtomLabelU8 {
      assert FormatOf(o) == FAtomLabelU8;
    }
  }

  /** It lists for every opcode the size that its operand format implies. */
  lemma ListedSizesFit(o: nat)
    requires o < FINAL_OPCODES
    ensures ListedSize(o) == InstructionSize(FinalTable()[o])
  {
    assert ListedSize(o) == InstructionSize(FormatOf(o));
  }

  /** The opcodes of interest, by the names that the table gives them. */
  datatype FinalOpcode =
    PushConst | Nip | Swap | TailCall | TailCallMethod | Return | ReturnUndef | ReturnAsync | Throw |
    ThrowError | Eval | ApplyEval | DefineField | SetName | DefineMethod | DefineClass | IfFalse | IfTrue |
    Goto | Catch | Gosub | Ret | WithGetVar | WithPutVar | WithDeleteVar | WithMakeRef | WithGetRef |
    IfFalse8 | IfTrue8 | Goto8 | Goto16 | TailApply | TailEval | TailApplyEval

  /** Places in the table, counted from its first entry. */
  function PlaceOf(opcode: FinalOpcode): nat {
    match opcode
    case PushConst => 2 case Nip => 15 case Swap => 27 case TailCall => 35 case TailCallMethod => 37
    case Return => 40 case ReturnUndef => 41 case ReturnAsync => 47 case Throw => 48 case ThrowError => 49
    case Eval => 50 case ApplyEval => 51 case DefineField => 74 case SetName => 75 case DefineMethod => 82
    case DefineClass => 84 case IfFalse => 105 case IfTrue => 106 case Goto => 107 case Catch => 108
    case Gosub => 109 case Ret => 110 case WithGetVar => 114 case WithPutVar => 115 case WithDeleteVar => 116
    case WithMakeRef => 117 case WithGetRef => 118 case IfFalse8 => 233 case IfTrue8 => 234 case Goto8 => 235
    case Goto16 => 236 case TailApply => 245 case TailEval => 246 case TailApplyEval => 247
  }

  function ConstantOf(opcode: FinalOpcode): nat {
    match opcode
    case PushConst => OP_PUSH_CONST case Nip => OP_NIP case Swap => OP_SWAP case TailCall => OP_TAIL_CALL
    case TailCallMethod => OP_TAIL_CALL_METHOD case Return => OP_RETURN case ReturnUndef => OP_RETURN_UNDEF
    case ReturnAsync => OP_RETURN_ASYNC case Throw => OP_THROW case ThrowError => OP_THROW_ERROR
    case Eval => OP_EVAL case ApplyEval => OP_APPLY_EVAL case DefineField => OP_DEFINE_FIELD
    case SetName => OP_SET_NAME case DefineMethod => OP_DEFINE_METHOD case DefineClass => OP_DEFINE_CLASS
    case IfFalse => OP_IF_FALSE case IfTrue => OP_IF_TRUE case Goto => OP_GOTO case Catch => OP_CATCH
    case Gosub => OP_GOSUB case Ret => OP_RET case WithGetVar => OP_WITH_GET_VAR
    case WithPutVar => OP_WITH_PUT_VAR case WithDeleteVar => OP_WITH_DELETE_VAR
    case WithMakeRef => OP_WITH_MAKE_REF case WithGetRef => OP_WITH_GET_REF case IfFalse8 => OP_IF_FALSE8
    case IfTrue8 => OP_IF_TRUE8 case Goto8 => OP_GOTO8 case Goto16 => OP_GOTO16 case TailApply => OP_TAIL_APPLY
    case TailEval => OP_TAIL_EVAL case TailApplyEval => OP_TAIL_APPLY_EVAL
  }

  /** The named constants are the places of the opcodes of those names. */
  lemma OpcodePlaces(opcode: FinalOpcode)
    ensures ConstantOf(opcode) == PlaceOf(opcode)
  {}

  /** Operand formats of the eval instructions and of those that define or name properties. */
  lemma EvalFormats()
    ensures FinalTable()[OP_EVAL] == FNPopU16 && FinalTable()[OP_TAIL_EVAL] == FNPopU16
    ensures FinalTable()[OP_APPLY_EVAL] == FU16 && FinalTable()[OP_TAIL_APPLY_EVAL] == FU16
    ensures FinalTable()[OP_DEFINE_FIELD] == FAtom && FinalTable()[OP_SET_NAME] == FAtom
    ensures FinalTable()[OP_DEFINE_METHOD] == FAtomU8 && FinalTable()[OP_DEFINE_CLASS] == FAtomU8
    ensures FinalTable()[OP_THROW_ERROR] == FAtomU8
  {
    assert FormatOf(OP_EVAL) == FNPopU16 && FormatOf(OP_TAIL_EVAL) == FNPopU16;
    assert FormatOf(OP_APPLY_EVAL) == FU16 && FormatOf(OP_TAIL_APPLY_EVAL) == FU16;
    assert FormatOf(OP_DEFINE_FIELD) == FAtom && FormatOf(OP_SET_NAME) == FAtom;
    assert FormatOf(OP_DEFINE_METHOD) == FAtomU8 && FormatOf(OP_DEFINE_CLASS) == FAtomU8;
    assert FormatOf(OP_THROW_ERROR) == FAtomU8;
  }
}
