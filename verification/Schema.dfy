/** Machine integers, result types and the operand schema shared by the
    instruction codec and the symbolic assembler. */
module Schema {

  type u8 = x: int | 0 <= x < 0x100
  type u16 = x: int | 0 <= x < 0x1_0000
  type u32 = x: int | 0 <= x < 0x1_0000_0000
  type u64 = x: int | 0 <= x < 0x1_0000_0000_0000_0000

  const U32_MAX: int := 0xFFFF_FFFF
  const U64_MAX: int := 0xFFFF_FFFF_FFFF_FFFF

  datatype Option<+T> = None | Some(value: T)

  datatype Result<+T, +E> = Ok(value: T) | Err(error: E)

  /** One fixed-width little-endian operand field. */
  datatype Field = Field(width: nat, signed: bool)

  const B8 := Field(1, false)
  const S8 := Field(1, true)
  const B16 := Field(2, false)
  const S16 := Field(2, true)
  const B32 := Field(4, false)
  const S32 := Field(4, true)

  /** How the operands of an opcode are laid out. */
  datatype OperandFormat =
    | FNone | FNoneInt | FNoneLoc | FNoneArg | FNoneVarRef
    | FU8 | FI8 | FLoc8 | FConst8 | FLabel8
    | FU16 | FI16 | FLabel16 | FNPop | FNPopX | FNPopU16
    | FLoc | FArg | FVarRef
    | FU32 | FI32 | FConst | FLabel | FAtom
    | FAtomU8 | FAtomU16 | FAtomLabelU8 | FAtomLabelU16 | FLabelU16

  const MAX_ENCODED_OPERAND_BYTES: nat := 10

  /** Number of operand bytes that follow the one-byte opcode. */
  function OperandWidth(f: OperandFormat): (w: nat)
    ensures w <= 10 == MAX_ENCODED_OPERAND_BYTES
  {
    match f
    case FNone => 0 case FNoneInt => 0 case FNoneLoc => 0 case FNoneArg => 0
    case FNoneVarRef => 0 case FNPopX => 0
    case FU8 => 1 case FI8 => 1 case FLoc8 => 1 case FConst8 => 1 case FLabel8 => 1
    case FU16 => 2 case FI16 => 2 case FLabel16 => 2 case FNPop => 2
    case FLoc => 2 case FArg => 2 case FVarRef => 2
    case FNPopU16 => 4 case FU32 => 4 case FI32 => 4 case FConst => 4
    case FLabel => 4 case FAtom => 4
    case FAtomU8 => 5
    case FAtomU16 => 6 case FLabelU16 => 6
    case FAtomLabelU8 => 9
    case FAtomLabelU16 => 10
  }

  /** Full encoded size, including the opcode byte. */
  function InstructionSize(f: OperandFormat): nat { OperandWidth(f) + 1 }

  /** Operand formats of all final opcodes in encoded-byte order. */
  type OpcodeTable = seq<OperandFormat>

  const OP_INVALID: nat := 0
  const OP_PUSH_CONST: nat := 2
  const OP_NIP: nat := 15
  const OP_SWAP: nat := 27
  const OP_TAIL_CALL: nat := 35
  const OP_TAIL_CALL_METHOD: nat := 37
  const OP_RETURN: nat := 40
  const OP_RETURN_UNDEF: nat := 41
  const OP_RETURN_ASYNC: nat := 47
  const OP_THROW: nat := 48
  const OP_THROW_ERROR: nat := 49
  const OP_EVAL: nat := 50
  const OP_APPLY_EVAL: nat := 51
  const OP_DEFINE_FIELD: nat := 74
  const OP_SET_NAME: nat := 75
  const OP_DEFINE_METHOD: nat := 82
  const OP_DEFINE_CLASS: nat := 84
  const OP_IF_FALSE: nat := 105
  const OP_IF_TRUE: nat := 106
  const OP_GOTO: nat := 107
  const OP_CATCH: nat := 108
  const OP_GOSUB: nat := 109
  const OP_RET: nat := 110
  const OP_WITH_GET_VAR: nat := 114
  const OP_WITH_PUT_VAR: nat := 115
  const OP_WITH_DELETE_VAR: nat := 116
  const OP_WITH_MAKE_REF: nat := 117
  const OP_WITH_GET_REF: nat := 118
  const OP_IF_FALSE8: nat := 233
  const OP_IF_TRUE8: nat := 234
  const OP_GOTO8: nat := 235
  const OP_GOTO16: nat := 236
  const OP_TAIL_APPLY: nat := 245
  const OP_TAIL_EVAL: nat := 246
  const OP_TAIL_APPLY_EVAL: nat := 247

  function SaturateU32(n: nat): nat { if n <= U32_MAX then n else U32_MAX }

  /** Opcodes occupy one byte and byte zero is the reserved sentinel. */
  predicate ByteTable(t: OpcodeTable) { 0 < |t| <= 256 }

  /** What the assembler relies on: the branch family carries the label formats of the
      pinned table. */
  predicate PinnedSchema(t: OpcodeTable) {
    && ByteTable(t) && OP_GOTO16 < |t|
    && t[OP_IF_FALSE] == FLabel && t[OP_IF_TRUE] == FLabel && t[OP_GOTO] == FLabel
    && t[OP_CATCH] == FLabel && t[OP_GOSUB] == FLabel
    && t[OP_IF_FALSE8] == FLabel8 && t[OP_IF_TRUE8] == FLabel8 && t[OP_GOTO8] == FLabel8
    && t[OP_GOTO16] == FLabel16
    && forall o :: OP_WITH_GET_VAR <= o <= OP_WITH_GET_REF ==> t[o] == FAtomLabelU8
  }
}
