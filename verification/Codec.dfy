/** The instruction codec: typed operands and the self-delimiting byte format. */
module Codec {
  import opened Schema

  // ---------------------------------------------------------------- operand fields

  /** Number of values an unsigned field of the given byte width can hold. */
  function Span(width: nat): int
    requires width <= 4
  {
    if width == 0 then 1 else if width == 1 then 0x100 else if width == 2 then 0x1_0000
    else if width == 3 then 0x100_0000 else 0x1_0000_0000
  }

  predicate InField(k: Field, v: int) {
    && k.width <= 4
    && if k.signed then -Span(k.width) <= 2 * v < Span(k.width) else 0 <= v < Span(k.width)
  }

  /** The `n` low bytes of `v`, least significant first. */
  function ToLe(v: nat, n: nat): (b: seq<u8>)
    ensures |b| == n
  {
    if n == 0 then [] else [v % 256] + ToLe(v / 256, n - 1)
  }

  function FromLe(b: seq<u8>): (v: nat)
    ensures |b| <= 4 ==> v < Span(|b|)
  {
    if b == [] then 0 else b[0] + 256 * FromLe(b[1..])
  }

  /** Little-endian encoding and decoding are mutually inverse. */
  lemma {:induction false} LeRoundTrip(v: nat, n: nat)
    requires n <= 4 && v < Span(n)
    ensures FromLe(ToLe(v, n)) == v
  {
    if n > 0 {
      LeRoundTrip(v / 256, n - 1);
      assert ToLe(v, n)[1..] == ToLe(v / 256, n - 1);
    }
  }

  lemma {:induction false} LeOfBytes(b: seq<u8>)
    ensures ToLe(FromLe(b), |b|) == b
  {
    if b != [] {
      LeOfBytes(b[1..]);
      assert FromLe(b) % 256 == b[0] && FromLe(b) / 256 == FromLe(b[1..]);
    }
  }

  /** Bytes of one field; a negative value is stored in two's complement. */
  function FieldBytes(k: Field, v: int): (b: seq<u8>)
    requires InField(k, v)
    ensures |b| == k.width
  {
    ToLe(if v < 0 then v + Span(k.width) else v, k.width)
  }

  function FieldValue(k: Field, b: seq<u8>): (v: int)
    requires |b| == k.width <= 4 && (k.signed ==> k.width > 0)
    ensures InField(k, v)
  {
    var u := FromLe(b);
    if k.signed && 2 * u >= Span(k.width) then u - Span(k.width) else u
  }

  lemma FieldRoundTrip(k: Field, v: int)
    requires InField(k, v) && (k.signed ==> k.width > 0)
    ensures FieldValue(k, FieldBytes(k, v)) == v
  {
    LeRoundTrip(if v < 0 then v + Span(k.width) else v, k.width);
  }

  lemma FieldOfBytes(k: Field, b: seq<u8>)
    requires |b| == k.width <= 4 && (k.signed ==> k.width > 0)
    ensures FieldBytes(k, FieldValue(k, b)) == b
  {
    LeOfBytes(b);
  }

  // ---------------------------------------------------------------- typed operands

  /** The fields a format encodes after the opcode byte, in order. */
  function FieldsOf(f: OperandFormat): seq<Field> {
    match f
    case FNone => [] case FNoneInt => [] case FNoneLoc => []
    case FNoneArg => [] case FNoneVarRef => [] case FNPopX => []
    case FU8 => [B8] case FLoc8 => [B8] case FConst8 => [B8]
    case FI8 => [S8] case FLabel8 => [S8]
    case FU16 => [B16] case FLoc => [B16] case FArg => [B16]
    case FVarRef => [B16] case FNPop => [B16]
    case FI16 => [S16] case FLabel16 => [S16]
    case FNPopU16 => [B16, B16]
    case FU32 => [B32] case FConst => [B32] case FAtom => [B32]
    case FI32 => [S32] case FLabel => [S32]
    case FAtomU8 => [B32, B8] case FAtomU16 => [B32, B16]
    case FAtomLabelU8 => [B32, S32, B8] case FAtomLabelU16 => [B32, S32, B16]
    case FLabelU16 => [S32, B16]
  }

  /** No format has more than three fields. */
  predicate InFields(ks: seq<Field>, vs: seq<int>) {
    && |ks| == |vs| <= 3
    && (|ks| > 0 ==> InField(ks[0], vs[0]))
    && (|ks| > 1 ==> InField(ks[1], vs[1]))
    && (|ks| > 2 ==> InField(ks[2], vs[2]))
  }

  /** A typed operand value: the format names the variant, the values are its
      fields in encoding order. */
  datatype Operands = Operands(format: OperandFormat, values: seq<int>)

  /** Every field value lies in its variant's declared integer type. */
  predicate ValidOperands(o: Operands) { InFields(FieldsOf(o.format), o.values) }

  function EncodeFields(ks: seq<Field>, vs: seq<int>): seq<u8>
    requires InFields(ks, vs)
  {
    if ks == [] then [] else FieldBytes(ks[0], vs[0]) + EncodeFields(ks[1..], vs[1..])
  }

  function TotalWidth(ks: seq<Field>): nat {
    if ks == [] then 0 else ks[0].width + TotalWidth(ks[1..])
  }

  predicate ReadableFields(ks: seq<Field>) {
    |ks| <= 3 && forall k :: k in ks ==> 0 < k.width <= 4
  }

  function DecodeFields(ks: seq<Field>, b: seq<u8>): (vs: seq<int>)
    requires ReadableFields(ks) && |b| == TotalWidth(ks)
    ensures InFields(ks, vs)
  {
    if ks == [] then []
    else
      [FieldValue(ks[0], b[..ks[0].width])] + DecodeFields(ks[1..], b[ks[0].width..])
  }

  lemma {:induction false} FieldsRoundTrip(ks: seq<Field>, vs: seq<int>)
    requires ReadableFields(ks) && InFields(ks, vs)
    ensures |EncodeFields(ks, vs)| == TotalWidth(ks)
    ensures DecodeFields(ks, EncodeFields(ks, vs)) == vs
  {
    if ks != [] {
      FieldsRoundTrip(ks[1..], vs[1..]);
      FieldRoundTrip(ks[0], vs[0]);
      var b := EncodeFields(ks, vs);
      assert b[..ks[0].width] == FieldBytes(ks[0], vs[0]);
      assert b[ks[0].width..] == EncodeFields(ks[1..], vs[1..]);
    }
  }

  lemma {:induction false} FieldsOfBytes(ks: seq<Field>, b: seq<u8>)
    requires ReadableFields(ks) && |b| == TotalWidth(ks)
    ensures EncodeFields(ks, DecodeFields(ks, b)) == b
  {
    if ks != [] {
      FieldOfBytes(ks[0], b[..ks[0].width]);
      FieldsOfBytes(ks[1..], b[ks[0].width..]);
      SplitSuffix(b, 0, ks[0].width);
      var vs := DecodeFields(ks[1..], b[ks[0].width..]);
      assert DecodeFields(ks, b) == [FieldValue(ks[0], b[..ks[0].width])] + vs;
      assert DecodeFields(ks, b)[1..] == vs;
    }
  }

  lemma TotalWidthUpTo3(ks: seq<Field>)
    requires |ks| <= 3
    ensures |ks| == 1 ==> TotalWidth(ks) == ks[0].width
    ensures |ks| == 2 ==> TotalWidth(ks) == ks[0].width + ks[1].width
    ensures |ks| == 3 ==> TotalWidth(ks) == ks[0].width + ks[1].width + ks[2].width
  {
    if |ks| > 1 { TotalWidthUpTo3(ks[1..]); }
  }

  /** The fields of every format add up to its declared operand width. */
  lemma FieldsMatchWidth(f: OperandFormat)
    ensures ReadableFields(FieldsOf(f))
    ensures TotalWidth(FieldsOf(f)) == OperandWidth(f)
  {
    TotalWidthUpTo3(FieldsOf(f));
  }

  /** The operand bytes of an instruction. */
  function Payload(o: Operands): (b: seq<u8>)
    requires ValidOperands(o)
    ensures |b| == OperandWidth(o.format)
  {
    FieldsMatchWidth(o.format);
    FieldsRoundTrip(FieldsOf(o.format), o.values);
    EncodeFields(FieldsOf(o.format), o.values)
  }

  datatype OperandDecodeError = LengthMismatch(format: OperandFormat, expected: nat, actual: nat)

  /** Reads the operands of one instruction from a payload of exactly their width. */
  function DecodeOperands(f: OperandFormat, b: seq<u8>): (r: Result<Operands, OperandDecodeError>)
    ensures r.Ok? <==> |b| == OperandWidth(f)
    ensures r.Ok? ==> r.value.format == f && ValidOperands(r.value)
    ensures r.Err? ==> r.error == LengthMismatch(f, OperandWidth(f), |b|)
  {
    FieldsMatchWidth(f);
    if |b| != OperandWidth(f) then Err(LengthMismatch(f, OperandWidth(f), |b|))
    else Ok(Operands(f, DecodeFields(FieldsOf(f), b)))
  }

  /** Every operand value survives encoding and decoding. */
  lemma OperandRoundTrip(o: Operands)
    requires ValidOperands(o)
    ensures DecodeOperands(o.format, Payload(o)) == Ok(o)
  {
    FieldsMatchWidth(o.format);
    FieldsRoundTrip(FieldsOf(o.format), o.values);
  }

  /** Every payload of the right width is the payload of the value it decodes to. */
  lemma PayloadRoundTrip(f: OperandFormat, b: seq<u8>)
    requires |b| == OperandWidth(f)
    ensures Payload(DecodeOperands(f, b).value) == b
  {
    FieldsMatchWidth(f);
    FieldsOfBytes(FieldsOf(f), b);
  }

  // ---------------------------------------------------------------- instructions

  /** An opcode byte with its operands. */
  datatype Instruction = Instruction(opcode: nat, operands: Operands)

  datatype InstructionError =
    | ReservedOpcode
    | OperandFormatMismatch(opcode: nat, expected: OperandFormat, actual: OperandFormat)

  predicate ValidInstruction(t: OpcodeTable, i: Instruction) {
    && OP_INVALID < i.opcode < |t| && t[i.opcode] == i.operands.format
    && ValidOperands(i.operands)
  }

  function NewInstruction(t: OpcodeTable, opcode: nat, operands: Operands)
    : (r: Result<Instruction, InstructionError>)
    requires opcode < |t| && ValidOperands(operands)
    ensures r.Ok? <==> ValidInstruction(t, Instruction(opcode, operands))
    ensures r.Ok? ==> r.value == Instruction(opcode, operands)
  {
    if opcode == OP_INVALID then Err(ReservedOpcode)
    else if t[opcode] != operands.format
    then Err(OperandFormatMismatch(opcode, t[opcode], operands.format))
    else Ok(Instruction(opcode, operands))
  }

  function EncodedSize(i: Instruction): nat { InstructionSize(i.operands.format) }

  /** An instruction that has an encoding at all. */
  predicate Encodable(i: Instruction) { i.opcode < 256 && ValidOperands(i.operands) }

  function EncodeInstruction(i: Instruction): (b: seq<u8>)
    requires Encodable(i)
    ensures |b| == EncodedSize(i)
  {
    [i.opcode] + Payload(i.operands)
  }

  datatype Decoded = Decoded(pc: u32, instruction: Instruction, nextPc: u32)

  datatype DecodeError =
    | PcOutOfBounds(pc: u32, length: nat)
    | MissingOpcode(pc: u32)
    | ReservedInvalid(pc: u32)
    | UnknownOpcode(pc: u32, opcodeByte: u8)
    | TruncatedOperands(pc: u32, opcode: nat, expected: nat, remaining: nat)
    | NextPcOverflow(pc: u32, size: nat)

  /** Reads the instruction that starts at `pc`. */
  function DecodeInstruction(t: OpcodeTable, bytes: seq<u8>, pc: u32)
    : (r: Result<Decoded, DecodeError>)
    requires ByteTable(t)
    ensures r.Ok? ==> r.value.pc == pc < r.value.nextPc <= |bytes|
    ensures r.Ok? ==> ValidInstruction(t, r.value.instruction)
    ensures r.Ok? ==> r.value.nextPc == pc + EncodedSize(r.value.instruction)
  {
    if pc > |bytes| then Err(PcOutOfBounds(pc, |bytes|))
    else if pc == |bytes| then Err(MissingOpcode(pc))
    else
      var opcode: int := bytes[pc];
      if opcode == OP_INVALID then Err(ReservedInvalid(pc))
      else if opcode >= |t| then Err(UnknownOpcode(pc, opcode))
      else
        var width := OperandWidth(t[opcode]);
        if |bytes| - (pc + 1) < width
        then Err(TruncatedOperands(pc, opcode, width, |bytes| - (pc + 1)))
        else
          var operands := DecodeOperands(t[opcode], bytes[pc + 1..pc + 1 + width]).value;
          if pc + 1 + width > U32_MAX then Err(NextPcOverflow(pc, 1 + width))
          else Ok(Decoded(pc, Instruction(opcode, operands), pc + 1 + width))
  }

  lemma HeadTail(b: seq<u8>, i: nat, j: nat)
    requires i < j <= |b|
    ensures b[i..j] == [b[i]] + b[i + 1..j]
  {}

  lemma ConsInjective(x: u8, xs: seq<u8>, y: u8, ys: seq<u8>)
    requires [x] + xs == [y] + ys
    ensures x == y && xs == ys
  {
    assert ([x] + xs)[0] == x && ([x] + xs)[1..] == xs;
    assert ([y] + ys)[0] == y && ([y] + ys)[1..] == ys;
  }

  lemma ConcatAssociative(a: seq<u8>, b: seq<u8>, c: seq<u8>)
    ensures a + (b + c) == a + b + c
  {}

  lemma SplitSuffix(b: seq<u8>, i: nat, j: nat)
    requires i <= j <= |b|
    ensures b[i..] == b[i..j] + b[j..]
  {}

  /** The instruction encoded at `pc` is the one decoded there. */
  lemma DecodeOfEncoded(t: OpcodeTable, bytes: seq<u8>, pc: u32, i: Instruction)
    requires ByteTable(t) && ValidInstruction(t, i)
    requires pc + EncodedSize(i) <= |bytes| && pc + EncodedSize(i) <= U32_MAX
    requires bytes[pc..pc + EncodedSize(i)] == EncodeInstruction(i)
    ensures DecodeInstruction(t, bytes, pc) == Ok(Decoded(pc, i, pc + EncodedSize(i)))
  {
    HeadTail(bytes, pc, pc + EncodedSize(i));
    ConsInjective(bytes[pc], bytes[pc + 1..pc + EncodedSize(i)], i.opcode, Payload(i.operands));
    OperandRoundTrip(i.operands);
  }

  /** The instruction decoded at `pc` is the one encoded there. */
  lemma EncodedOfDecode(t: OpcodeTable, bytes: seq<u8>, pc: u32)
    requires ByteTable(t) && DecodeInstruction(t, bytes, pc).Ok?
    ensures var d := DecodeInstruction(t, bytes, pc).value;
            EncodeInstruction(d.instruction) == bytes[pc..d.nextPc]
  {
    var d := DecodeInstruction(t, bytes, pc).value;
    var payload := bytes[pc + 1..d.nextPc];
    assert Ok(d.instruction.operands) == DecodeOperands(t[bytes[pc]], payload);
    calc {
      EncodeInstruction(d.instruction);
      [bytes[pc]] + Payload(DecodeOperands(t[bytes[pc]], payload).value);
      { PayloadRoundTrip(t[bytes[pc]], payload); }
      [bytes[pc]] + payload;
      { HeadTail(bytes, pc, d.nextPc); }
      bytes[pc..d.nextPc];
    }
  }

  // ---------------------------------------------------------------- streams

  predicate ValidStream(t: OpcodeTable, s: seq<Instruction>) {
    forall i :: 0 <= i < |s| ==> ValidInstruction(t, s[i])
  }

  predicate EncodableStream(s: seq<Instruction>) {
    forall i :: 0 <= i < |s| ==> Encodable(s[i])
  }

  function StreamSize(s: seq<Instruction>): nat {
    if s == [] then 0 else EncodedSize(s[0]) + StreamSize(s[1..])
  }

  function EncodeStream(s: seq<Instruction>): (b: seq<u8>)
    requires EncodableStream(s)
    ensures |b| == StreamSize(s)
  {
    if s == [] then [] else EncodeInstruction(s[0]) + EncodeStream(s[1..])
  }

  /** What a decoder started at `pc` must report for the stream `s`. */
  function Located(s: seq<Instruction>, pc: nat): (d: seq<Result<Decoded, DecodeError>>)
    requires pc + StreamSize(s) <= U32_MAX
    ensures |d| == |s|
  {
    if s == [] then []
    else
      var next := pc + EncodedSize(s[0]);
      [Ok(Decoded(pc, s[0], next))] + Located(s[1..], next)
  }

  /** Everything a decoder started at `pc` yields: decoded instructions up to the end
      of the stream, or up to and including the first failure. */
  function DecodeFrom(t: OpcodeTable, bytes: seq<u8>, pc: u32): seq<Result<Decoded, DecodeError>>
    requires ByteTable(t)
    decreases |bytes| - pc
  {
    if pc == |bytes| then []
    else
      var r := DecodeInstruction(t, bytes, pc);
      if r.Ok? then [r] + DecodeFrom(t, bytes, r.value.nextPc) else [r]
  }

  predicate AllOk(rs: seq<Result<Decoded, DecodeError>>) {
    rs == [] || (rs[0].Ok? && AllOk(rs[1..]))
  }

  lemma SplitConcat(b: seq<u8>, pc: nat, x: seq<u8>, y: seq<u8>)
    requires pc <= |b| && b[pc..] == x + y
    ensures pc + |x| <= |b| && b[pc..pc + |x|] == x && b[pc + |x|..] == y
  {
    var c := b[pc..];
    assert c[..|x|] == x && c[|x|..] == y;
    assert b[pc..pc + |x|] == c[..|x|] && b[pc + |x|..] == c[|x|..];
  }

  /** Decoding an encoded stream, wherever it ends the buffer, returns the same
      instructions at the positions their sizes dictate. */
  lemma {:induction false} StreamRoundTrip(t: OpcodeTable, bytes: seq<u8>, pc: u32, s: seq<Instruction>)
    requires ByteTable(t) && ValidStream(t, s) && |bytes| <= U32_MAX
    requires pc <= |bytes| && bytes[pc..] == EncodeStream(s)
    ensures pc + StreamSize(s) <= U32_MAX && DecodeFrom(t, bytes, pc) == Located(s, pc)
    decreases |s|
  {
    if s != [] {
      SplitConcat(bytes, pc, EncodeInstruction(s[0]), EncodeStream(s[1..]));
      DecodeOfEncoded(t, bytes, pc, s[0]);
      StreamRoundTrip(t, bytes, pc + EncodedSize(s[0]), s[1..]);
    }
  }

  function Instructions(rs: seq<Result<Decoded, DecodeError>>): seq<Instruction>
    requires AllOk(rs)
  {
    if rs == [] then [] else [rs[0].value.instruction] + Instructions(rs[1..])
  }

  lemma EncodeStreamCons(i: Instruction, s: seq<Instruction>)
    requires Encodable(i) && EncodableStream(s)
    ensures EncodableStream([i] + s)
    ensures EncodeStream([i] + s) == EncodeInstruction(i) + EncodeStream(s)
  {
    assert ([i] + s)[1..] == s;
  }

  /** Re-encoding a fully decodable byte string returns the same bytes, and every
      decoded instruction is valid. */
  lemma {:induction false} BytesRoundTrip(t: OpcodeTable, bytes: seq<u8>, pc: u32)
    requires ByteTable(t) && AllOk(DecodeFrom(t, bytes, pc))
    ensures pc <= |bytes| <= U32_MAX
    ensures ValidStream(t, Instructions(DecodeFrom(t, bytes, pc)))
    ensures EncodeStream(Instructions(DecodeFrom(t, bytes, pc))) == bytes[pc..]
    decreases |bytes| - pc
  {
    if pc != |bytes| {
      var d := DecodeInstruction(t, bytes, pc).value;
      assert DecodeFrom(t, bytes, pc)[1..] == DecodeFrom(t, bytes, d.nextPc);
      BytesRoundTrip(t, bytes, d.nextPc);
      EncodedOfDecode(t, bytes, pc);
      EncodeStreamCons(d.instruction, Instructions(DecodeFrom(t, bytes, d.nextPc)));
      SplitSuffix(bytes, pc, d.nextPc);
    }
  }
}
