/** The byte format written out: where every operand field stands and what its bytes say,
    independently of how the codec computes it. */
module ByteFormat {
  import opened Arithmetic
  import opened Codec
  import opened Schema

  // ------------------------------------------------------- byte order

  function Power256(j: nat): (p: nat)
    ensures p > 0
  {
    if j == 0 then 1 else 256 * Power256(j - 1)
  }

  /** Byte `j` of a written value is its digit `j` in base 256: least significant first. */
  lemma {:induction false} WrittenByte(v: nat, n: nat, j: nat)
    requires j < n
    ensures ToLe(v, n)[j] == (v / Power256(j)) % 256
  {
    if j > 0 {
      WrittenByte(v / 256, n - 1, j - 1);
      assert ToLe(v, n)[j] == ToLe(v / 256, n - 1)[j - 1];
      DivideTwice(v, 256, Power256(j - 1));
    }
  }

  /** The sum of bytes, each times its own power of 256. */
  function WeightedSum(b: seq<u8>, n: nat): nat
    requires n <= |b|
  {
    if n == 0 then 0 else WeightedSum(b, n - 1) + b[n - 1] * Power256(n - 1)
  }

  lemma {:induction false} WeightedTail(b: seq<u8>, n: nat)
    requires 0 < n <= |b|
    ensures WeightedSum(b, n) == b[0] + 256 * WeightedSum(b[1..], n - 1)
  {
    if n > 1 {
      WeightedTail(b, n - 1);
      assert b[1..][n - 2] == b[n - 1];
      Factor(b[n - 1], Power256(n - 2));
    } else {
      assert Power256(0) == 1;
    }
  }

  lemma Factor(x: nat, p: nat)
    ensures x * (256 * p) == 256 * (x * p)
  {}

  /** A read value is that sum. */
  lemma {:induction false} ReadValue(b: seq<u8>)
    ensures FromLe(b) == WeightedSum(b, |b|)
  {
    if b != [] {
      ReadValue(b[1..]);
      WeightedTail(b, |b|);
    }
  }

  lemma {:induction false} PowerAdd(i: nat, j: nat)
    ensures Power256(i + j) == Power256(i) * Power256(j)
  {
    if i > 0 { PowerAdd(i - 1, j); }
  }

  lemma SpanIsPower(w: nat)
    requires w <= 4
    ensures Span(w) == Power256(w)
  {
    assert Power256(0) == 1 && Power256(1) == 0x100 && Power256(2) == 0x1_0000;
    assert Power256(3) == 0x100_0000 && Power256(4) == 0x1_0000_0000;
  }

  /** Adding a higher power does not change a digit. */
  lemma DigitUnchanged(v: int, w: nat, j: nat)
    requires j < w
    ensures ((v + Power256(w)) / Power256(j)) % 256 == (v / Power256(j)) % 256
  {
    PowerAdd(j, w - j);
    AddMultiple(v, Power256(j), 256 * Power256(w - j - 1));
    AddMultiple(v / Power256(j), 256, Power256(w - j - 1));
    DivideUniquely(v / Power256(j) + 256 * Power256(w - j - 1), 256, v / Power256(j) / 256 + Power256(w - j - 1),
                   (v / Power256(j)) % 256);
  }

  /** Byte `j` of a field is digit `j` of its value, negative values in two's complement. */
  lemma FieldByte(k: Field, v: int, j: nat)
    requires InField(k, v) && j < k.width
    ensures FieldBytes(k, v)[j] == (v / Power256(j)) % 256
  {
    if v < 0 {
      SpanIsPower(k.width);
      WrittenByte(v + Span(k.width), k.width, j);
      DigitUnchanged(v, k.width, j);
    } else {
      WrittenByte(v, k.width, j);
    }
  }

  // ------------------------------------------------------- fields at fixed offsets

  function U16At(b: seq<u8>, i: nat): int
    requires i + 2 <= |b|
  {
    b[i] as int + 0x100 * b[i + 1] as int
  }

  function U32At(b: seq<u8>, i: nat): int
    requires i + 4 <= |b|
  {
    U16At(b, i) + 0x1_0000 * U16At(b, i + 2)
  }

  function I8At(b: seq<u8>, i: nat): int
    requires i < |b|
  {
    if b[i] < 0x80 then b[i] as int else b[i] as int - 0x100
  }

  function I16At(b: seq<u8>, i: nat): int
    requires i + 2 <= |b|
  {
    if b[i + 1] < 0x80 then U16At(b, i) else U16At(b, i) - 0x1_0000
  }

  function I32At(b: seq<u8>, i: nat): int
    requires i + 4 <= |b|
  {
    if b[i + 3] < 0x80 then U32At(b, i) else U32At(b, i) - 0x1_0000_0000
  }

  /** The operand values of every format, each read at its own offset. */
  function OperandsAt(f: OperandFormat, b: seq<u8>): seq<int>
    requires |b| == OperandWidth(f)
  {
    match f
    case FNone => [] case FNoneInt => [] case FNoneLoc => [] case FNoneArg => [] case FNoneVarRef => []
    case FNPopX => []
    case FU8 => [b[0]] case FLoc8 => [b[0]] case FConst8 => [b[0]]
    case FI8 => [I8At(b, 0)] case FLabel8 => [I8At(b, 0)]
    case FU16 => [U16At(b, 0)] case FLoc => [U16At(b, 0)] case FArg => [U16At(b, 0)]
    case FVarRef => [U16At(b, 0)] case FNPop => [U16At(b, 0)]
    case FI16 => [I16At(b, 0)] case FLabel16 => [I16At(b, 0)]
    case FNPopU16 => [U16At(b, 0), U16At(b, 2)]
    case FU32 => [U32At(b, 0)] case FConst => [U32At(b, 0)] case FAtom => [U32At(b, 0)]
    case FI32 => [I32At(b, 0)] case FLabel => [I32At(b, 0)]
    case FAtomU8 => [U32At(b, 0), b[4]]
    case FAtomU16 => [U32At(b, 0), U16At(b, 4)]
    case FAtomLabelU8 => [U32At(b, 0), I32At(b, 4), b[8]]
    case FAtomLabelU16 => [U32At(b, 0), I32At(b, 4), U16At(b, 8)]
    case FLabelU16 => [I32At(b, 0), U16At(b, 4)]
  }

  /** A field read at an offset. */
  function ReadAt(k: Field, b: seq<u8>, i: nat): int
    requires k.width in {1, 2, 4} && i + k.width <= |b|
  {
    if k.width == 1 then (if k.signed then I8At(b, i) else b[i])
    else if k.width == 2 then (if k.signed then I16At(b, i) else U16At(b, i))
    else (if k.signed then I32At(b, i) else U32At(b, i))
  }

  lemma FieldAt(k: Field, b: seq<u8>)
    requires |b| == k.width && k.width in {1, 2, 4}
    ensures FieldValue(k, b) == ReadAt(k, b, 0)
  {
    ReadValue(b);
    SmallSums(b);
  }

  lemma SmallSums(b: seq<u8>)
    ensures |b| == 1 ==> WeightedSum(b, 1) == b[0]
    ensures |b| == 2 ==> WeightedSum(b, 2) == U16At(b, 0)
    ensures |b| == 4 ==> WeightedSum(b, 4) == U32At(b, 0)
  {
    assert Power256(0) == 1 && Power256(1) == 0x100 && Power256(2) == 0x1_0000 && Power256(3) == 0x100_0000;
    if |b| >= 1 { assert WeightedSum(b, 0) == 0 && WeightedSum(b, 1) == b[0] * Power256(0); }
    if |b| >= 2 { assert WeightedSum(b, 2) == WeightedSum(b, 1) + b[1] * Power256(1); }
    if |b| == 4 {
      assert WeightedSum(b, 3) == WeightedSum(b, 2) + b[2] * Power256(2);
      assert WeightedSum(b, 4) == WeightedSum(b, 3) + b[3] * Power256(3);
    }
  }

  lemma ReadOne(k: Field, b: seq<u8>)
    requires k.width in {1, 2, 4} && |b| == TotalWidth([k])
    ensures DecodeFields([k], b) == [ReadAt(k, b, 0)]
  {
    assert [k][1..] == [] && b[..k.width] == b;
    FieldAt(k, b);
  }

  lemma ReadFirst(k: Field, rest: seq<Field>, b: seq<u8>)
    requires ReadableFields([k] + rest) && |b| == TotalWidth([k] + rest)
    ensures 0 < k.width <= |b| && k.width <= 4 && ReadableFields(rest) && |b| - k.width == TotalWidth(rest)
    ensures DecodeFields([k] + rest, b) == [FieldValue(k, b[..k.width])] + DecodeFields(rest, b[k.width..])
  {
    var ks := [k] + rest;
    assert ks[0] == k && ks[1..] == rest;
    forall x | x in rest ensures 0 < x.width <= 4 { assert x in ks; }
  }

  lemma ReadTwo(k: Field, l: Field, b: seq<u8>)
    requires k.width in {1, 2, 4} && l.width in {1, 2, 4} && |b| == TotalWidth([k] + [l])
    ensures |b| == k.width + l.width
    ensures DecodeFields([k] + [l], b) == [ReadAt(k, b, 0), ReadAt(l, b, k.width)]
  {
    ReadFirst(k, [l], b);
    FieldFront(k, b);
    ReadLast(l, b, k.width);
  }

  /** The formats of an atom, a label and one field more. */
  lemma ReadThree(m: Field, b: seq<u8>)
    requires (m == B8 || m == B16) && |b| == TotalWidth([B32] + ([S32] + [m]))
    ensures |b| == 8 + m.width
    ensures DecodeFields([B32] + ([S32] + [m]), b) == [U32At(b, 0), I32At(b, 4), ReadAt(m, b, 8)]
  {
    ReadFirst(B32, [S32] + [m], b);
    FieldFront(B32, b);
    ReadTwo(S32, m, b[4..]);
    Shifted(m, b, 4, 4);
  }

  lemma FieldFront(k: Field, b: seq<u8>)
    requires k.width in {1, 2, 4} && k.width <= |b|
    ensures FieldValue(k, b[..k.width]) == ReadAt(k, b, 0)
  {
    FieldAt(k, b[..k.width]);
  }

  lemma ReadLast(l: Field, b: seq<u8>, i: nat)
    requires l.width in {1, 2, 4} && i <= |b| && |b| - i == TotalWidth([l])
    ensures |b| - i == l.width && DecodeFields([l], b[i..]) == [ReadAt(l, b, i)]
  {
    ReadOne(l, b[i..]);
    Shifted(l, b, i, 0);
  }

  lemma Shifted(k: Field, b: seq<u8>, i: nat, j: nat)
    requires k.width in {1, 2, 4} && i + j + k.width <= |b|
    ensures ReadAt(k, b[i..], j) == ReadAt(k, b, i + j)
  {}

  lemma OneValue(f: OperandFormat, b: seq<u8>)
    requires |b| == OperandWidth(f) && |FieldsOf(f)| == 1
    ensures DecodeOperands(f, b).value.values == OperandsAt(f, b)
  {
    FieldsMatchWidth(f);
    assert FieldsOf(f) == [FieldsOf(f)[0]];
    ReadOne(FieldsOf(f)[0], b);
  }

  lemma TwoValues(f: OperandFormat, b: seq<u8>)
    requires |b| == OperandWidth(f) && |FieldsOf(f)| == 2
    ensures DecodeOperands(f, b).value.values == OperandsAt(f, b)
  {
    FieldsMatchWidth(f);
    assert FieldsOf(f) == [FieldsOf(f)[0]] + [FieldsOf(f)[1]];
    ReadTwo(FieldsOf(f)[0], FieldsOf(f)[1], b);
  }

  lemma ThreeValues(f: OperandFormat, b: seq<u8>)
    requires |b| == OperandWidth(f) && |FieldsOf(f)| == 3
    ensures DecodeOperands(f, b).value.values == OperandsAt(f, b)
  {
    FieldsMatchWidth(f);
    assert FieldsOf(f) == [B32] + ([S32] + [FieldsOf(f)[2]]);
    ReadThree(FieldsOf(f)[2], b);
  }

  /** The fields of a format are read at those offsets, as signed or unsigned as stated. */
  lemma DecodedValues(f: OperandFormat, b: seq<u8>)
    requires |b| == OperandWidth(f)
    ensures DecodeOperands(f, b).value.values == OperandsAt(f, b)
  {
    if |FieldsOf(f)| == 1 {
      OneValue(f, b);
    } else if |FieldsOf(f)| == 2 {
      TwoValues(f, b);
    } else if |FieldsOf(f)| == 3 {
      ThreeValues(f, b);
    }
  }

  /** And an encoded payload carries its values there. */
  lemma EncodedValues(o: Operands)
    requires ValidOperands(o)
    ensures OperandsAt(o.format, Payload(o)) == o.values
  {
    OperandRoundTrip(o);
    DecodedValues(o.format, Payload(o));
  }

  /** An instruction is read from its opcode byte and from the operands at their offsets, and
      every refusal has the one reason that it names. */
  lemma DecodedInstruction(t: OpcodeTable, bytes: seq<u8>, pc: u32)
    requires ByteTable(t)
    ensures var r := DecodeInstruction(t, bytes, pc);
            if pc >= |bytes| then r == Err(if pc == |bytes| then MissingOpcode(pc) else PcOutOfBounds(pc, |bytes|))
            else if bytes[pc] == 0 then r == Err(ReservedInvalid(pc))
            else if bytes[pc] >= |t| then r == Err(UnknownOpcode(pc, bytes[pc]))
            else
              var width := OperandWidth(t[bytes[pc]]);
              if pc + 1 + width > |bytes|
              then r == Err(TruncatedOperands(pc, bytes[pc], width, |bytes| - pc - 1))
              else if pc + 1 + width > U32_MAX then r == Err(NextPcOverflow(pc, 1 + width))
              else
                && r.Ok? && r.value.pc == pc && r.value.nextPc == pc + 1 + width
                && r.value.instruction.opcode == bytes[pc]
                && r.value.instruction.operands.format == t[bytes[pc]]
                && r.value.instruction.operands.values == OperandsAt(t[bytes[pc]], bytes[pc + 1..pc + 1 + width])
  {
    if pc < |bytes| && bytes[pc] < |t| {
      var f := t[bytes[pc]];
      if pc + 1 + OperandWidth(f) <= |bytes| { DecodedValues(f, bytes[pc + 1..pc + 1 + OperandWidth(f)]); }
    }
  }
}
