/** The stateful half of the codec: the fixed-capacity operand buffer, the bounded
    builder and the fused decoder. */
module Builder {
  import opened Schema
  import opened Codec

  datatype OperandEncodeError =
    | BufferCapacityExceeded
    | SchemaWidthMismatch

  /** The operand bytes of one instruction, in a buffer that never grows. */
  class EncodedOperands {
    const bytes: array<u8>
    var len: nat

    ghost predicate Valid()
      reads this
    {
      bytes.Length == MAX_ENCODED_OPERAND_BYTES && len <= bytes.Length
    }

    function AsBytes(): seq<u8>
      reads this, bytes
      requires Valid()
    {
      bytes[..len]
    }

    constructor ()
      ensures Valid() && fresh(bytes) && AsBytes() == []
    {
      bytes := new u8[MAX_ENCODED_OPERAND_BYTES](_ => 0);
      len := 0;
    }

    /** Appends the bytes of one field; fails exactly when they do not all fit. */
    method PushBytes(field: seq<u8>) returns (ok: bool)
      requires Valid()
      modifies this, bytes
      ensures Valid()
      ensures ok <==> old(len) + |field| <= MAX_ENCODED_OPERAND_BYTES
      ensures ok ==> AsBytes() == old(AsBytes()) + field
    {
      ghost var before := AsBytes();
      for i := 0 to |field|
        invariant Valid() && len == old(len) + i
        invariant AsBytes() == before + field[..i]
      {
        if len >= bytes.Length { return false; }
        bytes[len] := field[i];
        len := len + 1;
      }
      assert field[..|field|] == field;
      return true;
    }
  }

  lemma {:induction false} EncodeFieldsSplit(ks: seq<Field>, vs: seq<int>, i: nat)
    requires InFields(ks, vs) && i < |ks|
    ensures InFields(ks[..i], vs[..i]) && InFields(ks[..i + 1], vs[..i + 1])
    ensures InField(ks[i], vs[i])
    ensures EncodeFields(ks[..i + 1], vs[..i + 1])
         == EncodeFields(ks[..i], vs[..i]) + FieldBytes(ks[i], vs[i])
  {
    if i > 0 {
      EncodeFieldsSplit(ks[1..], vs[1..], i - 1);
      assert ks[1..][..i] == ks[..i + 1][1..] && vs[1..][..i] == vs[..i + 1][1..];
      assert ks[1..][..i - 1] == ks[..i][1..] && vs[1..][..i - 1] == vs[..i][1..];
    }
  }

  lemma {:induction false} EncodeFieldsPrefixSize(ks: seq<Field>, vs: seq<int>, i: nat)
    requires InFields(ks, vs) && i <= |ks|
    ensures InFields(ks[..i], vs[..i])
    ensures |EncodeFields(ks[..i], vs[..i])| <= |EncodeFields(ks, vs)|
    decreases |ks| - i
  {
    if i < |ks| {
      EncodeFieldsSplit(ks, vs, i);
      EncodeFieldsPrefixSize(ks, vs, i + 1);
    } else {
      assert ks[..i] == ks && vs[..i] == vs;
    }
  }

  /** Encoding typed operands into the fixed buffer never hits its capacity and never
      disagrees with the declared width, for every format. */
  method EncodeOperands(o: Operands) returns (r: Result<EncodedOperands, OperandEncodeError>)
    requires ValidOperands(o)
    ensures r.Ok? && fresh(r.value) && r.value.Valid() && r.value.AsBytes() == Payload(o)
  {
    var output := new EncodedOperands();
    var ks, vs := FieldsOf(o.format), o.values;
    assert Payload(o) == EncodeFields(ks, vs);
    for i := 0 to |ks|
      invariant fresh(output) && fresh(output.bytes) && output.Valid()
      invariant InFields(ks[..i], vs[..i])
      invariant output.AsBytes() == EncodeFields(ks[..i], vs[..i])
    {
      EncodeFieldsSplit(ks, vs, i);
      EncodeFieldsPrefixSize(ks, vs, i + 1);
      assert output.len + ks[i].width <= MAX_ENCODED_OPERAND_BYTES;
      var ok := output.PushBytes(FieldBytes(ks[i], vs[i]));
      if !ok {
        return Err(BufferCapacityExceeded);
      }
    }
    assert ks[..|ks|] == ks && vs[..|vs|] == vs;
    assert output.AsBytes() == Payload(o);
    if output.len != OperandWidth(o.format) {
      return Err(SchemaWidthMismatch);
    }
    return Ok(output);
  }

  datatype EncodeError =
    | PcOverflow(pc: u32, size: nat)
    | EncodedLengthOverflow
    | ByteLimitExceeded(pc: u32, size: nat, encoded: u32, limit: u32)

  lemma {:induction false} EncodeStreamSnoc(s: seq<Instruction>, i: Instruction)
    requires EncodableStream(s) && Encodable(i)
    ensures EncodableStream(s + [i])
    ensures EncodeStream(s + [i]) == EncodeStream(s) + EncodeInstruction(i)
  {
    if s == [] {
      assert EncodeStream([i]) == EncodeInstruction(i) + EncodeStream([]);
    } else {
      EncodeStreamSnoc(s[1..], i);
      assert (s + [i])[1..] == s[1..] + [i];
      calc {
        EncodeStream(s + [i]);
        EncodeInstruction(s[0]) + EncodeStream(s[1..] + [i]);
        EncodeInstruction(s[0]) + (EncodeStream(s[1..]) + EncodeInstruction(i));
        { ConcatAssociative(EncodeInstruction(s[0]), EncodeStream(s[1..]), EncodeInstruction(i)); }
        EncodeStream(s) + EncodeInstruction(i);
      }
    }
  }

  /** What one successful push does to the encoded stream. */
  lemma PushedStream(t: OpcodeTable, s: seq<Instruction>, i: Instruction)
    requires ByteTable(t) && ValidStream(t, s) && ValidInstruction(t, i)
    ensures ValidStream(t, s + [i])
    ensures EncodeStream(s + [i]) == EncodeStream(s) + [i.opcode] + Payload(i.operands)
  {
    EncodeStreamSnoc(s, i);
    ConcatAssociative(EncodeStream(s), [i.opcode], Payload(i.operands));
  }

  /** Appends final instructions to a stream, up to a byte limit. */
  class BytecodeBuilder {
    const table: OpcodeTable
    const origin: u32
    const byteLimit: u32
    var bytes: seq<u8>
    var nextPc: u32
    var encodedLen: u32
    ghost var instructions: seq<Instruction>

    ghost predicate Valid()
      reads this
    {
      && ByteTable(table) && ValidStream(table, instructions)
      && bytes == EncodeStream(instructions)
      && encodedLen == |bytes| <= byteLimit
      && nextPc == origin + |bytes|
    }

    constructor (table: OpcodeTable, origin: u32, byteLimit: u32)
      requires ByteTable(table)
      ensures Valid() && instructions == []
      ensures this.table == table && this.origin == origin && this.byteLimit == byteLimit
    {
      this.table, this.origin, this.byteLimit := table, origin, byteLimit;
      bytes, nextPc, encodedLen, instructions := [], origin, 0, [];
    }

    /** Appends one validated instruction. It succeeds exactly when the position and
        the configured byte limit allow it; a failed push changes nothing. */
    method PushInstruction(i: Instruction) returns (r: Result<u32, EncodeError>)
      requires Valid() && ValidInstruction(table, i)
      modifies this
      ensures Valid()
      ensures r.Ok? <==> old(nextPc) + EncodedSize(i) <= U32_MAX
                         && old(encodedLen) + EncodedSize(i) <= byteLimit
      ensures r.Ok? ==> r.value == old(nextPc) && instructions == old(instructions) + [i]
      ensures r.Ok? ==> nextPc == old(nextPc) + EncodedSize(i) && encodedLen == old(encodedLen) + EncodedSize(i)
      ensures r.Err? ==> unchanged(this)
      ensures r.Err? && old(nextPc) + EncodedSize(i) <= U32_MAX ==> r.error.ByteLimitExceeded?
    {
      var pc := nextPc;
      var encoded := EncodeOperands(i.operands);
      var size := encoded.value.len + 1;
      if pc + size > U32_MAX {
        return Err(PcOverflow(pc, size));
      }
      if encodedLen + size > U32_MAX {
        return Err(EncodedLengthOverflow);
      }
      if encodedLen + size > byteLimit {
        return Err(ByteLimitExceeded(pc, size, encodedLen, byteLimit));
      }
      PushedStream(table, instructions, i);
      bytes := bytes + [i.opcode] + encoded.value.AsBytes();
      nextPc := pc + size;
      encodedLen := encodedLen + size;
      instructions := instructions + [i];
      return Ok(pc);
    }
  }

  /** Decoding the bytes of a zero-origin builder returns what was pushed. */
  lemma BuilderRoundTrip(b: BytecodeBuilder)
    requires b.Valid() && b.origin == 0
    ensures DecodeFrom(b.table, b.bytes, 0) == Located(b.instructions, 0)
  {
    assert b.bytes[0..] == b.bytes;
    StreamRoundTrip(b.table, b.bytes, 0, b.instructions);
  }

  /** Reads a stream instruction by instruction until its end or its first error. */
  class InstructionDecoder {
    const table: OpcodeTable
    const bytecode: seq<u8>
    var nextPc: u32
    var finished: bool

    /** What this iterator will still yield. */
    function Remaining(): seq<Result<Decoded, DecodeError>>
      reads this
      requires ByteTable(table)
    {
      if finished then [] else DecodeFrom(table, bytecode, nextPc)
    }

    constructor (table: OpcodeTable, bytecode: seq<u8>, pc: u32)
      requires ByteTable(table)
      ensures this.table == table && Remaining() == DecodeFrom(table, bytecode, pc)
    {
      this.table, this.bytecode := table, bytecode;
      nextPc, finished := pc, false;
    }

    /** Yields the head of the remaining items; once it yields nothing it is exhausted
        for good. */
    method Next() returns (r: Option<Result<Decoded, DecodeError>>)
      requires ByteTable(table)
      modifies this
      ensures r.None? <==> old(Remaining()) == []
      ensures r.None? ==> Remaining() == []
      ensures r.Some? ==> old(Remaining()) == [r.value] + Remaining()
    {
      if finished {
        return None;
      }
      if nextPc == |bytecode| {
        finished := true;
        return None;
      }
      var d := DecodeInstruction(table, bytecode, nextPc);
      if d.Ok? {
        nextPc := d.value.nextPc;
      } else {
        finished := true;
      }
      return Some(d);
    }
  }
}
