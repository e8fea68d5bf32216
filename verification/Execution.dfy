/** Running final bytes: the emitted stream executes exactly the plan it came from. */
module Execution {
  import opened Schema
  import opened Codec
  import opened Plan
  import opened Layout
  import opened Threading
  import opened Emission
  import opened Assembler

  predicate IsGotoOpcode(o: nat) { o == OP_GOTO || o == OP_GOTO8 || o == OP_GOTO16 }

  predicate IsTestOpcode(o: nat) {
    o == OP_IF_FALSE || o == OP_IF_FALSE8 || o == OP_IF_TRUE || o == OP_IF_TRUE8
  }

  predicate IsBranchOpcode(o: nat) {
    IsGotoOpcode(o) || IsTestOpcode(o) || o == OP_CATCH || o == OP_GOSUB || IsWithOpcode(o)
  }

  /** Byte address a final branch at `pc` refers to; malformed negative addresses and
      instructions without a target stop the run. */
  function Destination(t: OpcodeTable, x: Instruction, pc: nat, end: nat): nat
    requires PinnedSchema(t) && ValidInstruction(t, x)
  {
    if !IsBranchOpcode(x.opcode) then end
    else
      var a := if IsWithOpcode(x.opcode) then pc + 5 + x.operands.values[1]
               else pc + 1 + x.operands.values[0];
      if a < 0 then end else a
  }

  function ByteOp(t: OpcodeTable, x: Instruction, pc: nat, end: nat): Op
    requires PinnedSchema(t) && ValidInstruction(t, x)
  {
    if x.opcode == OP_IF_FALSE || x.opcode == OP_IF_FALSE8 then Test(false)
    else if x.opcode == OP_IF_TRUE || x.opcode == OP_IF_TRUE8 then Test(true)
    else if x.opcode == OP_CATCH then Install(Destination(t, x, pc, end))
    else if x.opcode == OP_GOSUB then Enter(Destination(t, x, pc, end))
    else if IsWithOpcode(x.opcode)
    then Environment(x.opcode, x.operands.values[0], x.operands.values[2], Destination(t, x, pc, end))
    else Execute(x)
  }

  /** What a machine finds at an address: nothing to run, an unconditional transfer, or
      an operation with the addresses after it and of its target. */
  datatype Fetched = Stop | Transfer(to: nat) | Perform(op: Op, next: nat, taken: nat)

  /** Decodes what the final bytes ask for at address `pc`. */
  function Fetch(t: OpcodeTable, bytes: seq<u8>, pc: nat): Fetched
    requires PinnedSchema(t)
  {
    if pc >= |bytes| || pc > U32_MAX then Stop
    else
      var r := DecodeInstruction(t, bytes, pc);
      if r.Err? then Stop
      else
        var x, target := r.value.instruction, Destination(t, r.value.instruction, pc, |bytes|);
        if IsGotoOpcode(x.opcode) then Transfer(target)
        else Perform(ByteOp(t, x, pc, |bytes|), r.value.nextPc, target)
  }

  /** What the bytes present at every address. */
  function ByteMemory(t: OpcodeTable, bytes: seq<u8>): nat -> Fetched
    requires PinnedSchema(t)
  {
    (a: nat) => Fetch(t, bytes, a)
  }

  function Resumed(f: Fetched, c: Control, end: nat): nat
    requires f.Perform?
  {
    match c
    case Continue => f.next
    case Take => f.taken
    case Resume(a) => a
    case Halt => end
  }

  /** The operations a machine performs within `fuel` fetches. */
  function Run<S>(m: Machine<S>, fetch: nat -> Fetched, end: nat, pc: nat, s: S, fuel: nat): seq<Event<S>>
    decreases fuel
  {
    if fuel == 0 then []
    else
      match fetch(pc)
      case Stop => []
      case Transfer(a) => Run(m, fetch, end, a, s, fuel - 1)
      case Perform(op, _, _) =>
        var (s', c) := m(op, pc, s);
        [Event(pc, op, s)] + Run(m, fetch, end, Resumed(fetch(pc), c, end), s', fuel - 1)
  }

  /** The run of final bytes from address `pc`. */
  function ByteTrace<S>(m: Machine<S>, t: OpcodeTable, bytes: seq<u8>, pc: nat, s: S, fuel: nat): seq<Event<S>>
    requires PinnedSchema(t)
  {
    Run(m, ByteMemory(t, bytes), |bytes|, pc, s, fuel)
  }

  // ------------------------------------------------------- relocation

  /** Byte address of an item; positions past the plan mean the end of the stream. */
  function Address(ws: Widths, i: nat): nat {
    if i <= |ws| then Position(ws, i) else Position(ws, |ws|)
  }

  function RelocateOp(ws: Widths, op: Op): Op {
    match op
    case Install(h) => Install(Address(ws, h))
    case Enter(e) => Enter(Address(ws, e))
    case Environment(o, a, v, target) => Environment(o, a, v, Address(ws, target))
    case _ => op
  }

  function RelocateControl(ws: Widths, c: Control): Control {
    match c
    case Resume(i) => Resume(Address(ws, i))
    case _ => c
  }

  /** On every operation of the plan, the byte machine `b` does what `m` does, with item
      positions read as addresses. */
  ghost predicate Relocates<S(!new)>(q: Plan, ws: Widths, m: Machine<S>, b: Machine<S>)
    requires Resolved(q)
  {
    forall i: nat, s: S :: i < |q.items| && !IsGoto(q, i) ==>
      b(RelocateOp(ws, OpAt(q, i)), Address(ws, i), s) == RelocateOutcome(ws, m(OpAt(q, i), i, s))
  }

  function RelocateOutcome<S>(ws: Widths, o: (S, Control)): (S, Control) {
    (o.0, RelocateControl(ws, o.1))
  }

  function RelocateTrace<S>(ws: Widths, tr: seq<Event<S>>): seq<Event<S>> {
    if tr == [] then []
    else [Event(Address(ws, tr[0].position), RelocateOp(ws, tr[0].op), tr[0].state)]
         + RelocateTrace(ws, tr[1..])
  }

  // ------------------------------------------------------- the emitted stream runs the plan

  lemma {:induction false} DecodeFromAt(t: OpcodeTable, bytes: seq<u8>, pc: u32, k: nat, d: Decoded)
    requires ByteTable(t) && k < |DecodeFrom(t, bytes, pc)| && DecodeFrom(t, bytes, pc)[k] == Ok(d)
    ensures DecodeInstruction(t, bytes, d.pc) == Ok(d)
    decreases k
  {
    var first := DecodeInstruction(t, bytes, pc);
    if k > 0 {
      var rest := DecodeFrom(t, bytes, first.value.nextPc);
      assert DecodeFrom(t, bytes, pc) == [first] + rest;
      assert rest[k - 1] == Ok(d);
      DecodeFromAt(t, bytes, first.value.nextPc, k - 1, d);
    }
  }

  /** `x`, at the address of item `i`, is a goto exactly when the item is, asks for the
      same operation, and refers to the address of the item's target. */
  predicate Means(t: OpcodeTable, q: Plan, ws: Widths, i: nat, x: Instruction)
    requires PinnedSchema(t) && Resolved(q) && |ws| == |q.items| && i < |ws| && ValidInstruction(t, x)
  {
    var pc, end := Address(ws, i), Position(ws, |ws|);
    && (IsGotoOpcode(x.opcode) <==> IsGoto(q, i))
    && Destination(t, x, pc, end)
       == (if q.items[i].Plain? then end else Address(ws, TargetOf(q, i)))
    && (!IsGoto(q, i) ==> ByteOp(t, x, pc, end) == RelocateOp(ws, OpAt(q, i)))
  }

  lemma PlainMeaning(t: OpcodeTable, q: Plan, ws: Widths, i: nat, x: Instruction)
    requires PinnedSchema(t) && Resolved(q) && |ws| == |q.items| && i < |ws| && q.items[i] == Plain(x)
    requires PlannedItem(t, q.items[i])
    ensures Means(t, q, ws, i, x)
  {}

  lemma BranchDestination(t: OpcodeTable, q: Plan, ws: Widths, i: nat, x: Instruction)
    requires PinnedSchema(t) && Resolved(q) && Shape(q, ws) && i < |ws| && q.items[i].Branch?
    requires FinalForm(t, q, ws, i, x)
    ensures IsBranchOpcode(x.opcode) && !IsWithOpcode(x.opcode)
    ensures x.opcode == BranchOpcode(q.items[i].kind, ws[i])
    ensures Destination(t, x, Address(ws, i), Position(ws, |ws|)) == Address(ws, TargetOf(q, i))
  {}

  lemma BranchMeaning(t: OpcodeTable, q: Plan, ws: Widths, i: nat, x: Instruction)
    requires PinnedSchema(t) && Resolved(q) && Shape(q, ws) && i < |ws| && q.items[i].Branch?
    requires FinalForm(t, q, ws, i, x)
    ensures Means(t, q, ws, i, x)
  {
    BranchDestination(t, q, ws, i, x);
  }

  lemma WithMeaning(t: OpcodeTable, q: Plan, ws: Widths, i: nat, x: Instruction)
    requires PinnedSchema(t) && Resolved(q) && |ws| == |q.items| && i < |ws| && q.items[i].WithBranch?
    requires PlannedItem(t, q.items[i]) && FinalForm(t, q, ws, i, x)
    ensures Means(t, q, ws, i, x)
  {}

  /** What the plan itself presents at item position `i`. */
  function ItemFetch(q: Plan, i: nat): Fetched
    requires Resolved(q)
  {
    if i >= |q.items| then Stop
    else if IsGoto(q, i) then Transfer(TargetOf(q, i))
    else Perform(OpAt(q, i), i + 1, if q.items[i].Plain? then |q.items| else TargetOf(q, i))
  }

  /** What the plan presents at every position. */
  function ItemMemory(q: Plan): nat -> Fetched
    requires Resolved(q)
  {
    (j: nat) => ItemFetch(q, j)
  }

  function RelocateFetched(ws: Widths, f: Fetched): Fetched {
    match f
    case Stop => Stop
    case Transfer(a) => Transfer(Address(ws, a))
    case Perform(op, next, taken) => Perform(RelocateOp(ws, op), Address(ws, next), Address(ws, taken))
  }

  lemma FinalFormMeans(t: OpcodeTable, q: Plan, ws: Widths, i: nat, x: Instruction)
    requires PinnedSchema(t) && Resolved(q) && PlannedItems(t, q) && Shape(q, ws) && i < |ws|
    requires FinalForm(t, q, ws, i, x)
    ensures Means(t, q, ws, i, x)
  {
    assert PlannedItem(t, q.items[i]);
    match q.items[i]
    case Plain(_) => PlainMeaning(t, q, ws, i, x);
    case Branch(_, _) => BranchMeaning(t, q, ws, i, x);
    case WithBranch(_, _, _, _) => WithMeaning(t, q, ws, i, x);
  }

  lemma CorrectDecodes(t: OpcodeTable, q: Plan, ws: Widths, code: seq<Instruction>, out: AssembledBytecode, i: nat)
    requires PinnedSchema(t) && Resolved(q) && Correct(t, q, ws, code, out) && i < |ws|
    ensures Address(ws, i) < |out.bytecode|
    ensures DecodeInstruction(t, out.bytecode, Address(ws, i)) == Slot(ws, code, i)
  {
    PositionIncreasing(ws, i + 1, |ws|);
    assert FinalForm(t, q, ws, i, code[i]);
    assert DecodeFrom(t, out.bytecode, 0)[i] == Slot(ws, code, i);
    DecodeFromAt(t, out.bytecode, 0, i, Slot(ws, code, i).value);
  }

  lemma FetchedAs(t: OpcodeTable, bytes: seq<u8>, pc: nat, d: Decoded)
    requires PinnedSchema(t) && pc < |bytes| && pc <= U32_MAX && DecodeInstruction(t, bytes, pc) == Ok(d)
    requires ValidInstruction(t, d.instruction)
    ensures var target := Destination(t, d.instruction, pc, |bytes|);
            Fetch(t, bytes, pc) == if IsGotoOpcode(d.instruction.opcode) then Transfer(target)
                                   else Perform(ByteOp(t, d.instruction, pc, |bytes|), d.nextPc, target)
  {}

  lemma MeansFetched(t: OpcodeTable, q: Plan, ws: Widths, bytes: seq<u8>, i: nat, d: Decoded)
    requires PinnedSchema(t) && Resolved(q) && |ws| == |q.items| && i < |ws|
    requires Address(ws, i) < |bytes| == Position(ws, |ws|) && Address(ws, i) <= U32_MAX
    requires DecodeInstruction(t, bytes, Address(ws, i)) == Ok(d) && d.nextPc == Address(ws, i + 1)
    requires ValidInstruction(t, d.instruction) && Means(t, q, ws, i, d.instruction)
    ensures Fetch(t, bytes, Address(ws, i)) == RelocateFetched(ws, ItemFetch(q, i))
  {
    FetchedAs(t, bytes, Address(ws, i), d);
  }

  lemma CorrectMeans(t: OpcodeTable, q: Plan, ws: Widths, code: seq<Instruction>, out: AssembledBytecode, i: nat)
    requires PinnedSchema(t) && Resolved(q) && PlannedItems(t, q) && Correct(t, q, ws, code, out) && i < |ws|
    ensures ValidInstruction(t, code[i]) && Means(t, q, ws, i, code[i])
  {
    assert FinalForm(t, q, ws, i, code[i]);
    FinalFormMeans(t, q, ws, i, code[i]);
  }

  /** The bytes of a correct assembly present every item at its address. */
  lemma CorrectFetches(t: OpcodeTable, q: Plan, ws: Widths, code: seq<Instruction>, out: AssembledBytecode, i: nat)
    requires PinnedSchema(t) && Resolved(q) && PlannedItems(t, q) && Correct(t, q, ws, code, out)
    ensures Fetch(t, out.bytecode, Address(ws, i)) == RelocateFetched(ws, ItemFetch(q, i))
  {
    if i < |ws| {
      CorrectDecodes(t, q, ws, code, out, i);
      CorrectMeans(t, q, ws, code, out, i);
      MeansFetched(t, q, ws, out.bytecode, i, Slot(ws, code, i).value);
    }
  }

  lemma RelocateCons<S>(ws: Widths, e: Event<S>, tr: seq<Event<S>>)
    ensures RelocateTrace(ws, [e] + tr)
         == [Event(Address(ws, e.position), RelocateOp(ws, e.op), e.state)] + RelocateTrace(ws, tr)
  {
    assert ([e] + tr)[1..] == tr;
  }

  /** Running a plan is running the memory it presents. */
  lemma {:induction false} TraceIsRun<S>(m: Machine<S>, q: Plan, i: nat, s: S, fuel: nat)
    requires Resolved(q)
    ensures Trace(m, q, i, s, fuel) == Run(m, ItemMemory(q), |q.items|, i, s, fuel)
    decreases fuel
  {
    if fuel > 0 && i < |q.items| {
      if IsGoto(q, i) {
        TraceIsRun(m, q, TargetOf(q, i), s, fuel - 1);
      } else {
        var (s', c) := m(OpAt(q, i), i, s);
        assert Resumed(ItemFetch(q, i), c, |q.items|) == Successor(q, i, c);
        TraceIsRun(m, q, Successor(q, i, c), s', fuel - 1);
      }
    }
  }

  /** Both machines respond alike to the operation presented at position `i`. */
  ghost predicate RespondsAlike<S>(ws: Widths, f: nat -> Fetched, m: Machine<S>, b: Machine<S>, i: nat, s: S) {
    f(i).Perform? ==>
      b(RelocateOp(ws, f(i).op), Address(ws, i), s) == RelocateOutcome(ws, m(f(i).op, i, s))
  }

  ghost predicate RelocatesOn<S(!new)>(ws: Widths, f: nat -> Fetched, m: Machine<S>, b: Machine<S>) {
    forall i: nat, s: S :: RespondsAlike(ws, f, m, b, i, s)
  }

  /** `g` presents at every address what `f` presents at the item position. */
  ghost predicate Presents(ws: Widths, f: nat -> Fetched, g: nat -> Fetched) {
    forall i: nat :: g(Address(ws, i)) == RelocateFetched(ws, f(i))
  }

  lemma ResumedRelocates(ws: Widths, f: Fetched, c: Control)
    requires f.Perform?
    ensures Resumed(RelocateFetched(ws, f), RelocateControl(ws, c), Position(ws, |ws|))
         == Address(ws, Resumed(f, c, |ws|))
  {}

  /** Relocated memories have relocated runs: same operations, same states, same order,
      with item positions read as byte addresses. */
  lemma {:induction false} RelocatedRuns<S(!new)>(m: Machine<S>, b: Machine<S>, ws: Widths,
    f: nat -> Fetched, g: nat -> Fetched, i: nat, s: S, fuel: nat)
    requires Presents(ws, f, g) && RelocatesOn(ws, f, m, b)
    ensures Run(b, g, Position(ws, |ws|), Address(ws, i), s, fuel)
         == RelocateTrace(ws, Run(m, f, |ws|, i, s, fuel))
    decreases fuel
  {
    if fuel > 0 {
      assert g(Address(ws, i)) == RelocateFetched(ws, f(i));
      match f(i)
      case Stop =>
      case Transfer(a) => RelocatedRuns(m, b, ws, f, g, a, s, fuel - 1);
      case Perform(op, _, _) =>
        var (s', c) := m(op, i, s);
        var next := Resumed(f(i), c, |ws|);
        assert RespondsAlike(ws, f, m, b, i, s);
        ResumedRelocates(ws, f(i), c);
        RelocatedRuns(m, b, ws, f, g, next, s', fuel - 1);
        RelocateCons(ws, Event(i, op, s), Run(m, f, |ws|, next, s', fuel - 1));
    }
  }

  /** The bytes of a correct assembly present the relocated plan. */
  lemma BytesPresent(t: OpcodeTable, q: Plan, ws: Widths, code: seq<Instruction>, out: AssembledBytecode)
    requires PinnedSchema(t) && Resolved(q) && PlannedItems(t, q) && Correct(t, q, ws, code, out)
    ensures Presents(ws, ItemMemory(q), ByteMemory(t, out.bytecode))
    ensures |out.bytecode| == Position(ws, |ws|) && |ws| == |q.items|
  {
    var f, g := ItemMemory(q), ByteMemory(t, out.bytecode);
    forall j: nat ensures g(Address(ws, j)) == RelocateFetched(ws, f(j)) {
      CorrectFetches(t, q, ws, code, out, j);
    }
  }

  lemma RelocatesItems<S(!new)>(q: Plan, ws: Widths, m: Machine<S>, b: Machine<S>)
    requires Resolved(q) && Relocates(q, ws, m, b)
    ensures RelocatesOn(ws, ItemMemory(q), m, b)
  {
    forall i: nat, s: S ensures RespondsAlike(ws, ItemMemory(q), m, b, i, s) {}
  }

  /** The emitted bytes run the plan they were assembled from. */
  lemma EmittedRuns<S(!new)>(m: Machine<S>, b: Machine<S>, t: OpcodeTable, q: Plan, ws: Widths,
    code: seq<Instruction>, out: AssembledBytecode, i: nat, s: S, fuel: nat)
    requires PinnedSchema(t) && Resolved(q) && PlannedItems(t, q)
    requires Correct(t, q, ws, code, out) && Relocates(q, ws, m, b)
    ensures ByteTrace(b, t, out.bytecode, Address(ws, i), s, fuel) == RelocateTrace(ws, Trace(m, q, i, s, fuel))
  {
    BytesPresent(t, q, ws, code, out);
    RelocatesItems(q, ws, m, b);
    TraceIsRun(m, q, i, s, fuel);
    RelocatedRuns(m, b, ws, ItemMemory(q), ByteMemory(t, out.bytecode), i, s, fuel);
  }

  /** Whole-assembler correctness: for every plan that `Finish` assembles, every machine
      and every start, the bytes and the original symbolic plan execute the same sequence
      of non-goto instructions in the same states. */
  lemma AssemblyPreservesRuns<S(!new)>(m: Machine<S>, b: Machine<S>, t: OpcodeTable, p: Plan, q: Plan,
    ws: Widths, code: seq<Instruction>, out: AssembledBytecode, i: nat, s: S, fuel: nat)
    requires PinnedSchema(t) && Threaded(p, q) && PlannedItems(t, p)
    requires Correct(t, q, ws, code, out) && Relocates(q, ws, m, b)
    ensures exists tr :: Prefix(Trace(m, p, i, s, fuel), tr)
                         && ByteTrace(b, t, out.bytecode, Address(ws, i), s, fuel) == RelocateTrace(ws, tr)
                         && exists fuel': nat :: Prefix(tr, Trace(m, p, i, s, fuel'))
  {
    ThreadingPlanned(t, p, q);
    ThreadingPreservesRuns(m, p, q, i, s, fuel);
    EmittedRuns(m, b, t, q, ws, code, out, i, s, fuel);
    var tr := Trace(m, q, i, s, fuel);
    assert Prefix(Trace(m, p, i, s, fuel), tr);
  }

  lemma AddressInjective(ws: Widths, i: nat, j: nat)
    requires i < |ws| && j < |ws| && Address(ws, i) == Address(ws, j)
    requires forall k :: 0 <= k < |ws| ==> ws[k] > 0
    ensures i == j
  {
    if i < j { PositionIncreasing(ws, i + 1, j); }
    if j < i { PositionIncreasing(ws, j + 1, i); }
  }

  ghost function ItemAt(ws: Widths, a: nat): nat {
    if i :| 0 <= i < |ws| && Address(ws, i) == a then i else |ws|
  }

  /** Every machine over item positions has a relocated byte machine. */
  lemma RelocatedMachine<S(!new)>(m: Machine<S>, q: Plan, ws: Widths) returns (b: Machine<S>)
    requires Resolved(q) && |ws| == |q.items| && forall k :: 0 <= k < |ws| ==> ws[k] > 0
    ensures Relocates(q, ws, m, b)
  {
    b := (op: Op, a: nat, s: S) =>
      var i := ItemAt(ws, a);
      if i < |q.items| && !IsGoto(q, i) then RelocateOutcome(ws, m(OpAt(q, i), i, s)) else m(op, a, s);
    forall i: nat, s: S | i < |q.items| && !IsGoto(q, i)
      ensures b(RelocateOp(ws, OpAt(q, i)), Address(ws, i), s) == RelocateOutcome(ws, m(OpAt(q, i), i, s))
    {
      AddressInjective(ws, i, ItemAt(ws, Address(ws, i)));
    }
  }
}
