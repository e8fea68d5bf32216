/** The symbolic assembler: an object that collects a plan and finishes it into bytes. */
module Assembler {
  import opened Schema
  import opened Codec
  import opened Plan
  import opened Layout
  import opened Relaxation
  import opened Threading
  import opened Emission

  /** Token that ties a label to the assembler that issued it. */
  class AssemblerIdentity {
    constructor () {}
  }

  datatype AssemblerLabel = AssemblerLabel(identity: AssemblerIdentity, index: nat)

  datatype AssemblerLimits = AssemblerLimits(maxBytes: u32, maxInstructions: u32, maxEvaluations: u64)

  datatype TargetState = Unknown | Resolving | Terminal(final: nat) | Cycle

  /** Final bytecode plus the relocated position of every emitted instruction. */
  datatype AssembledBytecode = AssembledBytecode(bytecode: seq<u8>, pcs: seq<nat>)

  /** The decoder reports exactly the items of the layout, in order. */
  predicate DecodesTo(ws: Widths, code: seq<Instruction>, rs: seq<Result<Decoded, DecodeError>>)
    requires |ws| == |code| && Position(ws, |ws|) <= U32_MAX
  {
    |rs| == |ws| && forall i :: 0 <= i < |rs| ==> rs[i] == Slot(ws, code, i)
  }

  /** `out` is a correct assembly of `q` under its least layout: the bytes decode to one
      instruction per item, at the recorded positions, and each is its item's final form. */
  ghost predicate Correct(t: OpcodeTable, q: Plan, ws: Widths, code: seq<Instruction>, out: AssembledBytecode)
    requires PinnedSchema(t) && Resolved(q)
  {
    && LeastLayout(q, ws) && Assembled(t, q, ws, code)
    && |out.bytecode| == Position(ws, |ws|) <= U32_MAX && |out.pcs| == |ws|
    && (forall i :: 0 <= i < |ws| ==> out.pcs[i] == Position(ws, i))
    && out.bytecode == EncodeStream(code) && DecodesTo(ws, code, DecodeFrom(t, out.bytecode, 0))
  }

  /** What one label's resolution state asserts about its goto chain. */
  ghost predicate Settled(p: Plan, l: nat, s: TargetState)
    requires Resolved(p) && l < |p.bindings|
  {
    match s
    case Unknown => true
    case Resolving => true
    case Terminal(t) => Ends(p, l, t)
    case Cycle => Cyclic(p, l)
  }

  ghost predicate IsSettled(p: Plan, l: nat, s: TargetState)
    requires Resolved(p) && l < |p.bindings|
  {
    (s.Terminal? || s.Cycle?) && Settled(p, l, s)
  }

  /** The settled state of its label tells what threading makes of a branch. */
  lemma SettledThreads(p: Plan, a: Item, s: TargetState)
    requires Resolved(p) && Threadable(a) && a.target < |p.bindings| && IsSettled(p, a.target, s)
    ensures ThreadedItem(p, a, if s.Terminal? then Branch(a.kind, s.final) else a)
  {}

  lemma ThreadingPlanned(t: OpcodeTable, p: Plan, q: Plan)
    requires Resolved(p) && PlannedItems(t, p) && IsThreading(p, q)
    ensures PlannedItems(t, q)
  {
    forall i | 0 <= i < |q.items|
      ensures PlannedItem(t, q.items[i])
    {
      assert ThreadedItem(p, p.items[i], q.items[i]) && PlannedItem(t, p.items[i]);
    }
  }

  lemma ResolvedIsBound(p: Plan)
    requires Resolved(p)
    ensures forall l :: 0 <= l < |p.bindings| ==> p.bindings[l].Some? && p.bindings[l].value <= |p.items|
    ensures forall i :: 0 <= i < |p.items| && !p.items[i].Plain? ==> p.items[i].target < |p.bindings|
  {
    forall l | 0 <= l < |p.bindings|
      ensures p.bindings[l].Some? && p.bindings[l].value <= |p.items|
    {
      assert BoundWithin(p, l);
    }
  }

  ghost predicate Threaded(p: Plan, q: Plan) {
    Resolved(p) && Resolved(q) && IsThreading(p, q)
  }

  /** Some layout fits, and relaxing the plan stays within the evaluation limit. */
  ghost predicate Affordable(q: Plan, limits: AssemblerLimits) {
    && Resolved(q) && Assemblable(q, limits.maxBytes)
    && limits.maxEvaluations >= PassCount(q) * |q.items|
  }

  /** Why emitting `q` under its least layout `ws` may fail: the stream exceeds the
      position domain or the byte limit, or an object-environment branch cannot reach its
      target. An ordinary branch, the encoder and the layout never disagree. */
  ghost predicate LayoutExplains(limits: AssemblerLimits, q: Plan, ws: Widths, e: AssemblerError)
    requires Resolved(q) && LeastLayout(q, ws)
  {
    match e
    case EncodedLengthOutOfRange(_) => Position(ws, |ws|) > U32_MAX
    case EncodingFailed(_) => Position(ws, |ws|) > limits.maxBytes
    case BranchDisplacementOutOfRange(i, _, _) => i < |ws| && !WithBranchFits(q, ws, i)
    case _ => false
  }

  /** Why finishing plan `p`, threaded to `q` and laid out as `ws`, may fail. No other
      error, such as a layout mismatch or an invalid instruction, is possible. */
  ghost predicate Explained(limits: AssemblerLimits, p: Plan, q: Plan, ws: Widths, e: AssemblerError) {
    match e
    case UnboundLabel(l) => l < |p.bindings| && p.bindings[l].None?
    case TargetAtEnd(l) => l < |p.bindings| && p.bindings[l] == Some(|p.items|)
    case RelaxationLimitExceeded(_, _, _) =>
      Threaded(p, q) && limits.maxEvaluations < PassCount(q) * |q.items|
    case _ =>
      && Threaded(p, q)
      && if LeastLayout(q, ws) then LayoutExplains(limits, q, ws, e)
         else e.BranchDisplacementOutOfRange? && forall vs :: !ValidLayout(q, vs)
  }

  /** Labels being resolved form a chain of gotos that continues at `current`. */
  predicate Chain(p: Plan, path: seq<nat>, current: nat)
    requires Resolved(p)
  {
    && (forall k :: 0 <= k < |path| ==> path[k] < |p.bindings| && Next(p, path[k]).Some?)
    && (forall k :: 0 < k < |path| ==> Next(p, path[k - 1]) == Some(path[k]))
    && (|path| > 0 ==> Next(p, path[|path| - 1]) == Some(current))
  }

  /** Everything on the path ends where the label it leads to ends. */
  lemma {:induction false} ChainEnds(p: Plan, path: seq<nat>, current: nat, k: nat, t: nat)
    requires Resolved(p) && Chain(p, path, current) && k < |path| && current < |p.bindings|
    ensures Ends(p, path[k], t) <==> Ends(p, current, t)
    decreases |path| - k
  {
    EndsViaNext(p, path[k], t);
    if k + 1 < |path| { ChainEnds(p, path, current, k + 1, t); }
  }

  lemma ChainExtends(p: Plan, path: seq<nat>, current: nat, next: nat)
    requires Resolved(p) && Chain(p, path, current)
    requires current < |p.bindings| && Next(p, current) == Some(next)
    ensures Chain(p, path + [current], next)
    ensures forall l :: l in path + [current] <==> l in path || l == current
  {}

  lemma PathEnds(p: Plan, path: seq<nat>, current: nat, t: nat)
    requires Resolved(p) && Chain(p, path, current) && current < |p.bindings| && Ends(p, current, t)
    ensures forall l :: l in path ==> Ends(p, l, t)
  {
    forall l | l in path
      ensures Ends(p, l, t)
    {
      var k :| 0 <= k < |path| && path[k] == l;
      ChainEnds(p, path, current, k, t);
    }
  }

  lemma PathCyclic(p: Plan, path: seq<nat>, current: nat)
    requires Resolved(p) && Chain(p, path, current) && current < |p.bindings| && Cyclic(p, current)
    ensures forall l :: l in path ==> Cyclic(p, l)
  {
    forall l, t: nat | l in path
      ensures !Ends(p, l, t)
    {
      var k :| 0 <= k < |path| && path[k] == l;
      ChainEnds(p, path, current, k, t);
    }
  }

  lemma ChainStaysInside(p: Plan, path: seq<nat>, current: nat, x: nat)
    requires Resolved(p) && Chain(p, path, current) && current in path && x in path
    ensures x < |p.bindings| && Next(p, x).Some? && Next(p, x).value in path
  {
    var j :| 0 <= j < |path| && path[j] == x;
    if j + 1 < |path| {
      assert Next(p, path[j + 1 - 1]) == Some(path[j + 1]);
    }
  }

  /** A path that runs into itself is caught in a cycle. */
  lemma ClosedPathCyclic(p: Plan, path: seq<nat>, current: nat)
    requires Resolved(p) && Chain(p, path, current) && current in path
    ensures forall l :: l in path ==> Cyclic(p, l)
  {
    var c := set x | x in path;
    forall x | x in c
      ensures x < |p.bindings| && Next(p, x).Some? && Next(p, x).value in c
    {
      ChainStaysInside(p, path, current, x);
    }
    forall l, t: nat, n: nat | l in path
      ensures !EndsAfter(p, l, n, t)
    {
      ClosedSetNeverEnds(p, c, l, n, t);
    }
  }

  class BytecodeAssembler {
    const identity: AssemblerIdentity
    const table: OpcodeTable
    const limits: AssemblerLimits
    var items: seq<Item>
    var bindings: seq<Option<nat>>

    function CurrentPlan(): Plan
      reads this
    {
      Plan(items, bindings)
    }

    ghost predicate Valid()
      reads this
    {
      && PinnedSchema(table) && |items| <= limits.maxInstructions && |bindings| <= U32_MAX + 1
      && PlannedItems(table, CurrentPlan())
      && (forall l :: 0 <= l < |bindings| && bindings[l].Some? ==> bindings[l].value <= |items|)
      && (forall i :: 0 <= i < |items| && !items[i].Plain? ==> items[i].target < |bindings|)
    }

    constructor (table: OpcodeTable, limits: AssemblerLimits)
      requires PinnedSchema(table)
      ensures Valid() && items == [] && bindings == [] && this.table == table && this.limits == limits
      ensures fresh(identity)
    {
      identity := new AssemblerIdentity();
      this.table, this.limits := table, limits;
      items, bindings := [], [];
    }

    /** Allocates a label that is not bound yet. */
    method NewLabel() returns (r: Result<AssemblerLabel, AssemblerError>)
      requires Valid()
      modifies this`bindings
      ensures Valid()
      ensures r.Ok? <==> |old(bindings)| <= U32_MAX
      ensures r.Ok? ==> r.value == AssemblerLabel(identity, |old(bindings)|)
                        && bindings == old(bindings) + [None]
      ensures r.Err? ==> r.error == TooManyLabels && bindings == old(bindings)
    {
      var index := |bindings|;
      if index > U32_MAX {
        return Err(TooManyLabels);
      }
      bindings := bindings + [None];
      return Ok(AssemblerLabel(identity, index));
    }

    /** Whether a label was issued by this assembler. */
    function ResolveLabel(l: AssemblerLabel): (r: Result<Option<nat>, AssemblerError>)
      reads this
      ensures r.Ok? <==> l.identity == identity && l.index < |bindings|
      ensures r.Ok? ==> r.value == bindings[l.index]
    {
      if l.identity != identity then Err(ForeignLabel)
      else if l.index >= |bindings| then Err(UnknownLabel(l.index))
      else Ok(bindings[l.index])
    }

    /** Binds a label to the next item; a label is bound at most once. */
    method Bind(l: AssemblerLabel) returns (r: Result<(), AssemblerError>)
      requires Valid()
      modifies this`bindings
      ensures Valid()
      ensures r.Ok? <==> old(ResolveLabel(l)) == Ok(None)
      ensures r.Ok? ==> bindings == old(bindings)[l.index := Some(|items|)]
      ensures r.Err? ==> bindings == old(bindings)
    {
      var b := ResolveLabel(l);
      if b.Err? {
        return Err(b.error);
      }
      if b.value.Some? {
        return Err(DuplicateLabel(l.index));
      }
      bindings := bindings[l.index := Some(|items|)];
      return Ok(());
    }

    function NextInstructionIndex(): (r: Result<nat, AssemblerError>)
      reads this
      ensures r.Ok? <==> |items| < limits.maxInstructions
      ensures r.Ok? ==> r.value == |items|
    {
      var index := |items|;
      if index > U32_MAX then Err(TooManyInstructions)
      else if index + 1 > limits.maxInstructions
      then Err(InstructionLimitExceeded(index, limits.maxInstructions, index + 1))
      else Ok(index)
    }

    /** Appends one non-symbolic instruction. Raw label operands cannot bypass labels. */
    method Push(opcode: nat, operands: Operands) returns (r: Result<nat, AssemblerError>)
      requires Valid() && opcode < |table| && ValidOperands(operands)
      modifies this`items
      ensures Valid()
      ensures r.Ok? <==> |old(items)| < limits.maxInstructions
                         && ValidInstruction(table, Instruction(opcode, operands))
                         && !HasSymbolicLabel(operands.format)
      ensures r.Ok? ==> r.value == |old(items)|
                        && items == old(items) + [Plain(Instruction(opcode, operands))]
      ensures r.Err? ==> items == old(items)
    {
      var index := NextInstructionIndex();
      if index.Err? {
        return Err(index.error);
      }
      var x := NewInstruction(table, opcode, operands);
      if x.Err? {
        return Err(InvalidInstruction(index.value, x.error));
      }
      if HasSymbolicLabel(table[opcode]) {
        return Err(SymbolicBranchRequired(opcode));
      }
      items := items + [Plain(x.value)];
      return index;
    }

    /** Appends a symbolic branch to a label of this assembler. */
    method PushBranch(kind: BranchKind, l: AssemblerLabel) returns (r: Result<nat, AssemblerError>)
      requires Valid()
      modifies this`items
      ensures Valid()
      ensures r.Ok? <==> ResolveLabel(l).Ok? && |old(items)| < limits.maxInstructions
      ensures r.Ok? ==> r.value == |old(items)| && items == old(items) + [Branch(kind, l.index)]
      ensures r.Err? ==> items == old(items)
    {
      var b := ResolveLabel(l);
      if b.Err? {
        return Err(b.error);
      }
      r := NextInstructionIndex();
      if r.Ok? {
        items := items + [Branch(kind, l.index)];
      }
    }

    /** Appends an object-environment branch. */
    method PushWithBranch(opcode: nat, atom: u32, value: u8, l: AssemblerLabel)
      returns (r: Result<nat, AssemblerError>)
      requires Valid() && opcode < |table|
      modifies this`items
      ensures Valid()
      ensures r.Ok? <==> ResolveLabel(l).Ok? && |old(items)| < limits.maxInstructions && IsWithOpcode(opcode)
      ensures r.Ok? ==> r.value == |old(items)|
                        && items == old(items) + [WithBranch(opcode, atom, value, l.index)]
      ensures r.Err? ==> items == old(items)
    {
      var b := ResolveLabel(l);
      if b.Err? {
        return Err(b.error);
      }
      r := NextInstructionIndex();
      if r.Err? {
        return;
      }
      if opcode != OP_WITH_GET_VAR && opcode != OP_WITH_PUT_VAR && opcode != OP_WITH_DELETE_VAR
         && opcode != OP_WITH_MAKE_REF && opcode != OP_WITH_GET_REF {
        return Err(InvalidInstruction(r.value, OperandFormatMismatch(opcode, table[opcode], FAtomLabelU8)));
      }
      items := items + [WithBranch(opcode, atom, value, l.index)];
    }

    /** Accepts exactly the plans whose labels are all bound and whose branches all name
        a planned instruction. */
    method ValidateBoundLabels() returns (r: Result<(), AssemblerError>)
      requires Valid()
      ensures r.Ok? <==> Resolved(CurrentPlan())
      ensures r.Err? ==> r.error.UnboundLabel? || r.error.TargetAtEnd?
      ensures r.Err? && r.error.UnboundLabel? ==>
                r.error.labelIndex < |bindings| && bindings[r.error.labelIndex].None?
      ensures r.Err? && r.error.TargetAtEnd? ==>
                r.error.labelIndex < |bindings| && bindings[r.error.labelIndex] == Some(|items|)
    {
      ghost var p := CurrentPlan();
      for l := 0 to |bindings|
        invariant forall k :: 0 <= k < l ==> BoundWithin(p, k)
      {
        if bindings[l].None? {
          assert !BoundWithin(p, l);
          return Err(UnboundLabel(l));
        }
      }
      for i := 0 to |items|
        invariant forall k :: 0 <= k < i && !items[k].Plain? ==>
                    BoundWithin(p, items[k].target) && bindings[items[k].target].value < |items|
      {
        if !items[i].Plain? {
          var l := items[i].target;
          assert BoundWithin(p, l);
          if bindings[l].value == |items| {
            return Err(TargetAtEnd(l));
          }
        }
      }
      return Ok(());
    }

    /** Writes one final state to every label of the resolved path. */
    method SettlePath(states: array<TargetState>, path: seq<nat>, s: TargetState)
      requires forall k :: 0 <= k < |path| ==> path[k] < states.Length
      modifies states
      ensures forall l :: 0 <= l < states.Length ==>
                states[l] == if l in path then s else old(states[l])
    {
      for k := 0 to |path|
        invariant forall l :: 0 <= l < states.Length ==>
                    states[l] == if l in path[..k] then s else old(states[l])
      {
        states[path[k]] := s;
        assert path[..k + 1] == path[..k] + [path[k]];
      }
      assert path[..|path|] == path;
    }

    /** Every label is either untouched or correctly settled. */
    ghost predicate Consistent(states: array<TargetState>)
      reads this, states
      requires Resolved(CurrentPlan())
    {
      && states.Length == |bindings|
      && forall l :: 0 <= l < states.Length ==>
           !states[l].Resolving? && Settled(CurrentPlan(), l, states[l])
    }

    /** Follows the gotos from one unresolved label until the chain ends, closes on
        itself, or meets a label already settled, and settles the whole path. */
    method ResolveFrom(states: array<TargetState>, start: nat)
      requires Resolved(CurrentPlan()) && Consistent(states)
      requires start < states.Length && states[start].Unknown?
      modifies states
      ensures Consistent(states) && !states[start].Unknown?
      ensures forall l :: 0 <= l < states.Length && !old(states[l]).Unknown? ==> states[l] == old(states[l])
    {
      ghost var p := CurrentPlan();
      var path: seq<nat> := [];
      var current: nat := start;
      while true
        invariant current < states.Length && Chain(p, path, current)
        invariant if path == [] then current == start else path[0] == start
        invariant forall l :: 0 <= l < states.Length ==>
                    if l in path then states[l].Resolving? && old(states[l]).Unknown?
                    else states[l] == old(states[l])
        decreases set l | 0 <= l < states.Length && states[l].Unknown?
      {
        match states[current]
        case Unknown =>
          var next := Next(CurrentPlan(), current);
          if next.None? {
            assert EndsAfter(p, current, 0, current);
            PathEnds(p, path, current, current);
            SettlePath(states, path + [current], Terminal(current));
            return;
          }
          ghost var before := set l | 0 <= l < states.Length && states[l].Unknown?;
          states[current] := Resolving;
          assert current in before;
          ChainExtends(p, path, current, next.value);
          path := path + [current];
          current := next.value;
        case Terminal(t) =>
          PathEnds(p, path, current, t);
          SettlePath(states, path, Terminal(t));
          return;
        case Resolving =>
          ClosedPathCyclic(p, path, current);
          SettlePath(states, path, Cycle);
          return;
        case Cycle =>
          PathCyclic(p, path, current);
          SettlePath(states, path, Cycle);
          return;
      }
    }

    /** Settles every label of the plan. */
    method ResolveTargets() returns (states: array<TargetState>)
      requires Resolved(CurrentPlan())
      ensures fresh(states) && states.Length == |bindings|
      ensures forall l :: 0 <= l < |bindings| ==> IsSettled(CurrentPlan(), l, states[l])
    {
      states := new TargetState[|bindings|](_ => Unknown);
      for start := 0 to |bindings|
        invariant Consistent(states)
        invariant forall l :: 0 <= l < start ==> !states[l].Unknown?
      {
        if states[start].Unknown? {
          ResolveFrom(states, start);
        }
      }
    }

    /** Rewrites the items in place from the settled labels. */
    method RewriteItems(states: array<TargetState>)
      requires Resolved(CurrentPlan()) && states.Length == |bindings|
      requires forall l :: 0 <= l < |bindings| ==> IsSettled(CurrentPlan(), l, states[l])
      modifies this`items
      ensures IsThreading(old(CurrentPlan()), CurrentPlan())
    {
      ghost var p := CurrentPlan();
      for i := 0 to |items|
        invariant |items| == |p.items|
        invariant forall j :: i <= j < |items| ==> items[j] == p.items[j]
        invariant forall j :: 0 <= j < i ==> ThreadedItem(p, p.items[j], items[j])
      {
        var item := items[i];
        if Threadable(item) {
          assert BoundWithin(p, item.target);
          SettledThreads(p, item, states[item.target]);
          if states[item.target].Terminal? && states[item.target].final != item.target {
            items := items[i := Branch(item.kind, states[item.target].final)];
          }
        }
      }
    }

    /** Replaces ordinary branch destinations by the ends of their goto chains. */
    method ThreadRedundantGotoTargets()
      requires Valid() && Resolved(CurrentPlan())
      modifies this`items
      ensures Valid() && Threaded(old(CurrentPlan()), CurrentPlan())
      ensures NoRedundantGotos(CurrentPlan()) && OnlyBranchesRetargeted(old(CurrentPlan()), CurrentPlan())
    {
      ghost var p := CurrentPlan();
      var states := ResolveTargets();
      RewriteItems(states);
      ThreadingResolved(p, CurrentPlan());
      ThreadingComplete(p, CurrentPlan());
      ThreadingPlanned(table, p, CurrentPlan());
      ResolvedIsBound(CurrentPlan());
    }

    /** Emits the final bytes of a relaxed plan. */
    method EmitLayout(plan: Plan, widths: Widths, positions: seq<nat>)
      returns (r: Result<AssembledBytecode, AssemblerError>, ghost code: seq<Instruction>)
      requires PinnedSchema(table) && Resolved(plan) && PlannedItems(table, plan) && |plan.items| <= U32_MAX
      requires LeastLayout(plan, widths) && IsPositions(widths, positions)
      ensures r.Ok? ==> Correct(table, plan, widths, code, r.value) && |r.value.bytecode| <= limits.maxBytes
      ensures r.Err? ==> LayoutExplains(limits, plan, widths, r.error)
      ensures r.Ok? <==> Assemblable(plan, limits.maxBytes)
    {
      LeastDecides(plan, widths, limits.maxBytes);
      code := [];
      var encodedBytes := positions[|widths|];
      if encodedBytes > U32_MAX {
        return Err(EncodedLengthOutOfRange(encodedBytes)), code;
      }
      ShapeIsSmall(plan, widths);
      var emitted;
      emitted, code := Emit(table, plan, widths, positions, limits.maxBytes);
      if emitted.Err? {
        return Err(emitted.error), code;
      }
      EmittedDecodes(table, plan, widths, code);
      return Ok(AssembledBytecode(emitted.value.0, emitted.value.1)), code;
    }

    /** Resolves labels, threads gotos, relaxes branches and emits final bytecode. It
        succeeds exactly when the labels are resolved, some layout of the threaded plan fits
        every branch within the byte limit, and the passes it takes are within their limit. */
    method Finish() returns (r: Result<AssembledBytecode, AssemblerError>,
                             ghost ws: Widths, ghost code: seq<Instruction>)
      requires Valid()
      modifies this`items
      ensures r.Ok? ==> Threaded(old(CurrentPlan()), CurrentPlan())
                        && Correct(table, CurrentPlan(), ws, code, r.value)
      ensures r.Ok? ==> |r.value.bytecode| <= limits.maxBytes && NoRedundantGotos(CurrentPlan())
      ensures r.Err? ==> Explained(limits, old(CurrentPlan()), CurrentPlan(), ws, r.error)
      ensures r.Ok? <==> Resolved(old(CurrentPlan())) && Affordable(CurrentPlan(), limits)
    {
      ws, code := [], [];
      var validated := ValidateBoundLabels();
      if validated.Err? {
        return Err(validated.error), ws, code;
      }
      ThreadRedundantGotoTargets();
      var layout, _ := RelaxedLayout(CurrentPlan(), limits.maxEvaluations);
      if layout.Err? {
        return Err(layout.error), ws, code;
      }
      ws := layout.value.0;
      r, code := EmitLayout(CurrentPlan(), layout.value.0, layout.value.1);
    }
  }
}
