/** Finally subroutines: what the ordinary-stack analysis leaves open about them. A machine
    that returns through pushed addresses, and the exact conditions under which recorded
    depths hold on its executions. */
module Subroutines {
  import opened Finite
  import opened Schema
  import opened StackAnalysis
  import opened StackDepth

  // ------------------------------------------------------- executions

  /** A call in progress: where it resumes, and the depth that the analysis expects there. */
  datatype Call = Call(continuation: nat, depth: nat)

  datatype State = State(point: Point, calls: seq<Call>)

  predicate Executes(code: seq<Code>, p: Point) {
    p.index < |code| && code[p.index].effect.Some? && p.depth >= code[p.index].effect.value.pops
  }

  predicate IsCall(c: Code) { c.opcode == OP_GOSUB && c.successors.Split? }

  predicate IsReturn(c: Code) { c.opcode == OP_RET && c.successors.Terminate? }

  /** One instruction: a call leaves its continuation for the return to resume; any other
      instruction follows edge `k`. */
  predicate Moves(code: seq<Code>, s: State, k: nat, t: State) {
    && Executes(code, s.point)
    && var c, d := code[s.point.index], s.point.depth;
       if IsCall(c) then
         t == State(Point(c.successors.taken, Peak(c, d)), s.calls + [Call(c.successors.notTaken, Output(c, d))])
       else if IsReturn(c) then
         && s.calls != []
         && t == State(Point(s.calls[|s.calls| - 1].continuation, Output(c, d)), s.calls[..|s.calls| - 1])
       else
         Flows(code, s.point, k, t.point) && t.calls == s.calls
  }

  ghost predicate Continues(code: seq<Code>, s: State, t: State) { exists k: nat :: Moves(code, s, k, t) }

  ghost predicate IsExecution(code: seq<Code>, e: seq<State>) {
    && |e| > 0 && e[0] == State(Point(0, 0), [])
    && forall n: nat :: 0 < n < |e| ==> Continues(code, e[n - 1], e[n])
  }

  ghost predicate Attained(code: seq<Code>, s: State) {
    exists e: seq<State> :: IsExecution(code, e) && e[|e| - 1] == s
  }

  lemma AttainedNext(code: seq<Code>, s: State, k: nat, t: State)
    requires Attained(code, s) && Moves(code, s, k, t)
    ensures Attained(code, t)
  {
    var e: seq<State> :| IsExecution(code, e) && e[|e| - 1] == s;
    var f := e + [t];
    forall n: nat | 0 < n < |f| ensures Continues(code, f[n - 1], f[n]) {
      if n < |e| { assert Continues(code, e[n - 1], e[n]); }
    }
    assert IsExecution(code, f);
  }

  // ------------------------------------------------------- when the depths hold

  predicate Recorded(depths: Depths, p: Point) { p.index < |depths| && depths[p.index] == Some(p.depth) }

  /** Every execution enters every instruction at its recorded depth. */
  ghost predicate ExecutionsHold(code: seq<Code>, depths: Depths) {
    forall s: State :: Attained(code, s) ==> Recorded(depths, s.point)
  }

  /** A call enters its subroutine at the recorded depth. */
  predicate EntersRight(code: seq<Code>, depths: Depths, s: State) {
    Executes(code, s.point) && IsCall(code[s.point.index]) ==>
      var c := code[s.point.index];
      Recorded(depths, Point(c.successors.taken, Peak(c, s.point.depth)))
  }

  /** A return finds the stack as deep as its call left it. */
  predicate ReturnsRight(code: seq<Code>, s: State) {
    Executes(code, s.point) && IsReturn(code[s.point.index]) && s.calls != [] ==>
      Output(code[s.point.index], s.point.depth) == s.calls[|s.calls| - 1].depth
  }

  ghost predicate Entered(code: seq<Code>, depths: Depths) {
    forall s: State :: Attained(code, s) ==> EntersRight(code, depths, s)
  }

  /** Every subroutine returns at the depth with which it was called. */
  ghost predicate Balanced(code: seq<Code>) { forall s: State :: Attained(code, s) ==> ReturnsRight(code, s) }

  /** Where every call in progress resumes, its depth is the recorded one. */
  predicate CallsRecorded(depths: Depths, calls: seq<Call>) {
    forall j :: 0 <= j < |calls| ==> Recorded(depths, Point(calls[j].continuation, calls[j].depth))
  }

  /** The continuation of a call is reached by a checked edge. */
  lemma ContinuationRecorded(code: seq<Code>, policy: Policy, depths: Depths, p: Point)
    requires Certifies(code, policy, depths) && Recorded(depths, p) && Executes(code, p) && IsCall(code[p.index])
    ensures Recorded(depths, Point(code[p.index].successors.notTaken, Output(code[p.index], p.depth)))
  {
    assert Settled(code, policy, depths, p.index);
    assert Arrives(policy, depths, Hops(code[p.index], p.depth)[1]);
  }

  lemma OrdinaryRecorded(code: seq<Code>, policy: Policy, depths: Depths, p: Point, k: nat, q: Point)
    requires Certifies(code, policy, depths) && Recorded(depths, p) && Flows(code, p, k, q)
    requires !IsCall(code[p.index])
    ensures Recorded(depths, q)
  {
    assert Settled(code, policy, depths, p.index);
    assert Arrives(policy, depths, Hops(code[p.index], p.depth)[k]);
  }

  lemma AgreeingEntry(code: seq<Code>, depths: Depths, s: State)
    requires Agrees(code, depths) && Recorded(depths, s.point)
    ensures EntersRight(code, depths, s)
  {
    if Executes(code, s.point) { assert EdgeAgrees(code, depths, s.point.index, s.point.depth, 0); }
  }

  /** One instruction keeps calls recorded; and the point as well, if calls and returns are right. */
  lemma MoveKeeps(code: seq<Code>, policy: Policy, depths: Depths, s: State, k: nat, t: State)
    requires Certifies(code, policy, depths) && Moves(code, s, k, t)
    requires Recorded(depths, s.point) && CallsRecorded(depths, s.calls)
    ensures CallsRecorded(depths, t.calls)
    ensures EntersRight(code, depths, s) && ReturnsRight(code, s) ==> Recorded(depths, t.point)
  {
    var c := code[s.point.index];
    if IsCall(c) {
      ContinuationRecorded(code, policy, depths, s.point);
    } else if !IsReturn(c) {
      OrdinaryRecorded(code, policy, depths, s.point, k, t.point);
    }
  }

  lemma {:induction false} ExecutionKeeps(code: seq<Code>, policy: Policy, depths: Depths, e: seq<State>)
    requires Certifies(code, policy, depths) && IsExecution(code, e)
    requires ExecutionsHold(code, depths) || (Balanced(code) && (Entered(code, depths) || Agrees(code, depths)))
    ensures Recorded(depths, e[|e| - 1].point) && CallsRecorded(depths, e[|e| - 1].calls)
  {
    assert Attained(code, e[|e| - 1]);
    if |e| > 1 {
      var f, s, t := e[..|e| - 1], e[|e| - 2], e[|e| - 1];
      forall n: nat | 0 < n < |f| ensures Continues(code, f[n - 1], f[n]) { assert Continues(code, e[n - 1], e[n]); }
      assert IsExecution(code, f) && Attained(code, s);
      ExecutionKeeps(code, policy, depths, f);
      assert Continues(code, e[|e| - 2], e[|e| - 1]);
      var k: nat :| Moves(code, s, k, t);
      if Agrees(code, depths) { AgreeingEntry(code, depths, s); }
      MoveKeeps(code, policy, depths, s, k, t);
    }
  }

  /** A state whose call or return is wrong leads to a depth that is not the recorded one. */
  lemma WrongMoveShows(code: seq<Code>, policy: Policy, depths: Depths, s: State)
    requires Certifies(code, policy, depths) && ExecutionsHold(code, depths) && Attained(code, s)
    ensures EntersRight(code, depths, s) && ReturnsRight(code, s)
  {
    var e: seq<State> :| IsExecution(code, e) && e[|e| - 1] == s;
    ExecutionKeeps(code, policy, depths, e);
    if Executes(code, s.point) {
      var c, d := code[s.point.index], s.point.depth;
      if IsCall(c) {
        var t := State(Point(c.successors.taken, Peak(c, d)), s.calls + [Call(c.successors.notTaken, Output(c, d))]);
        assert Moves(code, s, 0, t);
        AttainedNext(code, s, 0, t);
      } else if IsReturn(c) && s.calls != [] {
        var t := State(Point(s.calls[|s.calls| - 1].continuation, Output(c, d)), s.calls[..|s.calls| - 1]);
        assert Moves(code, s, 0, t);
        AttainedNext(code, s, 0, t);
      }
    }
  }

  /** The depths of a certificate hold on every execution exactly when subroutines are entered
      at their recorded depth and return at the depth with which they were called. */
  lemma ExecutionsHoldExactly(code: seq<Code>, policy: Policy, depths: Depths)
    requires Certifies(code, policy, depths)
    ensures ExecutionsHold(code, depths) <==> Entered(code, depths) && Balanced(code)
    ensures Agrees(code, depths) && Balanced(code) ==> ExecutionsHold(code, depths)
  {
    if ExecutionsHold(code, depths) {
      forall s: State | Attained(code, s) ensures EntersRight(code, depths, s) && ReturnsRight(code, s) {
        WrongMoveShows(code, policy, depths, s);
      }
    } else if Balanced(code) && (Entered(code, depths) || Agrees(code, depths)) {
      forall s: State | Attained(code, s) ensures Recorded(depths, s.point) {
        var e: seq<State> :| IsExecution(code, e) && e[|e| - 1] == s;
        ExecutionKeeps(code, policy, depths, e);
      }
    }
  }

  /** For a consistent body that the analysis accepts, only the returns are in question. */
  lemma BalancedExactly(code: seq<Code>, policy: Policy, c: StackCertificate)
    requires Sound(code, policy, c) && Consistent(code, policy)
    ensures ExecutionsHold(code, c.depths) <==> Balanced(code)
  {
    DepthsHoldExactly(code, policy, c);
    HoldingEdgesAgree(code, policy, c);
    ExecutionsHoldExactly(code, policy, c.depths);
  }

  /** Where the depths hold, no execution misses an operand or exceeds the computed size. */
  lemma ExecutionsSafe(code: seq<Code>, policy: Policy, c: StackCertificate, s: State)
    requires Sound(code, policy, c) && ExecutionsHold(code, c.depths) && Attained(code, s)
    ensures s.point.index < |code| && EnterableAt(code, policy, s.point.index, s.point.depth)
    ensures Peak(code[s.point.index], s.point.depth) <= c.size <= policy.maxDepth
  {
    assert Recorded(c.depths, s.point);
    assert PeakWithin(code, policy, c.depths, s.point.index, c.size);
    if c.size > 0 {
      var i: nat :| i in Reached(c.depths) && PeakAt(code, policy, c.depths, i, c.size);
    }
  }

  // ------------------------------------------------------- a deferred join

  /** Two calls of one finally subroutine, the second with a value more on the stack. */
  function TwoCalls(): seq<Code> {
    [ Code(OP_GOSUB, Some(Effect(0, 0)), Split(3, 1)),
      Code(OP_PUSH_CONST, Some(Effect(0, 1)), Next(2)),
      Code(OP_GOSUB, Some(Effect(0, 0)), Split(3, 4)),
      Code(OP_RET, Some(Effect(1, 0)), Terminate),
      Code(OP_RETURN, Some(Effect(1, 0)), Terminate) ]
  }

  const ONE_DEPTH: Depths := [Some(0), Some(0), Some(1), Some(1), Some(1)]

  lemma TwoCallsCertified(policy: Policy)
    requires policy.maxDepth >= 2 && policy.emptyExits
    ensures Certifies(TwoCalls(), policy, ONE_DEPTH)
  {
    var code := TwoCalls();
    forall i: nat | i < |code| ensures Settled(code, policy, ONE_DEPTH, i) {
      assert i == 0 || i == 1 || i == 2 || i == 3 || i == 4;
    }
  }

  lemma TwoCallsEdge(i: nat, k: nat)
    requires i != 2 || k != 0
    ensures Carried(TwoCalls(), ONE_DEPTH, i, k)
  {
    if i < 5 { assert i == 0 || i == 1 || i == 2 || i == 3 || i == 4; }
  }

  /** The first call finds the subroutine before the second one does. */
  lemma TwoCallsFirst()
    ensures FirstArrivals(TwoCalls(), ONE_DEPTH)
  {
    var code := TwoCalls();
    forall n: nat, k: nat | Finds(code, n, k) ensures Carried(code, ONE_DEPTH, Order(code, n)[n], k) {
      var i := Order(code, n)[n];
      assert i != 2 || k != 0 by { if i == 2 { SecondCallLater(n); } }
      TwoCallsEdge(i, k);
    }
  }

  lemma SecondCallLater(n: nat)
    requires n < |Order(TwoCalls(), n)| && Order(TwoCalls(), n)[n] == 2
    ensures 3 in Order(TwoCalls(), n)
  {
    FirstFresh(TwoCalls());
    OrderGrows(TwoCalls(), 1, n);
  }

  lemma FirstFresh(code: seq<Code>)
    requires code == TwoCalls()
    ensures |Order(code, 1)| > 1 && Order(code, 1)[1] == 3
  {
    var targets := Targets(code[0]);
    assert targets == [3, 1] && targets[..1] == [3] && [3][..0] == [];
    assert Fresh({0}, [3]) == [3];
    assert Elements([0]) == {0};
  }

  lemma TwoCallsDepths(policy: Policy)
    ensures Arrivable(TwoCalls(), policy, Point(3, 1)) && Arrivable(TwoCalls(), policy, Point(3, 2))
  {
    var code := TwoCalls();
    var a, b, c := Point(0, 0), Point(1, 0), Point(2, 1);
    assert IsRun(code, policy, true, [a]) && Arrivable(code, policy, a);
    assert Flows(code, a, 0, Point(3, 1)) && Flows(code, a, 1, b) && Flows(code, b, 0, c);
    RunExtends(code, policy, a, 0, Point(3, 1));
    RunExtends(code, policy, a, 1, b);
    RunExtends(code, policy, b, 0, c);
    assert Flows(code, c, 0, Point(3, 2));
    RunExtends(code, policy, c, 0, Point(3, 2));
  }

  /** Under the empty-exit rule the analysis accepts this body, and the depths that it returns
      do not hold: the subroutine is entered at two depths. */
  method DeferredJoinDiffers(policy: Policy) returns (r: Result<StackCertificate, StackError>)
    requires policy.maxDepth >= 2 && policy.emptyExits && policy.maxEvaluations >= 5
    ensures r.Ok? && Sound(TwoCalls(), policy, r.value) && !DepthsHold(TwoCalls(), policy, r.value.depths)
  {
    TwoCallsAccepted(policy);
    TwoCallsDepths(policy);
    r := AnalyzeOrdinaryStack(TwoCalls(), policy);
  }

  lemma TwoCallsAccepted(policy: Policy)
    requires policy.maxDepth >= 2 && policy.emptyExits && policy.maxEvaluations >= 5
    ensures Accepted(TwoCalls(), policy)
  {
    TwoCallsCertified(policy);
    TwoCallsFirst();
    SubsetSize(Reached(ONE_DEPTH), Below(5));
    assert FirstAssigns(TwoCalls(), policy, ONE_DEPTH);
  }

  /** The same calls of a subroutine that needs a value below its return address. */
  function NeedyCalls(): seq<Code> {
    [ Code(OP_GOSUB, Some(Effect(0, 0)), Split(3, 1)),
      Code(OP_PUSH_CONST, Some(Effect(0, 1)), Next(2)),
      Code(OP_GOSUB, Some(Effect(0, 0)), Split(3, 4)),
      Code(OP_NIP, Some(Effect(2, 1)), Next(5)),
      Code(OP_RETURN, Some(Effect(1, 0)), Terminate),
      Code(OP_RET, Some(Effect(1, 0)), Terminate) ]
  }

  const NEEDY_DEPTH: Depths := [Some(0), Some(0), Some(1), Some(2), Some(1), Some(1)]

  /** With a deferred join the order of arrival matters: these depths are respected by every
      checked edge, but they are not those of first arrivals, and the body is refused. */
  lemma OrderMatters(policy: Policy)
    requires policy.maxDepth >= 2 && policy.emptyExits
    ensures Certifies(NeedyCalls(), policy, NEEDY_DEPTH) && !Accepted(NeedyCalls(), policy)
  {
    var code := NeedyCalls();
    forall i: nat | i < |code| ensures Settled(code, policy, NEEDY_DEPTH, i) {
      assert i == 0 || i == 1 || i == 2 || i == 3 || i == 4 || i == 5;
    }
    assert Order(code, 0) == [0] && Finds(code, 0, 0);
    forall v: Depths | Certifies(code, policy, v) ensures !FirstArrivals(code, v) {
      FirstCallTooShallow(policy, v);
      assert !Carried(code, v, Order(code, 0)[0], 0);
    }
  }

  /** At the depth of the first call the subroutine lacks an operand. */
  lemma FirstCallTooShallow(policy: Policy, v: Depths)
    requires Certifies(NeedyCalls(), policy, v)
    ensures !Carried(NeedyCalls(), v, 0, 0)
  {
    assert v[3].Some? ==> Settled(NeedyCalls(), policy, v, 3);
  }

  // ------------------------------------------------------- an unbalanced return

  /** A finally subroutine that leaves a value below its return address. */
  function LeavesValue(): seq<Code> {
    [ Code(OP_GOSUB, Some(Effect(0, 0)), Split(2, 1)),
      Code(OP_RETURN_UNDEF, Some(Effect(0, 0)), Terminate),
      Code(OP_PUSH_CONST, Some(Effect(0, 1)), Next(3)),
      Code(OP_SWAP, Some(Effect(2, 2)), Next(4)),
      Code(OP_RET, Some(Effect(1, 0)), Terminate) ]
  }

  const LEFT_DEPTH: Depths := [Some(0), Some(0), Some(1), Some(2), Some(2)]

  lemma LeavesValueSettled(policy: Policy, i: nat)
    requires policy.maxDepth >= 2 && i < 5
    ensures Settled(LeavesValue(), policy, LEFT_DEPTH, i)
  {
    var code := LeavesValue();
    if i == 0 {
      assert Hops(code[0], 0) == [Hop(2, 1, true), Hop(1, 0, false)];
    } else if i == 1 {
      assert Hops(code[1], 0) == [];
    } else if i == 2 {
      assert Hops(code[2], 1) == [Hop(3, 2, false)];
    } else if i == 3 {
      assert Hops(code[3], 2) == [Hop(4, 2, false)];
    } else {
      assert Hops(code[4], 2) == [];
    }
  }

  lemma LeavesValueCertified(policy: Policy)
    requires policy.maxDepth >= 2
    ensures Certifies(LeavesValue(), policy, LEFT_DEPTH)
  {
    forall i: nat | i < 5 ensures Settled(LeavesValue(), policy, LEFT_DEPTH, i) { LeavesValueSettled(policy, i); }
  }

  lemma LeavesValueEdge(i: nat, k: nat)
    requires i < 5
    ensures EdgeAgrees(LeavesValue(), LEFT_DEPTH, i, LEFT_DEPTH[i].value, k)
  {
    assert i == 0 || i == 1 || i == 2 || i == 3 || i == 4;
  }

  lemma LeavesValueConsistent(policy: Policy)
    requires policy.maxDepth >= 2 && policy.maxEvaluations >= 5
    ensures Consistent(LeavesValue(), policy)
  {
    LeavesValueCertified(policy);
    SubsetSize(Reached(LEFT_DEPTH), Below(5));
    assert Agrees(LeavesValue(), LEFT_DEPTH) by {
      forall i: nat, k: nat | i < 5 ensures EdgeAgrees(LeavesValue(), LEFT_DEPTH, i, LEFT_DEPTH[i].value, k) {
        LeavesValueEdge(i, k);
      }
    }
    assert Assigns(LeavesValue(), policy, LEFT_DEPTH);
  }

  lemma LeavesValueMoves(calls: seq<Call>)
    ensures Moves(LeavesValue(), State(Point(0, 0), []), 0, State(Point(2, 1), [Call(1, 0)]))
    ensures Moves(LeavesValue(), State(Point(2, 1), calls), 0, State(Point(3, 2), calls))
    ensures Moves(LeavesValue(), State(Point(3, 2), calls), 0, State(Point(4, 2), calls))
    ensures calls == [Call(1, 0)] ==> !ReturnsRight(LeavesValue(), State(Point(4, 2), calls))
  {}

  lemma ThreeMoves(code: seq<Code>, s: State, t: State, u: State)
    requires Moves(code, State(Point(0, 0), []), 0, s) && Moves(code, s, 0, t) && Moves(code, t, 0, u)
    ensures Attained(code, u)
  {
    var start := State(Point(0, 0), []);
    assert IsExecution(code, [start]) && [start][0] == start;
    AttainedNext(code, start, 0, s);
    AttainedNext(code, s, 0, t);
    AttainedNext(code, t, 0, u);
  }

  lemma LeavesValueUnbalanced()
    ensures !Balanced(LeavesValue())
  {
    var calls := [Call(1, 0)];
    LeavesValueMoves(calls);
    ThreeMoves(LeavesValue(), State(Point(2, 1), calls), State(Point(3, 2), calls), State(Point(4, 2), calls));
  }

  /** The analysis accepts this body and its depths hold along all edges, but not on the
      execution that returns: the continuation is resumed with a value too many. */
  method UnbalancedReturnDiffers(policy: Policy) returns (r: Result<StackCertificate, StackError>)
    requires policy.maxDepth >= 2 && policy.maxEvaluations >= 5
    ensures r.Ok? && DepthsHold(LeavesValue(), policy, r.value.depths)
    ensures r.Ok? && !ExecutionsHold(LeavesValue(), r.value.depths)
  {
    LeavesValueConsistent(policy);
    LeavesValueUnbalanced();
    r := AnalyzeOrdinaryStack(LeavesValue(), policy);
    BalancedExactly(LeavesValue(), policy, r.value);
  }
}
