/** What an ordinary-stack certificate means: depths of instructions, runs, and the
    conditions under which recorded depths hold on every run. */
module StackDepth {
  import opened Finite
  import opened Schema

  datatype Successors = Next(target: nat) | Split(taken: nat, notTaken: nat) | Terminate

  datatype Effect = Effect(pops: nat, pushes: nat)

  /** An instruction as this pass sees it; no effect means that the schema gives none. */
  datatype Code = Code(opcode: nat, effect: Option<Effect>, successors: Successors)

  datatype Policy = Policy(maxDepth: u32, maxEvaluations: u64, emptyExits: bool, generator: bool)

  type Depths = seq<Option<nat>>

  // ------------------------------------------------------- what one instruction does

  /** Depth after an instruction entered at depth `d`. */
  function Output(c: Code, d: nat): nat
    requires c.effect.Some? && d >= c.effect.value.pops
  {
    d - c.effect.value.pops + c.effect.value.pushes
  }

  /** Values that only the taken side finds: a return address or a resolved binding. */
  function TakenExtra(opcode: nat): nat {
    if opcode in {OP_GOSUB, OP_WITH_GET_VAR, OP_WITH_DELETE_VAR} then 1
    else if opcode in {OP_WITH_MAKE_REF, OP_WITH_GET_REF} then 2
    else 0
  }

  function Peak(c: Code, d: nat): nat
    requires c.effect.Some? && d >= c.effect.value.pops
  {
    Output(c, d) + TakenExtra(c.opcode)
  }

  /** An edge of control flow with the depth it carries; `subroutine` marks the entry of a
      finally subroutine. */
  datatype Hop = Hop(target: nat, depth: nat, subroutine: bool)

  function Hops(c: Code, d: nat): (h: seq<Hop>)
    requires c.effect.Some? && d >= c.effect.value.pops
    ensures |h| <= 2
  {
    match c.successors
    case Next(t) => [Hop(t, Output(c, d), false)]
    case Split(taken, notTaken) =>
      [Hop(taken, Peak(c, d), c.opcode == OP_GOSUB), Hop(notTaken, Output(c, d), false)]
    case Terminate => []
  }

  /** How much deeper the taken side of a split is entered: by the return address of a gosub,
      by the value that a resolved read or deletion pushes, by the two values of a resolved
      reference, and otherwise not at all. */
  lemma TakenSide(c: Code, d: nat)
    requires c.successors.Split? && c.effect.Some? && d >= c.effect.value.pops
    ensures var h := Hops(c, d);
            && |h| == 2 && h[0].target == c.successors.taken && h[1].target == c.successors.notTaken
            && h[1].depth == d - c.effect.value.pops + c.effect.value.pushes
            && h[0].depth == h[1].depth + (match c.opcode
                                           case 109 => 1
                                           case 114 => 1
                                           case 116 => 1
                                           case 117 => 2
                                           case 118 => 2
                                           case _ => 0)
            && h[0].subroutine == (c.opcode == OP_GOSUB) && !h[1].subroutine
  {}

  /** The entry depth of a finally subroutine is left to a later pass. */
  predicate Deferred(policy: Policy, h: Hop) { policy.emptyExits && h.subroutine }

  predicate HasGosub(code: seq<Code>) { exists i :: 0 <= i < |code| && code[i].opcode == OP_GOSUB }

  /** Terminating instructions that may leave values behind. */
  predicate MayLeaveValues(code: seq<Code>, policy: Policy, opcode: nat) {
    || opcode in {OP_THROW, OP_THROW_ERROR, OP_TAIL_CALL, OP_TAIL_CALL_METHOD, OP_TAIL_APPLY, OP_TAIL_EVAL,
                  OP_TAIL_APPLY_EVAL, OP_RET}
    || (policy.generator && opcode == OP_RETURN_ASYNC)
    || (HasGosub(code) && opcode in {OP_RETURN, OP_RETURN_UNDEF, OP_THROW})
  }

  /** Instruction `i` may be entered at depth `d`. */
  predicate EnterableAt(code: seq<Code>, policy: Policy, i: nat, d: nat)
    requires i < |code|
  {
    var c := code[i];
    && c.effect.Some? && d >= c.effect.value.pops && Peak(c, d) <= policy.maxDepth
    && (c.successors.Terminate? && policy.emptyExits && !MayLeaveValues(code, policy, c.opcode) ==> Output(c, d) == 0)
  }

  /** An edge arrives where its depth is the recorded one, or is deferred. */
  predicate Arrives(policy: Policy, depths: Depths, h: Hop) {
    && h.target < |depths| && depths[h.target].Some?
    && (depths[h.target].value == h.depth || Deferred(policy, h))
  }

  predicate Settled(code: seq<Code>, policy: Policy, depths: Depths, i: nat)
    requires i < |code|
  {
    && i < |depths| && depths[i].Some? && EnterableAt(code, policy, i, depths[i].value)
    && forall k :: 0 <= k < |Hops(code[i], depths[i].value)| ==>
                     Arrives(policy, depths, Hops(code[i], depths[i].value)[k])
  }

  /** A depth assignment that every edge respects. */
  predicate Certifies(code: seq<Code>, policy: Policy, depths: Depths) {
    && 0 < |code| == |depths| && depths[0] == Some(0)
    && forall i: nat :: i < |code| && depths[i].Some? ==> Settled(code, policy, depths, i)
  }

  // ------------------------------------------------------- runs

  datatype Point = Point(index: nat, depth: nat)

  /** Control passes from `a` to `b` along edge `k`. */
  predicate Flows(code: seq<Code>, a: Point, k: nat, b: Point) {
    && a.index < |code| && code[a.index].effect.Some? && a.depth >= code[a.index].effect.value.pops
    && k < |Hops(code[a.index], a.depth)|
    && Hops(code[a.index], a.depth)[k].target == b.index && Hops(code[a.index], a.depth)[k].depth == b.depth
  }

  ghost predicate Steps(code: seq<Code>, policy: Policy, deferring: bool, a: Point, b: Point) {
    exists k: nat :: Flows(code, a, k, b) && (deferring || !Deferred(policy, Hops(code[a.index], a.depth)[k]))
  }

  /** A run along the edges that the analysis follows, from the entry with an empty stack: a
      gosub enters its subroutine or passes straight to its continuation, and a return ends
      the run. Unless `deferring`, along checked edges only. */
  ghost predicate IsRun(code: seq<Code>, policy: Policy, deferring: bool, r: seq<Point>) {
    && |r| > 0 && r[0] == Point(0, 0)
    && forall n :: 0 < n < |r| ==> Stepped(code, policy, deferring, r, n)
  }

  ghost predicate Stepped(code: seq<Code>, policy: Policy, deferring: bool, r: seq<Point>, n: nat)
    requires 0 < n < |r|
  {
    Steps(code, policy, deferring, r[n - 1], r[n])
  }

  ghost predicate Arrivable(code: seq<Code>, policy: Policy, p: Point) {
    exists r: seq<Point> :: IsRun(code, policy, true, r) && r[|r| - 1] == p
  }

  /** No edge, deferred or not, carries a depth other than the recorded one. */
  ghost predicate Agrees(code: seq<Code>, depths: Depths) {
    forall i: nat, k: nat ::
      i < |code| && i < |depths| && depths[i].Some? ==> EdgeAgrees(code, depths, i, depths[i].value, k)
  }

  predicate EdgeAgrees(code: seq<Code>, depths: Depths, i: nat, d: nat, k: nat)
    requires i < |code|
  {
    code[i].effect.Some? && d >= code[i].effect.value.pops && k < |Hops(code[i], d)| ==>
      Hops(code[i], d)[k].target < |depths| && depths[Hops(code[i], d)[k].target] == Some(Hops(code[i], d)[k].depth)
  }

  /** Soundness: on every run along checked edges, and on every run at all if the deferred
      edges agree, each instruction is entered at its recorded depth, finds its operands, and
      stays within the depth limit. */
  lemma {:induction false} CertifiedRun(code: seq<Code>, policy: Policy, deferring: bool, depths: Depths, r: seq<Point>)
    requires Certifies(code, policy, depths) && IsRun(code, policy, deferring, r)
    requires deferring ==> Agrees(code, depths)
    ensures var p := r[|r| - 1];
            p.index < |code| && depths[p.index] == Some(p.depth) && EnterableAt(code, policy, p.index, p.depth)
  {
    if |r| > 1 {
      var q := r[..|r| - 1];
      forall n | 0 < n < |q| ensures Stepped(code, policy, deferring, q, n) {
        assert Stepped(code, policy, deferring, r, n);
      }
      CertifiedRun(code, policy, deferring, depths, q);
      var a, b := r[|r| - 2], r[|r| - 1];
      assert Stepped(code, policy, deferring, r, |r| - 1);
      var k: nat :| Flows(code, a, k, b) && (deferring || !Deferred(policy, Hops(code[a.index], a.depth)[k]));
      assert Settled(code, policy, depths, a.index);
      assert Arrives(policy, depths, Hops(code[a.index], a.depth)[k]);
      if deferring { assert EdgeAgrees(code, depths, a.index, a.depth, k); }
    }
    assert Settled(code, policy, depths, r[|r| - 1].index);
  }

  /** Without finally subroutines, or without the empty-exit rule, no edge is deferred. */
  predicate NothingDeferred(code: seq<Code>, policy: Policy) { !policy.emptyExits || !HasGosub(code) }

  /** Then all edges agree with every certificate. */
  lemma NothingDeferredAgrees(code: seq<Code>, policy: Policy, depths: Depths)
    requires NothingDeferred(code, policy) && Certifies(code, policy, depths)
    ensures Agrees(code, depths)
  {
    forall i: nat, k: nat | i < |code| && i < |depths| && depths[i].Some?
      ensures EdgeAgrees(code, depths, i, depths[i].value, k)
    {
      assert Settled(code, policy, depths, i);
      var hops := Hops(code[i], depths[i].value);
      if k < |hops| { assert Arrives(policy, depths, hops[k]); }
    }
  }

  lemma RunExtends(code: seq<Code>, policy: Policy, a: Point, k: nat, b: Point)
    requires Arrivable(code, policy, a) && Flows(code, a, k, b)
    ensures Arrivable(code, policy, b)
  {
    var r: seq<Point> :| IsRun(code, policy, true, r) && r[|r| - 1] == a;
    var q := r + [b];
    forall n | 0 < n < |q| ensures Stepped(code, policy, true, q, n) {
      if n < |r| { assert Stepped(code, policy, true, r, n); }
    }
    assert IsRun(code, policy, true, q);
  }

  /** Depths are forced: an arrivable point has its depth in every agreeing certificate. */
  lemma Forced(code: seq<Code>, policy: Policy, depths: Depths, p: Point)
    requires Certifies(code, policy, depths) && Agrees(code, depths) && Arrivable(code, policy, p)
    ensures p.index < |code| && depths[p.index] == Some(p.depth) && EnterableAt(code, policy, p.index, p.depth)
  {
    var r: seq<Point> :| IsRun(code, policy, true, r) && r[|r| - 1] == p;
    CertifiedRun(code, policy, true, depths, r);
  }

  function Reached(depths: Depths): set<nat> { set i: nat | i < |depths| && depths[i].Some? }

  /** Recorded depths are depths of runs. */
  ghost predicate Witnessed(code: seq<Code>, policy: Policy, depths: Depths) {
    forall i: nat :: i < |depths| && depths[i].Some? ==> Arrivable(code, policy, Point(i, depths[i].value))
  }

  // ------------------------------------------------------- first arrivals

  function Targets(c: Code): seq<nat> {
    match c.successors
    case Next(t) => [t]
    case Split(taken, notTaken) => [taken, notTaken]
    case Terminate => []
  }

  /** Targets not seen before, in order and each once. */
  function Fresh(seen: set<nat>, targets: seq<nat>): seq<nat> {
    if targets == [] then []
    else
      var rest, t := targets[..|targets| - 1], targets[|targets| - 1];
      Fresh(seen, rest) + if t in seen || t in rest then [] else [t]
  }

  /** The instructions found, breadth first, once the first `n` of them have been followed;
      a matter of control flow alone. */
  function Order(code: seq<Code>, n: nat): seq<nat> {
    if n == 0 then [0]
    else
      var q := Order(code, n - 1);
      if n - 1 < |q| && q[n - 1] < |code| then q + Fresh(Elements(q), Targets(code[q[n - 1]])) else q
  }

  /** Edge `k` of the `n`-th instruction is the first to find its target. */
  predicate Finds(code: seq<Code>, n: nat, k: nat) {
    var q := Order(code, n);
    && n < |q| && q[n] < |code| && k < |Targets(code[q[n]])|
    && Targets(code[q[n]])[k] !in q && Targets(code[q[n]])[k] !in Targets(code[q[n]])[..k]
  }

  predicate Carried(code: seq<Code>, depths: Depths, i: nat, k: nat) {
    i < |code| && i < |depths| && depths[i].Some? ==> EdgeAgrees(code, depths, i, depths[i].value, k)
  }

  /** Every instruction has the depth that the first edge to find it carries. */
  ghost predicate FirstArrivals(code: seq<Code>, depths: Depths) {
    forall n: nat, k: nat :: Finds(code, n, k) ==> Carried(code, depths, Order(code, n)[n], k)
  }

  // ------------------------------------------------------- which bodies are accepted

  /** Depths of first arrivals, within the evaluation limit, that every checked edge respects. */
  ghost predicate FirstAssigns(code: seq<Code>, policy: Policy, depths: Depths) {
    Certifies(code, policy, depths) && FirstArrivals(code, depths) && |Reached(depths)| <= policy.maxEvaluations
  }

  /** Whether a body is accepted: a question about its control flow and stack effects. */
  ghost predicate Accepted(code: seq<Code>, policy: Policy) {
    exists depths: Depths :: FirstAssigns(code, policy, depths)
  }

  /** Depths within the evaluation limit that every edge respects, deferred ones included. */
  ghost predicate Consistent(code: seq<Code>, policy: Policy) {
    exists depths: Depths :: Assigns(code, policy, depths)
  }

  ghost predicate Assigns(code: seq<Code>, policy: Policy, depths: Depths) {
    Certifies(code, policy, depths) && Agrees(code, depths) && |Reached(depths)| <= policy.maxEvaluations
  }

  /** Depths that every edge respects are those of first arrivals. */
  lemma ConsistentAccepted(code: seq<Code>, policy: Policy)
    requires Consistent(code, policy)
    ensures Accepted(code, policy)
  {
    var v: Depths :| Assigns(code, policy, v);
    assert FirstAssigns(code, policy, v);
  }

  /** Depths within the evaluation limit that every checked edge respects. */
  ghost predicate Acceptable(code: seq<Code>, policy: Policy) {
    exists depths: Depths :: Certifies(code, policy, depths) && |Reached(depths)| <= policy.maxEvaluations
  }

  /** Where nothing is deferred, any respected depths at all will do. */
  lemma NothingDeferredExact(code: seq<Code>, policy: Policy)
    requires NothingDeferred(code, policy)
    ensures Accepted(code, policy) <==> Acceptable(code, policy)
    ensures Consistent(code, policy) <==> Acceptable(code, policy)
  {
    if v: Depths :| Certifies(code, policy, v) && |Reached(v)| <= policy.maxEvaluations {
      NothingDeferredAgrees(code, policy, v);
      assert Assigns(code, policy, v);
      ConsistentAccepted(code, policy);
    }
    if v: Depths :| FirstAssigns(code, policy, v) { assert Certifies(code, policy, v); }
    if v: Depths :| Assigns(code, policy, v) { assert Certifies(code, policy, v); }
  }

  // ------------------------------------------------------- certificates

  /** `m` is the greatest depth at the given recorded instructions, or zero. */
  ghost predicate IsPeak(code: seq<Code>, policy: Policy, depths: Depths, some: set<nat>, m: nat) {
    && (forall i: nat :: i in some ==> PeakWithin(code, policy, depths, i, m))
    && (m == 0 || exists i: nat :: i in some && PeakAt(code, policy, depths, i, m))
  }

  predicate PeakWithin(code: seq<Code>, policy: Policy, depths: Depths, i: nat, m: nat) {
    && i < |code| && i < |depths| && depths[i].Some? && EnterableAt(code, policy, i, depths[i].value)
    && Peak(code[i], depths[i].value) <= m
  }

  predicate PeakAt(code: seq<Code>, policy: Policy, depths: Depths, i: nat, m: nat) {
    && i < |code| && i < |depths| && depths[i].Some? && EnterableAt(code, policy, i, depths[i].value)
    && Peak(code[i], depths[i].value) == m
  }

  datatype StackCertificate = StackCertificate(depths: Depths, size: nat, evaluations: nat)

  /** A certificate: respected by every checked edge, with depths of runs, those of the first
      arrivals, the exact greatest depth, and one evaluation for each reachable instruction. */
  ghost predicate Sound(code: seq<Code>, policy: Policy, c: StackCertificate) {
    && Certifies(code, policy, c.depths) && Witnessed(code, policy, c.depths)
    && FirstArrivals(code, c.depths)
    && IsPeak(code, policy, c.depths, Reached(c.depths), c.size)
    && c.evaluations == |Reached(c.depths)| <= policy.maxEvaluations
  }

  /** Every run enters the instruction it ends at with the recorded depth. */
  ghost predicate DepthsHold(code: seq<Code>, policy: Policy, depths: Depths) {
    forall p: Point :: Arrivable(code, policy, p) ==> p.index < |depths| && depths[p.index] == Some(p.depth)
  }

  /** The recorded depths are those of any assignment that every edge respects. */
  lemma AssignedDepthsHold(code: seq<Code>, policy: Policy, c: StackCertificate, v: Depths)
    requires Sound(code, policy, c) && Assigns(code, policy, v)
    ensures DepthsHold(code, policy, c.depths)
  {
    forall p: Point | Arrivable(code, policy, p) ensures p.index < |code| && c.depths[p.index] == Some(p.depth) {
      var r: seq<Point> :| IsRun(code, policy, true, r) && r[|r| - 1] == p;
      RunRecorded(code, policy, c, v, r);
    }
  }

  /** Along a run, every instruction is recorded, and at the depth that `v` forces. */
  lemma {:induction false} RunRecorded(code: seq<Code>, policy: Policy, c: StackCertificate, v: Depths, r: seq<Point>)
    requires Sound(code, policy, c) && Assigns(code, policy, v) && IsRun(code, policy, true, r)
    ensures var p := r[|r| - 1]; p.index < |code| && c.depths[p.index] == Some(p.depth)
  {
    var p := r[|r| - 1];
    CertifiedRun(code, policy, true, v, r);
    if |r| > 1 {
      var q := r[..|r| - 1];
      forall n | 0 < n < |q| ensures Stepped(code, policy, true, q, n) { assert Stepped(code, policy, true, r, n); }
      RunRecorded(code, policy, c, v, q);
      var a := r[|r| - 2];
      assert Stepped(code, policy, true, r, |r| - 1);
      var k: nat :| Flows(code, a, k, p);
      assert Settled(code, policy, c.depths, a.index);
      assert Arrives(policy, c.depths, Hops(code[a.index], a.depth)[k]);
      assert Arrivable(code, policy, Point(p.index, c.depths[p.index].value));
      Forced(code, policy, v, Point(p.index, c.depths[p.index].value));
    }
  }

  lemma HoldingEdgesAgree(code: seq<Code>, policy: Policy, c: StackCertificate)
    requires Sound(code, policy, c) && DepthsHold(code, policy, c.depths)
    ensures Agrees(code, c.depths)
  {
    forall i: nat, k: nat | i < |code| && i < |c.depths| && c.depths[i].Some?
      ensures EdgeAgrees(code, c.depths, i, c.depths[i].value, k)
    {
      assert Settled(code, policy, c.depths, i);
      var a, hops := Point(i, c.depths[i].value), Hops(code[i], c.depths[i].value);
      if k < |hops| {
        assert Arrivable(code, policy, a) && Flows(code, a, k, Point(hops[k].target, hops[k].depth));
        RunExtends(code, policy, a, k, Point(hops[k].target, hops[k].depth));
      }
    }
  }

  /** Exactly when the depths of an accepted body hold on every run: when the body has an
      assignment of depths that every edge respects, in particular when none is deferred. */
  lemma DepthsHoldExactly(code: seq<Code>, policy: Policy, c: StackCertificate)
    requires Sound(code, policy, c)
    ensures DepthsHold(code, policy, c.depths) <==> Consistent(code, policy)
    ensures NothingDeferred(code, policy) ==> Consistent(code, policy)
  {
    if NothingDeferred(code, policy) {
      NothingDeferredAgrees(code, policy, c.depths);
      assert Assigns(code, policy, c.depths);
    }
    if DepthsHold(code, policy, c.depths) {
      HoldingEdgesAgree(code, policy, c);
      assert Assigns(code, policy, c.depths);
    }
    if v: Depths :| Assigns(code, policy, v) { AssignedDepthsHold(code, policy, c, v); }
  }

  /** Where the depths hold, no run pops below zero or rises above the computed size, and the
      evaluated instructions are exactly those that some run reaches, each evaluated once. */
  lemma AcceptedRuns(code: seq<Code>, policy: Policy, c: StackCertificate, p: Point)
    requires Sound(code, policy, c) && DepthsHold(code, policy, c.depths) && Arrivable(code, policy, p)
    ensures p.index in Reached(c.depths) && EnterableAt(code, policy, p.index, p.depth)
    ensures Peak(code[p.index], p.depth) <= c.size <= policy.maxDepth
    ensures c.evaluations == |Reached(c.depths)| <= |code|
  {
    assert PeakWithin(code, policy, c.depths, p.index, c.size);
    if c.size > 0 {
      var i: nat :| i in Reached(c.depths) && PeakAt(code, policy, c.depths, i, c.size);
    }
    SubsetSize(Reached(c.depths), Below(|code|));
  }
}
