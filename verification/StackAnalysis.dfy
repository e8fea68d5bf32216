/** The ordinary-stack analysis: a worklist records one depth per instruction. */
module StackAnalysis {
  import opened Finite
  import opened Schema
  import opened StackDepth

  // ------------------------------------------------------- the worklist

  /** Once recorded, a depth stays. */
  predicate Extends(before: Depths, after: Depths) {
    |after| == |before| && forall i: nat :: i < |before| && before[i].Some? ==> after[i] == before[i]
  }

  /** Between two instructions: done ones are settled, found ones are done or waiting. */
  ghost predicate Analyzing(code: seq<Code>, policy: Policy, depths: Depths, worklist: seq<nat>, done: set<nat>) {
    && 0 < |code| == |depths| && depths[0] == Some(0) && Witnessed(code, policy, depths)
    && (forall i: nat :: i in done ==> i < |code| && Settled(code, policy, depths, i))
    && Distinct(worklist) && (forall k :: 0 <= k < |worklist| ==> worklist[k] !in done)
    && (forall i: nat :: i in Reached(depths) <==> i in done || i in worklist)
  }

  function HopTargets(hops: seq<Hop>): seq<nat> {
    if hops == [] then [] else HopTargets(hops[..|hops| - 1]) + [hops[|hops| - 1].target]
  }

  /** Edge `k` is the first of them to its target, which has its depth. */
  predicate FirstTo(hops: seq<Hop>, after: Depths, t: nat, k: nat) {
    && k < |hops| && hops[k].target == t < |after| && after[t] == Some(hops[k].depth)
    && forall j :: 0 <= j < k ==> hops[j].target != t
  }

  /** After some edges have been followed. */
  ghost predicate Spreads(before: Depths, after: Depths, policy: Policy, hops: seq<Hop>, found: seq<nat>) {
    && Extends(before, after) && Distinct(found) && found == Fresh(Reached(before), HopTargets(hops))
    && (forall t: nat :: t in found <==> t < |before| && before[t].None? && after[t].Some?)
    && (forall t: nat :: t in found ==> exists k: nat :: FirstTo(hops, after, t, k))
    && (forall k :: 0 <= k < |hops| ==> Arrives(policy, after, hops[k]))
  }

  datatype StackError =
    | EmptyBytecode | EvaluationLimit(index: nat) | NoEffect(index: nat) | Underflow(index: nat)
    | DepthLimit(index: nat) | NonEmptyExit(index: nat) | TargetOutOfBounds(index: nat)
    | InconsistentJoin(index: nat, target: nat)

  /** What a refusal at an instruction entered at depth `d` says. */
  predicate EntryFails(code: seq<Code>, policy: Policy, i: nat, d: nat, e: StackError) {
    && i < |code|
    && match e
       case NoEffect(j) => j == i && code[i].effect.None?
       case Underflow(j) => j == i && code[i].effect.Some? && d < code[i].effect.value.pops
       case DepthLimit(j) =>
         j == i && code[i].effect.Some? && d >= code[i].effect.value.pops && Peak(code[i], d) > policy.maxDepth
       case NonEmptyExit(j) =>
         && j == i && code[i].effect.Some? && d >= code[i].effect.value.pops && Output(code[i], d) > 0
         && code[i].successors.Terminate? && policy.emptyExits && !MayLeaveValues(code, policy, code[i].opcode)
       case _ => false
  }

  /** An edge leads out of the code. */
  predicate Leaves(code: seq<Code>, a: Point, k: nat, b: Point) { Flows(code, a, k, b) && b.index >= |code| }

  /** A checked edge carries a depth that differs from that of another run. */
  ghost predicate Clashes(code: seq<Code>, policy: Policy, a: Point, k: nat, b: Point) {
    && Flows(code, a, k, b) && !Deferred(policy, Hops(code[a.index], a.depth)[k])
    && exists d: nat :: d != b.depth && Arrivable(code, policy, Point(b.index, d))
  }

  /** What a refusal says about the runs of the code. */
  ghost predicate StackErrorMeans(code: seq<Code>, policy: Policy, e: StackError) {
    match e
    case EmptyBytecode => code == []
    case EvaluationLimit(_) =>
      exists depths: Depths :: Witnessed(code, policy, depths) && |Reached(depths)| > policy.maxEvaluations
    case TargetOutOfBounds(i) =>
      exists d: nat, k: nat, b: Point :: Arrivable(code, policy, Point(i, d)) && Leaves(code, Point(i, d), k, b)
    case InconsistentJoin(i, t) =>
      exists d: nat, k: nat, b: Point ::
        Arrivable(code, policy, Point(i, d)) && b.index == t && Clashes(code, policy, Point(i, d), k, b)
    case _ => exists p: Point :: Arrivable(code, policy, p) && EntryFails(code, policy, p.index, p.depth, e)
  }

  /** Follows one edge: records a first depth, and refuses a different one unless deferred. */
  method Propagate(depths: array<Option<nat>>, policy: Policy, h: Hop, found: seq<nat>, ghost before: Depths,
                   ghost hops: seq<Hop>)
    returns (ok: bool, found': seq<nat>)
    requires Spreads(before, depths[..], policy, hops, found)
    modifies depths
    ensures ok ==> Spreads(before, depths[..], policy, hops + [h], found')
    ensures !ok ==> depths[..] == old(depths[..])
    ensures !ok ==> h.target >= depths.Length
                    || (depths[h.target].Some? && depths[h.target].value != h.depth && !Deferred(policy, h))
  {
    found' := found;
    if h.target >= depths.Length {
      return false, found';
    }
    ghost var now := depths[..];
    match depths[h.target]
    case None =>
      depths[h.target] := Some(h.depth);
      found' := found + [h.target];
      SpreadNew(before, now, policy, hops, found, h, depths[..]);
      return true, found';
    case Some(established) =>
      if established == h.depth || (policy.emptyExits && h.subroutine) {
        SpreadOld(before, now, policy, hops, found, h);
        return true, found';
      }
      return false, found';
  }

  lemma HopTargetsSnoc(hops: seq<Hop>, h: Hop)
    ensures HopTargets(hops + [h]) == HopTargets(hops) + [h.target]
  {
    assert (hops + [h])[..|hops|] == hops;
  }

  lemma FreshSnoc(seen: set<nat>, targets: seq<nat>, t: nat)
    ensures Fresh(seen, targets + [t]) == Fresh(seen, targets) + if t in seen || t in targets then [] else [t]
  {
    assert (targets + [t])[..|targets|] == targets;
  }

  lemma {:induction false} TargetListed(hops: seq<Hop>, t: nat)
    ensures t in HopTargets(hops) <==> exists k :: 0 <= k < |hops| && hops[k].target == t
  {
    if hops != [] {
      var rest := hops[..|hops| - 1];
      TargetListed(rest, t);
      assert forall k :: 0 <= k < |rest| ==> rest[k] == hops[k];
    }
  }

  lemma FirstToStays(hops: seq<Hop>, h: Hop, now: Depths, after: Depths, t: nat, k: nat)
    requires FirstTo(hops, now, t, k) && Extends(now, after)
    ensures FirstTo(hops + [h], after, t, k)
  {}

  lemma NewlyFound(before: Depths, now: Depths, policy: Policy, hops: seq<Hop>, found: seq<nat>, h: Hop)
    requires Spreads(before, now, policy, hops, found) && h.target < |now| && now[h.target].None?
    ensures h.target !in found && forall k :: 0 <= k < |hops| ==> hops[k].target != h.target
    ensures Fresh(Reached(before), HopTargets(hops + [h])) == found + [h.target]
  {
    forall k | 0 <= k < |hops| ensures hops[k].target != h.target { assert Arrives(policy, now, hops[k]); }
    TargetListed(hops, h.target);
    HopTargetsSnoc(hops, h);
    FreshSnoc(Reached(before), HopTargets(hops), h.target);
  }

  lemma ArriveStill(policy: Policy, now: Depths, hops: seq<Hop>, h: Hop, after: Depths)
    requires Extends(now, after) && Arrives(policy, after, h)
    requires forall k :: 0 <= k < |hops| ==> Arrives(policy, now, hops[k])
    ensures forall k :: 0 <= k < |hops + [h]| ==> Arrives(policy, after, (hops + [h])[k])
  {
    forall k | 0 <= k < |hops| ensures Arrives(policy, after, hops[k]) { assert Arrives(policy, now, hops[k]); }
  }

  lemma SpreadNew(before: Depths, now: Depths, policy: Policy, hops: seq<Hop>, found: seq<nat>, h: Hop, after: Depths)
    requires Spreads(before, now, policy, hops, found) && h.target < |now| && now[h.target].None?
    requires after == now[h.target := Some(h.depth)]
    ensures Spreads(before, after, policy, hops + [h], found + [h.target])
  {
    var all, list := hops + [h], found + [h.target];
    NewlyFound(before, now, policy, hops, found, h);
    ArriveStill(policy, now, hops, h, after);
    DistinctAppend(found, [h.target]);
    forall t: nat | t in list ensures exists k: nat :: FirstTo(all, after, t, k) {
      if t in found {
        var k: nat :| FirstTo(hops, now, t, k);
        FirstToStays(hops, h, now, after, t, k);
      } else {
        assert FirstTo(all, after, t, |hops|);
      }
    }
  }

  lemma SpreadOld(before: Depths, now: Depths, policy: Policy, hops: seq<Hop>, found: seq<nat>, h: Hop)
    requires Spreads(before, now, policy, hops, found) && Arrives(policy, now, h)
    ensures Spreads(before, now, policy, hops + [h], found)
  {
    var all := hops + [h];
    if h.target !in Reached(before) {
      assert h.target in found;
      var k: nat :| FirstTo(hops, now, h.target, k);
      TargetListed(hops, h.target);
    }
    HopTargetsSnoc(hops, h);
    FreshSnoc(Reached(before), HopTargets(hops), h.target);
    ArriveStill(policy, now, hops, h, now);
    forall t: nat | t in found ensures exists k: nat :: FirstTo(all, now, t, k) {
      var k: nat :| FirstTo(hops, now, t, k);
      FirstToStays(hops, h, now, now, t, k);
    }
  }

  /** Follows all edges out of an instruction; a failure names an edge that contradicts a
      recorded depth or leaves the code. */
  method Spread(depths: array<Option<nat>>, policy: Policy, hops: seq<Hop>)
    returns (failed: Option<nat>, found: seq<nat>)
    modifies depths
    ensures failed.None? ==> Spreads(old(depths[..]), depths[..], policy, hops, found)
    ensures failed.Some? ==> failed.value < |hops|
    ensures failed.Some? ==> Spreads(old(depths[..]), depths[..], policy, hops[..failed.value], found)
    ensures failed.Some? ==> var h := hops[failed.value];
              h.target >= depths.Length
              || (depths[h.target].Some? && depths[h.target].value != h.depth && !Deferred(policy, h))
  {
    found := [];
    for k := 0 to |hops|
      invariant Spreads(old(depths[..]), depths[..], policy, hops[..k], found)
    {
      assert hops[..k + 1] == hops[..k] + [hops[k]];
      var ok, next := Propagate(depths, policy, hops[k], found, old(depths[..]), hops[..k]);
      if !ok {
        return Some(k), found;
      }
      found := next;
    }
    assert hops[..|hops|] == hops;
    return None, found;
  }

  /** Checks on one instruction at its entry depth. */
  method CheckEntry(code: seq<Code>, policy: Policy, i: nat, d: nat, hasGosub: bool) returns (e: Option<StackError>)
    requires i < |code| && hasGosub == HasGosub(code)
    ensures e.None? <==> EnterableAt(code, policy, i, d)
    ensures e.Some? ==> EntryFails(code, policy, i, d, e.value)
  {
    var c := code[i];
    if c.effect.None? {
      return Some(NoEffect(i));
    }
    if d < c.effect.value.pops {
      return Some(Underflow(i));
    }
    var output := d - c.effect.value.pops + c.effect.value.pushes;
    if output > policy.maxDepth {
      return Some(DepthLimit(i));
    }
    if output + TakenExtra(c.opcode) > policy.maxDepth {
      return Some(DepthLimit(i));
    }
    if c.successors.Terminate? && policy.emptyExits && output != 0 {
      var abandons := c.opcode in {OP_THROW, OP_THROW_ERROR, OP_TAIL_CALL, OP_TAIL_CALL_METHOD, OP_TAIL_APPLY,
                                   OP_TAIL_EVAL, OP_TAIL_APPLY_EVAL};
      var resumes := c.opcode == OP_RET;
      var generator := policy.generator && c.opcode == OP_RETURN_ASYNC;
      var defers := hasGosub && c.opcode in {OP_RETURN, OP_RETURN_UNDEF, OP_THROW};
      if !abandons && !resumes && !generator && !defers {
        return Some(NonEmptyExit(i));
      }
    }
    return None;
  }

  // ------------------------------------------------------- steps of the analysis

  function Entry(n: nat): (d: Depths)
    ensures |d| == n && forall i :: 0 <= i < n ==> d[i] == if i == 0 then Some(0) else None
  {
    seq(n, i => if i == 0 then Some(0) else None)
  }

  lemma AnalyzingStart(code: seq<Code>, policy: Policy)
    requires code != []
    ensures Analyzing(code, policy, Entry(|code|), [0], {})
  {
    assert IsRun(code, policy, true, [Point(0, 0)]);
    assert Arrivable(code, policy, Point(0, 0));
  }

  lemma WitnessedAfter(code: seq<Code>, policy: Policy, before: Depths, after: Depths, i: nat, hops: seq<Hop>,
                       found: seq<nat>)
    requires |before| == |code| && Witnessed(code, policy, before) && i < |code| && before[i].Some?
    requires EnterableAt(code, policy, i, before[i].value) && hops <= Hops(code[i], before[i].value)
    requires Spreads(before, after, policy, hops, found)
    ensures Witnessed(code, policy, after)
  {
    var a := Point(i, before[i].value);
    assert Arrivable(code, policy, a);
    forall t: nat | t < |after| && after[t].Some? ensures Arrivable(code, policy, Point(t, after[t].value)) {
      if before[t].None? {
        assert t in found;
        var k: nat :| FirstTo(hops, after, t, k);
        assert Flows(code, a, k, Point(t, after[t].value));
        RunExtends(code, policy, a, k, Point(t, after[t].value));
      } else {
        assert Arrivable(code, policy, Point(t, before[t].value));
      }
    }
  }

  lemma SettledStays(code: seq<Code>, policy: Policy, before: Depths, after: Depths, i: nat)
    requires i < |code| && Settled(code, policy, before, i) && Extends(before, after)
    ensures Settled(code, policy, after, i)
  {
    var hops := Hops(code[i], before[i].value);
    forall k | 0 <= k < |hops| ensures Arrives(policy, after, hops[k]) { assert Arrives(policy, before, hops[k]); }
  }

  lemma WaitingAfter(before: Depths, after: Depths, policy: Policy, hops: seq<Hop>, found: seq<nat>, i: nat,
                     rest: seq<nat>, done: set<nat>)
    requires Spreads(before, after, policy, hops, found) && Distinct([i] + rest)
    requires forall k :: 0 <= k < |[i] + rest| ==> ([i] + rest)[k] !in done
    requires forall j: nat :: j in Reached(before) <==> j in done || j in [i] + rest
    ensures Distinct(rest + found)
    ensures forall k :: 0 <= k < |rest + found| ==> (rest + found)[k] !in done + {i}
    ensures forall j: nat :: j in Reached(after) <==> j in done + {i} || j in rest + found
  {
    var all := [i] + rest;
    forall x | x in rest ensures x in Reached(before) && x != i && x !in done {
      var k :| 0 <= k < |rest| && rest[k] == x;
      assert all[k + 1] == x && all[0] == i;
    }
    forall j, k | 0 <= j < k < |rest| ensures rest[j] != rest[k] { assert all[j + 1] != all[k + 1]; }
    forall x | x in found ensures x !in Reached(before) { assert before[x].None?; }
    DistinctAppend(rest, found);
    forall k | 0 <= k < |rest + found| ensures (rest + found)[k] !in done + {i} {
      var x := (rest + found)[k];
      assert x in rest || x in found;
      assert i in all;
    }
  }

  lemma SettledAfter(code: seq<Code>, policy: Policy, before: Depths, after: Depths, i: nat, done: set<nat>,
                     found: seq<nat>)
    requires i < |code| == |before| && before[i].Some? && EnterableAt(code, policy, i, before[i].value)
    requires Spreads(before, after, policy, Hops(code[i], before[i].value), found)
    requires forall j: nat :: j in done ==> j < |code| && Settled(code, policy, before, j)
    ensures forall j: nat :: j in done + {i} ==> j < |code| && Settled(code, policy, after, j)
  {
    forall j: nat | j in done ensures j < |code| && Settled(code, policy, after, j) {
      SettledStays(code, policy, before, after, j);
    }
    assert after[i] == before[i];
  }

  /** Following the edges out of the first waiting instruction keeps the state. */
  lemma AnalyzingStep(code: seq<Code>, policy: Policy, before: Depths, i: nat, rest: seq<nat>, done: set<nat>,
                      after: Depths, found: seq<nat>)
    requires Analyzing(code, policy, before, [i] + rest, done) && i < |code| && before[i].Some?
    requires EnterableAt(code, policy, i, before[i].value)
    requires Spreads(before, after, policy, Hops(code[i], before[i].value), found)
    ensures Analyzing(code, policy, after, rest + found, done + {i})
  {
    var hops := Hops(code[i], before[i].value);
    WitnessedAfter(code, policy, before, after, i, hops, found);
    WaitingAfter(before, after, policy, hops, found, i, rest, done);
    SettledAfter(code, policy, before, after, i, done, found);
  }

  /** The head of the worklist is a recorded instruction that is not done. */
  lemma Waiting(code: seq<Code>, policy: Policy, depths: Depths, worklist: seq<nat>, done: set<nat>)
    requires Analyzing(code, policy, depths, worklist, done)
    ensures |done| <= |code| && done <= Reached(depths)
    ensures worklist != [] ==> worklist[0] < |code| && depths[worklist[0]].Some? && worklist[0] !in done
                               && |done| < |code| && done + {worklist[0]} <= Reached(depths)
  {
    SubsetSize(done, Below(|code|));
    if worklist != [] {
      assert worklist[0] in Reached(depths);
      SubsetSize(done + {worklist[0]}, Below(|code|));
    }
  }

  // ------------------------------------------------------- breadth-first order

  /** The state follows the breadth-first order, and every acceptable assignment extends it. */
  ghost predicate InOrder(code: seq<Code>, policy: Policy, depths: Depths, worklist: seq<nat>, n: nat) {
    && n <= |Order(code, n)| && worklist == Order(code, n)[n..] && Reached(depths) == Elements(Order(code, n))
    && FirstSoFar(code, depths, n) && Foreseen(code, policy, depths)
  }

  ghost predicate FirstSoFar(code: seq<Code>, depths: Depths, n: nat) {
    forall m: nat, k: nat :: m < n && Finds(code, m, k) ==> Carried(code, depths, Order(code, m)[m], k)
  }

  ghost predicate Foreseen(code: seq<Code>, policy: Policy, depths: Depths) {
    forall v: Depths :: FirstAssigns(code, policy, v) ==> Extends(depths, v)
  }

  lemma InOrderStart(code: seq<Code>, policy: Policy)
    requires code != []
    ensures InOrder(code, policy, Entry(|code|), [0], 0)
  {
    assert Reached(Entry(|code|)) == {0} == Elements([0]);
  }

  lemma {:induction false} HopTargetsOf(c: Code, d: nat)
    requires c.effect.Some? && d >= c.effect.value.pops
    ensures HopTargets(Hops(c, d)) == Targets(c)
    ensures |Hops(c, d)| == |Targets(c)| && forall k :: 0 <= k < |Targets(c)| ==> Hops(c, d)[k].target == Targets(c)[k]
  {
    var hops := Hops(c, d);
    if |hops| == 2 {
      assert hops[..1] == [hops[0]] && [hops[0]][..0] == [];
      assert HopTargets(hops[..1]) == [hops[0].target];
    } else if |hops| == 1 {
      assert hops[..0] == [];
    }
  }

  lemma {:induction false} OrderGrows(code: seq<Code>, m: nat, n: nat)
    requires m <= n
    ensures Order(code, m) <= Order(code, n)
  {
    if m < n {
      var q := Order(code, n - 1);
      OrderGrows(code, m, n - 1);
      assert q <= Order(code, n);
    }
  }

  lemma {:induction false} OrderStops(code: seq<Code>, m: nat)
    requires m > 0 && m - 1 >= |Order(code, m - 1)|
    ensures Order(code, m) == Order(code, m - 1)
  {}

  lemma {:induction false} OrderComplete(code: seq<Code>, n: nat, m: nat)
    requires |Order(code, n)| <= n <= m
    ensures Order(code, m) == Order(code, n)
    decreases m - n
  {
    if n < m {
      OrderStops(code, n + 1);
      OrderComplete(code, n + 1, m);
    }
  }

  /** The edge that found `t` is the first one to do so in the breadth-first order. */
  lemma FoundFirst(code: seq<Code>, before: Depths, after: Depths, i: nat, hops: seq<Hop>, n: nat, t: nat, k: nat)
    requires i < |code| == |before| == |after| && before[i].Some? && code[i].effect.Some?
    requires before[i].value >= code[i].effect.value.pops && hops <= Hops(code[i], before[i].value)
    requires n < |Order(code, n)| && Order(code, n)[n] == i && Reached(before) == Elements(Order(code, n))
    requires t < |before| && before[t].None? && FirstTo(hops, after, t, k)
    ensures Finds(code, n, k)
  {
    HopTargetsOf(code[i], before[i].value);
    assert t !in Reached(before);
    var targets := Targets(code[i]);
    forall j | 0 <= j < k ensures targets[j] != t { assert hops[j].target == targets[j]; }
  }

  /** So every acceptable assignment foresees the depths recorded next. */
  lemma ForeseenAfter(code: seq<Code>, policy: Policy, before: Depths, after: Depths, i: nat, hops: seq<Hop>,
                      found: seq<nat>, rest: seq<nat>, n: nat)
    requires |before| == |code| && InOrder(code, policy, before, [i] + rest, n) && i < |code| && before[i].Some?
    requires EnterableAt(code, policy, i, before[i].value) && hops <= Hops(code[i], before[i].value)
    requires Spreads(before, after, policy, hops, found)
    ensures Foreseen(code, policy, after)
  {
    assert Order(code, n)[n..][0] == i;
    forall v: Depths | FirstAssigns(code, policy, v) ensures Extends(after, v) {
      assert Extends(before, v);
      forall t: nat | t < |after| && after[t].Some? ensures v[t] == after[t] {
        if before[t].None? {
          assert t in found;
          var k: nat :| FirstTo(hops, after, t, k);
          FoundFirst(code, before, after, i, hops, n, t, k);
          assert Carried(code, v, i, k);
        }
      }
    }
  }

  lemma FirstSoFarAfter(code: seq<Code>, policy: Policy, before: Depths, after: Depths, i: nat, found: seq<nat>,
                        rest: seq<nat>, n: nat)
    requires |before| == |code| && InOrder(code, policy, before, [i] + rest, n) && i < |code| && before[i].Some?
    requires EnterableAt(code, policy, i, before[i].value)
    requires Spreads(before, after, policy, Hops(code[i], before[i].value), found)
    ensures FirstSoFar(code, after, n + 1)
  {
    assert Order(code, n)[n..][0] == i;
    forall m: nat, k: nat | m < n + 1 && Finds(code, m, k) ensures Carried(code, after, Order(code, m)[m], k) {
      if m < n {
        OrderGrows(code, m, n);
        assert Order(code, m)[m] in Reached(before);
        assert Carried(code, before, Order(code, m)[m], k);
      } else {
        FoundCarried(code, policy, before, after, i, found, n, k);
      }
    }
  }

  lemma FoundCarried(code: seq<Code>, policy: Policy, before: Depths, after: Depths, i: nat, found: seq<nat>,
                     n: nat, k: nat)
    requires i < |code| == |before| && before[i].Some? && EnterableAt(code, policy, i, before[i].value)
    requires Spreads(before, after, policy, Hops(code[i], before[i].value), found)
    requires n < |Order(code, n)| && Order(code, n)[n] == i && Reached(before) == Elements(Order(code, n))
    requires Finds(code, n, k)
    ensures Carried(code, after, i, k)
  {
    var hops := Hops(code[i], before[i].value);
    HopTargetsOf(code[i], before[i].value);
    var t := hops[k].target;
    assert Arrives(policy, after, hops[k]);
    assert t !in Reached(before) && t in found;
    var j: nat :| FirstTo(hops, after, t, j);
    assert j == k by { assert Targets(code[i])[j] == t; }
  }

  lemma OrderNext(code: seq<Code>, n: nat, i: nat, rest: seq<nat>)
    requires n <= |Order(code, n)| && [i] + rest == Order(code, n)[n..] && i < |code|
    ensures n < |Order(code, n)| && Order(code, n)[n] == i && Order(code, n)[n + 1..] == rest
    ensures Order(code, n + 1) == Order(code, n) + Fresh(Elements(Order(code, n)), Targets(code[i]))
  {
    var q := Order(code, n);
    assert q[n..][0] == i && q[n + 1..] == q[n..][1..] == rest;
  }

  lemma SuffixAppend(q: seq<nat>, found: seq<nat>, k: nat)
    requires k <= |q|
    ensures (q + found)[k..] == q[k..] + found
  {}

  /** Following the head of the worklist follows the order. */
  lemma InOrderStep(code: seq<Code>, policy: Policy, before: Depths, after: Depths, i: nat, found: seq<nat>,
                    rest: seq<nat>, n: nat)
    requires |before| == |code| && InOrder(code, policy, before, [i] + rest, n) && i < |code| && before[i].Some?
    requires EnterableAt(code, policy, i, before[i].value)
    requires Spreads(before, after, policy, Hops(code[i], before[i].value), found)
    ensures InOrder(code, policy, after, rest + found, n + 1)
  {
    var q := Order(code, n);
    OrderNext(code, n, i, rest);
    HopTargetsOf(code[i], before[i].value);
    SuffixAppend(q, found, n + 1);
    ReachedAfter(before, after, policy, Hops(code[i], before[i].value), found, q);
    FirstSoFarAfter(code, policy, before, after, i, found, rest, n);
    ForeseenAfter(code, policy, before, after, i, Hops(code[i], before[i].value), found, rest, n);
  }

  lemma ReachedAfter(before: Depths, after: Depths, policy: Policy, hops: seq<Hop>, found: seq<nat>, q: seq<nat>)
    requires Spreads(before, after, policy, hops, found) && Reached(before) == Elements(q)
    ensures Reached(after) == Elements(q + found)
  {
    forall t: nat ensures t in Reached(after) <==> t in Elements(q + found) {
      assert t in Elements(q + found) <==> t in q || t in found;
      assert t in q <==> t in Reached(before);
    }
  }

  lemma InOrderDone(code: seq<Code>, policy: Policy, depths: Depths, n: nat)
    requires InOrder(code, policy, depths, [], n)
    ensures FirstArrivals(code, depths)
  {
    assert n == |Order(code, n)|;
    forall m: nat, k: nat | Finds(code, m, k) ensures Carried(code, depths, Order(code, m)[m], k) {
      if m >= n { OrderComplete(code, n, m); }
    }
  }

  // ------------------------------------------------------- refusals are necessary

  lemma UnenterableRefutes(code: seq<Code>, policy: Policy, depths: Depths, i: nat)
    requires Foreseen(code, policy, depths) && i < |code| == |depths| && depths[i].Some?
    requires !EnterableAt(code, policy, i, depths[i].value)
    ensures !Accepted(code, policy)
  {}

  lemma TooManyRefutes(code: seq<Code>, policy: Policy, depths: Depths, some: set<nat>)
    requires Foreseen(code, policy, depths) && some <= Reached(depths) && |some| > policy.maxEvaluations
    ensures !Accepted(code, policy)
  {
    if v: Depths :| FirstAssigns(code, policy, v) { SubsetSize(some, Reached(v)); }
  }

  /** A failed edge is a checked one whose depth contradicts another run, or leaves the code. */
  lemma FailedEdge(code: seq<Code>, policy: Policy, before: Depths, after: Depths, i: nat, k: nat, found: seq<nat>)
    requires |before| == |code| && Witnessed(code, policy, before)
    requires i < |code| && before[i].Some? && EnterableAt(code, policy, i, before[i].value)
    requires k < |Hops(code[i], before[i].value)|
    requires Spreads(before, after, policy, Hops(code[i], before[i].value)[..k], found)
    requires !Arrives(policy, after, Hops(code[i], before[i].value)[k])
    requires var t := Hops(code[i], before[i].value)[k].target; t < |after| ==> after[t].Some?
    ensures var t := Hops(code[i], before[i].value)[k].target;
            StackErrorMeans(code, policy, if t >= |code| then TargetOutOfBounds(i) else InconsistentJoin(i, t))
  {
    var h, a := Hops(code[i], before[i].value)[k], Point(i, before[i].value);
    var p := Point(h.target, h.depth);
    assert Arrivable(code, policy, a) && Flows(code, a, k, p);
    WitnessedAfter(code, policy, before, after, i, Hops(code[i], before[i].value)[..k], found);
    if h.target < |code| {
      assert Arrivable(code, policy, Point(h.target, after[h.target].value));
      assert Clashes(code, policy, a, k, p);
    } else {
      assert Leaves(code, a, k, p);
    }
  }

  lemma FailedEdgeRefutes(code: seq<Code>, policy: Policy, before: Depths, after: Depths, i: nat, k: nat)
    requires i < |code| == |before| && before[i].Some? && EnterableAt(code, policy, i, before[i].value)
    requires Extends(before, after) && Foreseen(code, policy, after) && k < |Hops(code[i], before[i].value)|
    requires !Arrives(policy, after, Hops(code[i], before[i].value)[k])
    requires var t := Hops(code[i], before[i].value)[k].target; t < |after| ==> after[t].Some?
    ensures !Accepted(code, policy)
  {}

  lemma PeakGrows(code: seq<Code>, policy: Policy, before: Depths, some: set<nat>, m: nat, i: nat, after: Depths)
    requires IsPeak(code, policy, before, some, m) && Extends(before, after)
    requires i < |code| && i < |before| && before[i].Some? && EnterableAt(code, policy, i, before[i].value)
    ensures var p := Peak(code[i], before[i].value);
            IsPeak(code, policy, after, some + {i}, if p > m then p else m)
  {
    var p := Peak(code[i], before[i].value);
    var n := if p > m then p else m;
    forall j: nat | j in some + {i} ensures PeakWithin(code, policy, after, j, n) {
      if j in some { assert PeakWithin(code, policy, before, j, m); }
    }
    if p >= m {
      assert PeakAt(code, policy, after, i, p);
    } else {
      var j: nat :| j in some && PeakAt(code, policy, before, j, m);
      assert PeakAt(code, policy, after, j, m);
    }
  }

  lemma OverLimit(code: seq<Code>, policy: Policy, depths: Depths, done: set<nat>, i: nat)
    requires |depths| == |code| && Witnessed(code, policy, depths) && done + {i} <= Reached(depths)
    requires i !in done && |done| + 1 > policy.maxEvaluations && Foreseen(code, policy, depths)
    ensures StackErrorMeans(code, policy, EvaluationLimit(i)) && !Accepted(code, policy)
  {
    SubsetSize(done + {i}, Reached(depths));
    TooManyRefutes(code, policy, depths, done + {i});
  }

  // ------------------------------------------------------- the analysis

  /** The state of the whole analysis between two evaluations. */
  ghost predicate Progress(code: seq<Code>, policy: Policy, depths: Depths, worklist: seq<nat>, done: set<nat>,
                           size: nat, evaluations: nat) {
    && Analyzing(code, policy, depths, worklist, done) && InOrder(code, policy, depths, worklist, evaluations)
    && IsPeak(code, policy, depths, done, size) && evaluations == |done| <= policy.maxEvaluations
  }

  lemma ProgressStep(code: seq<Code>, policy: Policy, before: Depths, done: set<nat>, size: nat, i: nat, after: Depths,
                     next: seq<nat>)
    requires IsPeak(code, policy, before, done, size) && Extends(before, after) && i !in done
    requires i < |code| && i < |before| && before[i].Some? && EnterableAt(code, policy, i, before[i].value)
    requires Analyzing(code, policy, after, next, done + {i}) && |done| + 1 <= policy.maxEvaluations
    requires InOrder(code, policy, after, next, |done| + 1)
    ensures var p := Peak(code[i], before[i].value);
            Progress(code, policy, after, next, done + {i}, if p > size then p else size, |done| + 1)
    ensures |done + {i}| == |done| + 1
  {
    PeakGrows(code, policy, before, done, size, i, after);
  }

  /** With nothing waiting the state is a sound certificate. */
  lemma Finished(code: seq<Code>, policy: Policy, depths: Depths, done: set<nat>, size: nat, evaluations: nat)
    requires Progress(code, policy, depths, [], done, size, evaluations)
    ensures Sound(code, policy, StackCertificate(depths, size, evaluations)) && Accepted(code, policy)
    ensures DepthsHold(code, policy, depths) <==> Consistent(code, policy)
  {
    assert done == Reached(depths);
    InOrderDone(code, policy, depths, evaluations);
    assert FirstAssigns(code, policy, depths);
    DepthsHoldExactly(code, policy, StackCertificate(depths, size, evaluations));
  }

  method AnyGosub(code: seq<Code>) returns (found: bool)
    ensures found <==> HasGosub(code)
  {
    for i := 0 to |code|
      invariant forall j :: 0 <= j < i ==> code[j].opcode != OP_GOSUB
    {
      if code[i].opcode == OP_GOSUB {
        return true;
      }
    }
    return false;
  }

  /** Evaluates one instruction at its recorded depth. */
  method Evaluate(code: seq<Code>, policy: Policy, depths: array<Option<nat>>, i: nat, rest: seq<nat>, hasGosub: bool,
                  ghost done: set<nat>, ghost n: nat)
    returns (e: Option<StackError>, worklist: seq<nat>)
    requires Analyzing(code, policy, depths[..], [i] + rest, done) && i < |code| && depths[i].Some?
    requires InOrder(code, policy, depths[..], [i] + rest, n) && hasGosub == HasGosub(code)
    modifies depths
    ensures e.None? ==> Analyzing(code, policy, depths[..], worklist, done + {i})
    ensures e.None? ==> InOrder(code, policy, depths[..], worklist, n + 1)
    ensures e.None? ==> Extends(old(depths[..]), depths[..]) && EnterableAt(code, policy, i, old(depths[i].value))
    ensures e.Some? ==> StackErrorMeans(code, policy, e.value) && !Accepted(code, policy)
  {
    ghost var before := depths[..];
    assert Arrivable(code, policy, Point(i, before[i].value));
    var d := depths[i].value;
    worklist := rest;
    e := CheckEntry(code, policy, i, d, hasGosub);
    if e.Some? {
      UnenterableRefutes(code, policy, before, i);
      return;
    }
    var hops := Hops(code[i], d);
    var failed, found := Spread(depths, policy, hops);
    if failed.Some? {
      FailedEdge(code, policy, before, depths[..], i, failed.value, found);
      ForeseenAfter(code, policy, before, depths[..], i, hops[..failed.value], found, rest, n);
      FailedEdgeRefutes(code, policy, before, depths[..], i, failed.value);
      var t := hops[failed.value].target;
      return Some(if t >= |code| then TargetOutOfBounds(i) else InconsistentJoin(i, t)), rest;
    }
    AnalyzingStep(code, policy, before, i, rest, done, depths[..], found);
    InOrderStep(code, policy, before, depths[..], i, found, rest, n);
    worklist := rest + found;
  }

  /** One evaluation: the head of the worklist, within the evaluation limit. */
  method Advance(code: seq<Code>, policy: Policy, depths: array<Option<nat>>, worklist: seq<nat>, size: nat,
                 evaluations: nat, hasGosub: bool, ghost done: set<nat>)
    returns (e: Option<StackError>, next: seq<nat>, size': nat)
    requires Progress(code, policy, depths[..], worklist, done, size, evaluations) && worklist != []
    requires hasGosub == HasGosub(code)
    modifies depths
    ensures |done| < |code| && worklist[0] !in done
    ensures e.None? ==> Progress(code, policy, depths[..], next, done + {worklist[0]}, size', evaluations + 1)
    ensures e.Some? ==> StackErrorMeans(code, policy, e.value) && !Accepted(code, policy)
  {
    Waiting(code, policy, depths[..], worklist, done);
    var i, rest := worklist[0], worklist[1..];
    assert worklist == [i] + rest;
    next, size' := rest, size;
    if evaluations + 1 > policy.maxEvaluations {
      OverLimit(code, policy, depths[..], done, i);
      return Some(EvaluationLimit(i)), next, size';
    }
    ghost var before := depths[..];
    var d := depths[i].value;
    e, next := Evaluate(code, policy, depths, i, rest, hasGosub, done, evaluations);
    if e.Some? {
      return;
    }
    ProgressStep(code, policy, before, done, size, i, depths[..], next);
    var peak := Peak(code[i], d);
    size' := if peak > size then peak else size;
  }

  lemma Started(code: seq<Code>, policy: Policy)
    requires code != []
    ensures Progress(code, policy, Entry(|code|), [0], {}, 0, 0)
  {
    AnalyzingStart(code, policy);
    InOrderStart(code, policy);
  }

  /** Evaluates until nothing is waiting. */
  method Exhaust(code: seq<Code>, policy: Policy, depths: array<Option<nat>>)
    returns (e: Option<StackError>, size: nat, evaluations: nat, ghost done: set<nat>)
    requires code != [] && depths[..] == Entry(|code|)
    modifies depths
    ensures e.None? ==> Progress(code, policy, depths[..], [], done, size, evaluations)
    ensures e.Some? ==> StackErrorMeans(code, policy, e.value) && !Accepted(code, policy)
  {
    Started(code, policy);
    var worklist: seq<nat> := [0];
    var hasGosub := AnyGosub(code);
    e, size, evaluations, done := None, 0, 0, {};
    while worklist != []
      invariant Progress(code, policy, depths[..], worklist, done, size, evaluations)
      decreases |code| - |done|
    {
      ghost var i := worklist[0];
      e, worklist, size := Advance(code, policy, depths, worklist, size, evaluations, hasGosub, done);
      if e.Some? {
        return;
      }
      evaluations, done := evaluations + 1, done + {i};
    }
    e := None;
  }

  /** The ordinary-stack analysis. It accepts exactly the bodies whose first arrivals give
      depths that every checked edge respects. Its depths hold on every run exactly when some
      depths are respected by every edge, deferred ones included. */
  method AnalyzeOrdinaryStack(code: seq<Code>, policy: Policy) returns (r: Result<StackCertificate, StackError>)
    ensures r.Ok? ==> Sound(code, policy, r.value)
    ensures r.Ok? <==> Accepted(code, policy)
    ensures r.Ok? && DepthsHold(code, policy, r.value.depths) <==> Consistent(code, policy)
    ensures r.Err? ==> StackErrorMeans(code, policy, r.error)
  {
    if Consistent(code, policy) { ConsistentAccepted(code, policy); }
    if code == [] {
      return Err(EmptyBytecode);
    }
    var depths := new Option<nat>[|code|](i => if i == 0 then Some(0) else None);
    assert depths[..] == Entry(|code|);
    var e, size, evaluations, done := Exhaust(code, policy, depths);
    if e.Some? {
      return Err(e.value);
    }
    Finished(code, policy, depths[..], done, size, evaluations);
    return Ok(StackCertificate(depths[..], size, evaluations));
  }
}
