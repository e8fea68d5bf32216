/** Whole-graph verification: records, root sources, topology, closure edges and budgets. */
module GraphVerifier {
  import opened Digraph
  import opened FunctionGraph
  import opened GraphBudget
  import opened Schema
  import opened Topology

  // ------------------------------------------------------- root-owned sources

  /** Only the root may own sources that come from outside the graph. */
  predicate ForwardsOnly(f: Function) {
    forall s :: 0 <= s < |f.closureSources| ==> f.closureSources[s].FromParent()
  }

  predicate DirectEval(s: ClosureSource) { s.DirectEvalBinding? || s.DirectEvalVariable? }

  /** A root source is external, and lies inside its direct-eval environment. */
  predicate RootSourceOk(s: ClosureSource) {
    !s.FromParent() && (DirectEval(s) ==> s.index < s.environmentSize)
  }

  /** All direct-eval sources of the root agree on one environment. */
  predicate OneEnvironment(sources: seq<ClosureSource>) {
    forall i, j :: 0 <= i < |sources| && 0 <= j < |sources| && DirectEval(sources[i]) && DirectEval(sources[j]) ==>
                     sources[i].environmentSize == sources[j].environmentSize
  }

  predicate SourcesOk(sources: seq<ClosureSource>) {
    && (forall s :: 0 <= s < |sources| ==> RootSourceOk(sources[s]))
    && OneEnvironment(sources)
  }

  predicate RootSourcesOk(fs: seq<Function>, root: nat)
    requires root < |fs|
  {
    (forall i :: 0 <= i < |fs| && i != root ==> ForwardsOnly(fs[i])) && SourcesOk(fs[root].closureSources)
  }

  method FirstExternal(sources: seq<ClosureSource>) returns (r: Option<nat>)
    ensures r.None? ==> forall s :: 0 <= s < |sources| ==> sources[s].FromParent()
    ensures r.Some? ==> r.value < |sources| && !sources[r.value].FromParent()
  {
    for i := 0 to |sources|
      invariant forall s :: 0 <= s < i ==> sources[s].FromParent()
    {
      match sources[i] {
        case RealmGlobal(_) => return Some(i);
        case DirectEvalBinding(_, _) => return Some(i);
        case DirectEvalVariable(_, _) => return Some(i);
        case ModuleCell(_) => return Some(i);
        case ParentVariable(_) =>
        case ParentClosure(_) =>
      }
    }
    return None;
  }

  /** First root source that is a parent's, out of its environment, or in another one. */
  method FirstBadRootSource(sources: seq<ClosureSource>) returns (r: Option<nat>)
    ensures r.None? ==> SourcesOk(sources)
    ensures r.Some? ==> r.value < |sources| && SourcesOk(sources[..r.value]) && !SourcesOk(sources[..r.value + 1])
  {
    var expected: Option<nat> := None;
    for i := 0 to |sources|
      invariant SourcesOk(sources[..i])
      invariant forall s :: 0 <= s < i && DirectEval(sources[s]) ==> expected == Some(sources[s].environmentSize)
      invariant expected.Some? ==> exists s :: 0 <= s < i && DirectEval(sources[s])
    {
      assert sources[..i + 1] == sources[..i] + [sources[i]];
      var environment: Option<(nat, nat)> := None;
      match sources[i] {
        case ParentVariable(_) =>
          assert !RootSourceOk(sources[..i + 1][i]);
          return Some(i);
        case ParentClosure(_) =>
          assert !RootSourceOk(sources[..i + 1][i]);
          return Some(i);
        case DirectEvalBinding(index, size) => environment := Some((index, size));
        case DirectEvalVariable(index, size) => environment := Some((index, size));
        case RealmGlobal(_) =>
        case ModuleCell(_) =>
      }
      if environment.Some? {
        if environment.value.0 >= environment.value.1 {
          assert !RootSourceOk(sources[..i + 1][i]);
          return Some(i);
        }
        if expected.Some? {
          if environment.value.1 != expected.value {
            var s :| 0 <= s < i && DirectEval(sources[s]);
            assert sources[..i + 1][s].environmentSize != sources[..i + 1][i].environmentSize;
            return Some(i);
          }
        } else {
          expected := Some(environment.value.1);
        }
      }
    }
    assert sources[..|sources|] == sources;
    return None;
  }

  /** The root conditions hold of every prefix of a list that meets them. */
  lemma SourcesOkPrefix(sources: seq<ClosureSource>, k: nat)
    requires k <= |sources| && SourcesOk(sources)
    ensures SourcesOk(sources[..k])
  {}

  datatype SourceError = ExternalSourceNotRoot(at: nat, closure: nat) | BadRootSource(closure: nat)

  predicate SourceErrorMeans(fs: seq<Function>, root: nat, e: SourceError)
    requires root < |fs|
  {
    match e
    case ExternalSourceNotRoot(i, s) =>
      i < |fs| && i != root && s < |fs[i].closureSources| && !fs[i].closureSources[s].FromParent()
    case BadRootSource(s) =>
      && s < |fs[root].closureSources|
      && SourcesOk(fs[root].closureSources[..s]) && !SourcesOk(fs[root].closureSources[..s + 1])
  }

  method ValidateRootClosureSources(fs: seq<Function>, root: nat) returns (r: Option<SourceError>)
    requires root < |fs|
    ensures r.None? <==> RootSourcesOk(fs, root)
    ensures r.Some? ==> SourceErrorMeans(fs, root, r.value)
  {
    for i := 0 to |fs|
      invariant forall j :: 0 <= j < i && j != root ==> ForwardsOnly(fs[j])
    {
      if i != root {
        var bad := FirstExternal(fs[i].closureSources);
        if bad.Some? {
          assert !ForwardsOnly(fs[i]);
          return Some(ExternalSourceNotRoot(i, bad.value));
        }
      }
    }
    var bad := FirstBadRootSource(fs[root].closureSources);
    if bad.Some? {
      if SourcesOk(fs[root].closureSources) { SourcesOkPrefix(fs[root].closureSources, bad.value + 1); }
      return Some(BadRootSource(bad.value));
    }
    return None;
  }

  // ------------------------------------------------------- closure edges

  /** A child's source lies inside the parent domain that it names. */
  predicate SourceInParent(parent: Function, s: ClosureSource) {
    match s
    case ParentVariable(i) => i < parent.body.variableReferenceCount
    case ParentClosure(i) => i < parent.body.closureVariableCount
    case _ => true
  }

  predicate EdgeOk(parent: Function, child: Function) {
    forall s :: 0 <= s < |child.closureSources| ==> SourceInParent(parent, child.closureSources[s])
  }

  predicate ClosureEdgesOk(fs: seq<Function>) {
    forall u: nat, v: nat :: u < |fs| && v < |fs| && Edge(GraphOf(fs), u, v) ==> EdgeOk(fs[u], fs[v])
  }

  /** Sources checked over a list of edges: every edge counts its child's sources again. */
  function EdgeCost(fs: seq<Function>, children: seq<nat>): nat
    requires forall j :: 0 <= j < |children| ==> children[j] < |fs|
  {
    if children == [] then 0
    else EdgeCost(fs, children[..|children| - 1]) + |fs[children[|children| - 1]].closureSources|
  }

  function EdgeTotal(fs: seq<Function>, g: Graph, k: nat): nat
    requires WellFormed(g) && |g| == |fs| && k <= |g|
  {
    if k == 0 then 0 else EdgeTotal(fs, g, k - 1) + EdgeCost(fs, g[k - 1])
  }

  lemma {:induction false} EdgeTotalGrows(fs: seq<Function>, g: Graph, i: nat, k: nat)
    requires WellFormed(g) && |g| == |fs| && i <= k <= |g|
    ensures EdgeTotal(fs, g, i) <= EdgeTotal(fs, g, k)
  {
    if i < k { EdgeTotalGrows(fs, g, i, k - 1); }
  }

  lemma {:induction false} EdgeCostGrows(fs: seq<Function>, children: seq<nat>, j: nat)
    requires (forall j :: 0 <= j < |children| ==> children[j] < |fs|) && j <= |children|
    ensures EdgeCost(fs, children[..j]) <= EdgeCost(fs, children)
  {
    if j < |children| {
      assert children[..|children| - 1][..j] == children[..j];
      EdgeCostGrows(fs, children[..|children| - 1], j);
    } else {
      assert children[..j] == children;
    }
  }

  datatype EdgeError =
    | TooManyEvaluations(charge: ChargeError)
    | SourceOutOfBounds(parent: nat, child: nat, closure: nat)

  /** What a refused edge says about the graph. */
  ghost predicate EdgeErrorMeans(fs: seq<Function>, g: Graph, limit: u64, e: EdgeError)
    requires WellFormed(g) && |g| == |fs|
  {
    match e
    case TooManyEvaluations(_) => EdgeTotal(fs, g, |g|) > limit
    case SourceOutOfBounds(u, v, s) =>
      && u < |fs| && v < |fs| && Edge(g, u, v) && s < |fs[v].closureSources|
      && !SourceInParent(fs[u], fs[v].closureSources[s])
  }

  method FirstOutOfParent(parent: Function, child: Function) returns (r: Option<nat>)
    ensures r.None? ==> EdgeOk(parent, child)
    ensures r.Some? ==> r.value < |child.closureSources| && !SourceInParent(parent, child.closureSources[r.value])
  {
    for s := 0 to |child.closureSources|
      invariant forall i :: 0 <= i < s ==> SourceInParent(parent, child.closureSources[i])
    {
      match child.closureSources[s] {
        case ParentVariable(index) =>
          if index >= parent.body.variableReferenceCount {
            return Some(s);
          }
        case ParentClosure(index) =>
          if index >= parent.body.closureVariableCount {
            return Some(s);
          }
        case _ =>
      }
    }
    return None;
  }

  /** Charges and checks the edges out of one function. */
  method ValidateEdgesFrom(fs: seq<Function>, g: Graph, u: nat, limit: u64, start: nat)
    returns (r: Result<nat, EdgeError>)
    requires WellFormed(g) && |g| == |fs| && u < |g|
    requires start == EdgeTotal(fs, g, u) <= limit
    ensures r.Ok? ==> r.value == EdgeTotal(fs, g, u + 1) <= limit
    ensures r.Ok? ==> CheckedFrom(fs, g, u)
    ensures r.Err? ==> EdgeErrorMeans(fs, g, limit, r.error)
  {
    var total, children := start, g[u];
    for j := 0 to |children|
      invariant total == start + EdgeCost(fs, children[..j]) <= limit
      invariant forall i :: 0 <= i < j ==> EdgeOk(fs[u], fs[children[i]])
    {
      var v := children[j];
      assert children[..j + 1][..j] == children[..j];
      var charge := Charge(total, |fs[v].closureSources|, limit);
      if charge.Err? {
        EdgeCostGrows(fs, children, j + 1);
        EdgeTotalGrows(fs, g, u + 1, |g|);
        return Err(TooManyEvaluations(charge.error));
      }
      total := charge.value;
      var bad := FirstOutOfParent(fs[u], fs[v]);
      if bad.Some? {
        return Err(SourceOutOfBounds(u, v, bad.value));
      }
    }
    assert children[..|children|] == children;
    return Ok(total);
  }

  predicate CheckedFrom(fs: seq<Function>, g: Graph, u: nat)
    requires WellFormed(g) && |g| == |fs| && u < |g|
  {
    forall j :: 0 <= j < |g[u]| ==> EdgeOk(fs[u], fs[g[u][j]])
  }

  predicate CheckedBelow(fs: seq<Function>, g: Graph, k: nat)
    requires WellFormed(g) && |g| == |fs| && k <= |g|
  {
    forall u: nat :: u < k ==> CheckedFrom(fs, g, u)
  }

  lemma EdgesComplete(fs: seq<Function>, g: Graph)
    requires g == GraphOf(fs) && WellFormed(g) && CheckedBelow(fs, g, |g|)
    ensures ClosureEdgesOk(fs)
  {
    forall u: nat, v: nat | u < |fs| && v < |fs| && Edge(GraphOf(fs), u, v)
      ensures EdgeOk(fs[u], fs[v])
    {
      assert CheckedFrom(fs, g, u);
      var j :| 0 <= j < |g[u]| && g[u][j] == v;
    }
  }

  /** Checks every edge. Success is equivalent to all sources being in bounds on all edges
      and the exact number of checks being within its limit. */
  method ValidateClosureEdges(fs: seq<Function>, limits: Limits) returns (r: Result<nat, EdgeError>)
    requires WellFormed(GraphOf(fs))
    ensures r.Ok? <==> ClosureEdgesOk(fs)
                       && EdgeTotal(fs, GraphOf(fs), |fs|) <= limits.maxClosureEdgeEvaluations
    ensures r.Ok? ==> r.value == EdgeTotal(fs, GraphOf(fs), |fs|)
    ensures r.Err? ==> EdgeErrorMeans(fs, GraphOf(fs), limits.maxClosureEdgeEvaluations, r.error)
  {
    var g, limit := GraphOf(fs), limits.maxClosureEdgeEvaluations;
    var total := 0;
    for u := 0 to |g|
      invariant total == EdgeTotal(fs, g, u) <= limit
      invariant CheckedBelow(fs, g, u)
    {
      var next := ValidateEdgesFrom(fs, g, u, limit, total);
      if next.Err? {
        if next.error.SourceOutOfBounds? {
          OutOfBoundsRefutes(fs, next.error.parent, next.error.child, next.error.closure);
        }
        return Err(next.error);
      }
      total := next.value;
    }
    EdgesComplete(fs, g);
    return Ok(total);
  }

  lemma BoundsOnEdge(fs: seq<Function>, u: nat, v: nat, s: nat)
    requires ClosureEdgesOk(fs) && u < |fs| && v < |fs| && Edge(GraphOf(fs), u, v) && s < |fs[v].closureSources|
    ensures SourceInParent(fs[u], fs[v].closureSources[s])
  {
    assert EdgeOk(fs[u], fs[v]);
  }

  lemma OutOfBoundsRefutes(fs: seq<Function>, u: nat, v: nat, s: nat)
    requires u < |fs| && v < |fs| && Edge(GraphOf(fs), u, v) && s < |fs[v].closureSources|
    requires !SourceInParent(fs[u], fs[v].closureSources[s])
    ensures !ClosureEdgesOk(fs)
  {
    if ClosureEdgesOk(fs) { BoundsOnEdge(fs, u, v, s); }
  }

  // ------------------------------------------------------- the whole verification

  ghost predicate RecordsOk(fs: seq<Function>) { forall i :: 0 <= i < |fs| ==> RecordOk(fs[i], |fs|) }

  /** No path from the root has more functions than the limit. */
  ghost predicate DepthWithin(g: Graph, root: nat, limit: nat) {
    forall v: nat :: v < |g| ==> PathsWithin(g, root, v, limit)
  }

  /** The graphs that deserve trust, stated without reference to any pass. */
  ghost predicate Accepted(fs: seq<Function>, root: u32, limits: Limits) {
    && 0 < |fs| <= limits.maxFunctions && WithinBudgets(fs, limits)
    && root < |fs| && 1 <= limits.maxNestingDepth
    && RecordsOk(fs) && RootSourcesOk(fs, root)
    && var g := GraphOf(fs);
       && WellFormed(g) && Acyclic(g) && AllReachable(g, root) && DepthWithin(g, root, limits.maxNestingDepth)
       && ClosureEdgesOk(fs) && EdgeTotal(fs, g, |fs|) <= limits.maxClosureEdgeEvaluations
  }

  datatype GraphError =
    | EmptyGraph | TooManyFunctions | RootOutOfBounds | RootTooDeep
    | Budget(budget: BudgetError)
    | Record(at: nat, record: RecordError)
    | Source(source: SourceError)
    | Cycle(at: nat) | NestingTooDeep(at: nat) | UnreachableFunction(at: nat)
    | ClosureEdge(edge: EdgeError)

  datatype VerifiedGraph = VerifiedGraph(
    root: nat, functions: seq<Function>, maxNestingDepth: nat, usage: map<Resource, nat>, closureEdgeEvaluations: nat)

  /** The retained measurements are the exact ones. */
  ghost predicate ExactlyMeasured(fs: seq<Function>, root: nat, v: VerifiedGraph)
    requires WellFormed(GraphOf(fs))
  {
    && v.functions == fs && v.root == root
    && (forall x: Resource :: x in v.usage && v.usage[x] == Total(fs, x))
    && v.closureEdgeEvaluations == EdgeTotal(fs, GraphOf(fs), |fs|)
    && DepthMeans(GraphOf(fs), root, v.maxNestingDepth, Deepest(v.maxNestingDepth))
  }

  method ValidateRecords(fs: seq<Function>) returns (r: Option<GraphError>)
    ensures r.None? <==> RecordsOk(fs)
    ensures r.Some? ==> r.value.Record? && r.value.at < |fs| && RecordErrorMeans(fs[r.value.at], |fs|, r.value.record)
  {
    for i := 0 to |fs|
      invariant forall j :: 0 <= j < i ==> RecordOk(fs[j], |fs|)
    {
      var bad := ValidateRecord(fs[i], |fs|);
      if bad.Some? {
        return Some(Record(i, bad.value));
      }
    }
    return None;
  }

  lemma RecordsGiveGraph(fs: seq<Function>)
    requires RecordsOk(fs)
    ensures WellFormed(GraphOf(fs))
  {
    forall i | 0 <= i < |fs| ensures TargetsBelow(fs[i].constants, |fs|) { assert RecordOk(fs[i], |fs|); }
    GraphWellFormed(fs);
  }

  /** The topological passes together. */
  ghost predicate ShapeOk(g: Graph, root: nat, limit: nat) {
    Acyclic(g) && AllReachable(g, root) && DepthWithin(g, root, limit)
  }

  method ValidateShape(g: Graph, root: nat, limit: nat) returns (r: Result<nat, GraphError>)
    requires WellFormed(g) && root < |g| <= U32_MAX && 1 <= limit
    ensures r.Ok? <==> ShapeOk(g, root, limit)
    ensures r.Ok? ==> DepthMeans(g, root, r.value, Deepest(r.value))
    ensures r.Err? ==> ShapeErrorMeans(g, root, limit, r.error)
  {
    var sorted := BuildTopologicalOrder(g);
    if sorted.CycleAt? {
      return Err(Cycle(sorted.vertex));
    }
    var depth, _ := ValidateNestingDepth(g, root, sorted.order, limit);
    DepthExact(g, root, limit, depth);
    match depth {
      case Deepest(d) => return Ok(d);
      case TooDeep(v) => return Err(NestingTooDeep(v));
      case Unreachable(v) => return Err(UnreachableFunction(v));
    }
  }

  ghost predicate ShapeErrorMeans(g: Graph, root: nat, limit: nat, e: GraphError) {
    match e
    case Cycle(v) => v < |g| && BlockedByCycle(g, v)
    case NestingTooDeep(v) => exists d: nat :: v < |g| && PathOfLength(g, root, v, d) && d > limit
    case UnreachableFunction(v) => v < |g| && !Reachable(g, root, v)
    case _ => false
  }

  /** What each refusal says: the condition named by the error fails at the place it names. */
  ghost predicate ErrorMeans(fs: seq<Function>, root: nat, limits: Limits, e: GraphError) {
    match e
    case EmptyGraph => fs == []
    case TooManyFunctions => |fs| > limits.maxFunctions
    case RootOutOfBounds => root >= |fs|
    case RootTooDeep => limits.maxNestingDepth == 0
    case Budget(b) => BudgetErrorMeans(fs, limits, b)
    case Record(i, record) => i < |fs| && RecordErrorMeans(fs[i], |fs|, record)
    case Source(source) => root < |fs| && SourceErrorMeans(fs, root, source)
    case Cycle(_) => ShapeErrorMeans(GraphOf(fs), root, limits.maxNestingDepth, e)
    case NestingTooDeep(_) => ShapeErrorMeans(GraphOf(fs), root, limits.maxNestingDepth, e)
    case UnreachableFunction(_) => ShapeErrorMeans(GraphOf(fs), root, limits.maxNestingDepth, e)
    case ClosureEdge(edge) =>
      WellFormed(GraphOf(fs)) && EdgeErrorMeans(fs, GraphOf(fs), limits.maxClosureEdgeEvaluations, edge)
  }

  /** Verifies a graph. It is accepted exactly when it meets the declarative conditions, and
      the retained measurements are then exact. */
  method VerifyGraph(fs: seq<Function>, root: u32, limits: Limits) returns (r: Result<VerifiedGraph, GraphError>)
    requires AllConstructed(fs)
    ensures r.Ok? <==> Accepted(fs, root, limits)
    ensures r.Ok? ==> ExactlyMeasured(fs, root, r.value)
    ensures CanonicalTexts(fs) && r.Ok? ==> WithinLimits(fs, limits) && Records(r.value.usage, UsageOf(fs))
    ensures r.Err? ==> ErrorMeans(fs, root, limits, r.error)
  {
    if fs == [] {
      return Err(EmptyGraph);
    }
    if |fs| > limits.maxFunctions {
      return Err(TooManyFunctions);
    }
    var usage := Preflight(fs, limits);
    if usage.Err? {
      return Err(Budget(usage.error));
    }
    if root >= |fs| {
      return Err(RootOutOfBounds);
    }
    if 1 > limits.maxNestingDepth {
      return Err(RootTooDeep);
    }
    var bad := ValidateRecords(fs);
    if bad.Some? {
      return Err(bad.value);
    }
    var source := ValidateRootClosureSources(fs, root);
    if source.Some? {
      return Err(Source(source.value));
    }
    RecordsGiveGraph(fs);
    var depth := ValidateShape(GraphOf(fs), root, limits.maxNestingDepth);
    if depth.Err? {
      return Err(depth.error);
    }
    var edges := ValidateClosureEdges(fs, limits);
    if edges.Err? {
      return Err(ClosureEdge(edges.error));
    }
    return Ok(VerifiedGraph(root, fs, depth.value, usage.value, edges.value));
  }

  // ------------------------------------------------------- counters of the sort

  /** Edges of all functions below `k`, with multiplicity. */
  function EdgesBelow(g: Graph, k: nat): nat
    requires k <= |g|
  {
    if k == 0 then 0 else EdgesBelow(g, k - 1) + |g[k - 1]|
  }

  lemma {:induction false} PendingWithinEdges(g: Graph, v: nat, k: nat)
    requires k <= |g|
    ensures Pending(g, {}, v, k) <= EdgesBelow(g, k)
  {
    if k > 0 {
      PendingWithinEdges(g, v, k - 1);
      assert multiset(g[k - 1])[v] <= |multiset(g[k - 1])|;
    }
  }

  lemma {:induction false} EdgesWithinConstants(fs: seq<Function>, k: nat)
    requires k <= |fs|
    ensures EdgesBelow(GraphOf(fs), k) <= Total(fs[..k], Constants)
  {
    if k > 0 {
      EdgesWithinConstants(fs, k - 1);
      TotalNext(fs, Constants, k - 1);
    }
  }

  /** Within its budgets, no incoming-edge counter can leave 64 bits. */
  lemma IndegreeFits(fs: seq<Function>, limits: Limits, v: nat)
    requires WithinBudgets(fs, limits)
    ensures Pending(GraphOf(fs), {}, v, |fs|) <= U64_MAX
  {
    PendingWithinEdges(GraphOf(fs), v, |fs|);
    EdgesWithinConstants(fs, |fs|);
    assert fs[..|fs|] == fs;
    assert Total(fs, Constants) <= limits.Of(Constants);
  }
}
