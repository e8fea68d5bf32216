/** Captured variables: what the per-edge checks of an accepted graph mean at run time. */
module Captures {
  import opened Digraph
  import opened FunctionGraph
  import opened GraphBudget
  import opened GraphVerifier
  import opened Schema
  import opened Topology

  /** The cell a closure slot denotes: a variable of the activation at some depth of the
      nesting path, or a source owned by the root. */
  datatype Cell = Variable(depth: nat, index: nat) | External(source: ClosureSource)

  predicate InRange(fs: seq<Function>, p: seq<nat>) { forall i :: 0 <= i < |p| ==> p[i] < |fs| }

  /** Follows parent-closure links upwards along the nesting path `p`, one function per link. */
  function Resolve(fs: seq<Function>, p: seq<nat>, slot: nat): Option<Cell>
    requires p != [] && InRange(fs, p)
    decreases |p|
  {
    var sources := fs[p[|p| - 1]].closureSources;
    if slot >= |sources| then None
    else
      match sources[slot]
      case ParentVariable(i) =>
        if |p| > 1 && i < fs[p[|p| - 2]].body.variableReferenceCount then Some(Variable(|p| - 2, i)) else None
      case ParentClosure(i) =>
        if |p| > 1 then Resolve(fs, p[..|p| - 1], i) else None
      case _ =>
        if |p| == 1 then Some(External(sources[slot])) else None
  }

  /** A cell that exists: a variable of a proper ancestor on the path, or a source that the
      first function of the path owns. */
  predicate Exists(fs: seq<Function>, p: seq<nat>, c: Cell)
    requires p != [] && InRange(fs, p)
  {
    match c
    case Variable(d, i) => d < |p| - 1 && i < fs[p[d]].body.variableReferenceCount
    case External(s) => s in fs[p[0]].closureSources && !s.FromParent()
  }

  lemma {:induction false} ResolvedExists(fs: seq<Function>, p: seq<nat>, slot: nat)
    requires p != [] && InRange(fs, p) && Resolve(fs, p, slot).Some?
    ensures Exists(fs, p, Resolve(fs, p, slot).value)
    decreases |p|
  {
    var s := fs[p[|p| - 1]].closureSources[slot];
    if s.ParentClosure? {
      ResolvedExists(fs, p[..|p| - 1], s.index);
    }
  }

  lemma PathInRange(fs: seq<Function>, p: seq<nat>)
    requires IsPath(GraphOf(fs), p)
    ensures InRange(fs, p)
  {}

  /** Every slot resolves on every path from the root. */
  ghost predicate AllResolve(fs: seq<Function>, root: nat) {
    forall p: seq<nat>, v: nat, slot: nat :: ResolvesAt(fs, root, p, v, slot)
  }

  ghost predicate ResolvesAt(fs: seq<Function>, root: nat, p: seq<nat>, v: nat, slot: nat) {
    RootPath(GraphOf(fs), root, p, v) && v < |fs| && slot < |fs[v].closureSources| ==>
      InRange(fs, p) && Resolve(fs, p, slot).Some?
  }

  /** Slot counts agree with the declared closure domains. */
  predicate SlotsDeclared(fs: seq<Function>) {
    forall i :: 0 <= i < |fs| ==> |fs[i].closureSources| == fs[i].body.closureVariableCount
  }

  /** External sources sit on the root and nowhere else. */
  predicate ExternalsAtRoot(fs: seq<Function>, root: nat) {
    && root < |fs| && (forall i :: 0 <= i < |fs| && i != root ==> ForwardsOnly(fs[i]))
    && forall s :: 0 <= s < |fs[root].closureSources| ==> !fs[root].closureSources[s].FromParent()
  }

  /** Soundness of the local checks, by induction along the path. */
  lemma {:induction false} SlotResolves(fs: seq<Function>, root: nat, p: seq<nat>, v: nat, slot: nat)
    requires SlotsDeclared(fs) && ExternalsAtRoot(fs, root) && ClosureEdgesOk(fs) && Acyclic(GraphOf(fs))
    requires RootPath(GraphOf(fs), root, p, v) && slot < |fs[v].closureSources|
    ensures InRange(fs, p) && Resolve(fs, p, slot).Some?
    decreases |p|
  {
    var g := GraphOf(fs);
    PathInRange(fs, p);
    if |p| > 1 {
      assert IsPath(g, p);
      var q, u := p[..|p| - 1], p[|p| - 2];
      assert !IsCycle(g, p) && v != root;
      assert Hop(g, p, |p| - 1);
      BoundsOnEdge(fs, u, v, slot);
      var s := fs[v].closureSources[slot];
      assert s.FromParent() by { assert ForwardsOnly(fs[v]); }
      if s.ParentClosure? {
        SubPath(g, p, 0, |p| - 1);
        assert RootPath(g, root, q, u);
        SlotResolves(fs, root, q, u, s.index);
      }
    }
  }

  lemma AcceptedMeans(fs: seq<Function>, root: u32, limits: Limits)
    requires Accepted(fs, root, limits)
    ensures SlotsDeclared(fs) && ExternalsAtRoot(fs, root) && ClosureEdgesOk(fs) && Acyclic(GraphOf(fs))
    ensures forall s :: 0 <= s < |fs[root].closureSources| ==> RootSourceOk(fs[root].closureSources[s])
  {
    forall i | 0 <= i < |fs| ensures |fs[i].closureSources| == fs[i].body.closureVariableCount {
      assert RecordOk(fs[i], |fs|);
    }
  }

  /** In an accepted graph every closure slot, on every path from the root and within the
      length of that path, denotes a variable that exists in a proper ancestor or a source
      that the root owns and that lies inside its environment. */
  lemma CapturesResolve(fs: seq<Function>, root: u32, limits: Limits, p: seq<nat>, v: nat, slot: nat)
    requires Accepted(fs, root, limits)
    requires RootPath(GraphOf(fs), root, p, v) && slot < |fs[v].closureSources|
    ensures InRange(fs, p) && Resolve(fs, p, slot).Some?
    ensures Exists(fs, p, Resolve(fs, p, slot).value)
    ensures Resolve(fs, p, slot).value.External? ==> RootSourceOk(Resolve(fs, p, slot).value.source)
  {
    AcceptedMeans(fs, root, limits);
    SlotResolves(fs, root, p, v, slot);
    ResolvedExists(fs, p, slot);
  }

  lemma ResolvingRoot(fs: seq<Function>, root: nat, s: nat)
    requires root < |fs| && AllResolve(fs, root) && s < |fs[root].closureSources|
    ensures !fs[root].closureSources[s].FromParent()
  {
    assert RootPath(GraphOf(fs), root, [root], root);
    assert ResolvesAt(fs, root, [root], root, s);
  }

  lemma ResolvingOther(fs: seq<Function>, root: nat, v: nat, s: nat)
    requires root < |fs| && v < |fs| && v != root && Reachable(GraphOf(fs), root, v)
    requires AllResolve(fs, root) && s < |fs[v].closureSources|
    ensures fs[v].closureSources[s].FromParent()
  {
    var p: seq<nat> :| RootPath(GraphOf(fs), root, p, v);
    assert |p| > 1;
    assert ResolvesAt(fs, root, p, v, s);
  }

  lemma ResolvingEdge(fs: seq<Function>, root: nat, u: nat, v: nat, s: nat)
    requires SlotsDeclared(fs) && u < |fs| && v < |fs| && Reachable(GraphOf(fs), root, u)
    requires AllResolve(fs, root) && Edge(GraphOf(fs), u, v) && s < |fs[v].closureSources|
    ensures SourceInParent(fs[u], fs[v].closureSources[s])
  {
    var g := GraphOf(fs);
    var p: seq<nat> :| RootPath(g, root, p, u);
    var q := p + [v];
    PathSnoc(g, p, v);
    assert RootPath(g, root, q, v);
    assert ResolvesAt(fs, root, q, v, s);
    assert q[..|q| - 1] == p && q[|q| - 2] == u;
    var source := fs[v].closureSources[s];
    if source.ParentClosure? { assert Resolve(fs, p, source.index).Some?; }
  }

  /** The per-edge checks are exact: among acyclic graphs with every function reachable,
      they hold if and only if every slot resolves on every path from the root. */
  lemma ClosureChecksExact(fs: seq<Function>, root: nat)
    requires SlotsDeclared(fs) && root < |fs| && Acyclic(GraphOf(fs)) && AllReachable(GraphOf(fs), root)
    ensures ExternalsAtRoot(fs, root) && ClosureEdgesOk(fs) <==> AllResolve(fs, root)
  {
    var g := GraphOf(fs);
    if ExternalsAtRoot(fs, root) && ClosureEdgesOk(fs) {
      forall p: seq<nat>, v: nat, slot: nat ensures ResolvesAt(fs, root, p, v, slot) {
        if RootPath(g, root, p, v) && v < |fs| && slot < |fs[v].closureSources| {
          SlotResolves(fs, root, p, v, slot);
        }
      }
    }
    if AllResolve(fs, root) {
      forall s | 0 <= s < |fs[root].closureSources| ensures !fs[root].closureSources[s].FromParent() {
        ResolvingRoot(fs, root, s);
      }
      forall v: nat | v < |fs| && v != root ensures ForwardsOnly(fs[v]) {
        assert Reachable(g, root, v);
        forall s | 0 <= s < |fs[v].closureSources| ensures fs[v].closureSources[s].FromParent() {
          ResolvingOther(fs, root, v, s);
        }
      }
      forall u: nat, v: nat | u < |fs| && v < |fs| && Edge(g, u, v) ensures EdgeOk(fs[u], fs[v]) {
        assert Reachable(g, root, u);
        forall s | 0 <= s < |fs[v].closureSources| ensures SourceInParent(fs[u], fs[v].closureSources[s]) {
          ResolvingEdge(fs, root, u, v, s);
        }
      }
    }
  }

  /** In an accepted graph the root is the only function that no function embeds. */
  lemma AcceptedRootAlone(fs: seq<Function>, root: u32, limits: Limits, v: nat)
    requires Accepted(fs, root, limits) && v < |fs|
    ensures (exists u: nat :: Edge(GraphOf(fs), u, v)) <==> v != root
  {
    OnlyRootHasNoParent(GraphOf(fs), root, v);
  }
}
