/** Topological processing of the function-constant graph. */
module Topology {
  import opened Digraph
  import opened Finite
  import opened Schema

  /** Edges into `v`, counted with multiplicity, from vertices below `k` not yet done. */
  function Pending(g: Graph, done: set<nat>, v: nat, k: nat): nat
    requires k <= |g|
  {
    if k == 0 then 0
    else Pending(g, done, v, k - 1) + (if k - 1 in done then 0 else multiset(g[k - 1])[v])
  }

  lemma {:induction false} PendingOfDone(g: Graph, done: set<nat>, u: nat, v: nat, k: nat)
    requires k <= |g| && u < |g| && u !in done
    ensures Pending(g, done, v, k)
         == Pending(g, done + {u}, v, k) + (if u < k then multiset(g[u])[v] else 0)
  {
    if k > 0 { PendingOfDone(g, done, u, v, k - 1); }
  }

  /** Nothing pending means that every parent is done. */
  lemma {:induction false} NothingPending(g: Graph, done: set<nat>, v: nat, k: nat)
    requires k <= |g| && Pending(g, done, v, k) == 0
    ensures forall u :: 0 <= u < k && Edge(g, u, v) ==> u in done
  {
    if k > 0 { NothingPending(g, done, v, k - 1); }
  }

  /** Something pending means that some parent is not done. */
  lemma {:induction false} SomethingPending(g: Graph, done: set<nat>, v: nat, k: nat) returns (u: nat)
    requires k <= |g| && Pending(g, done, v, k) > 0
    ensures u < k && u !in done && Edge(g, u, v)
  {
    if k - 1 !in done && v in g[k - 1] {
      u := k - 1;
    } else {
      u := SomethingPending(g, done, v, k - 1);
    }
  }

  /** Adds one unit per edge to the counters of the children. */
  method CountEdges(indegrees: array<nat>, children: seq<nat>)
    requires forall j :: 0 <= j < |children| ==> children[j] < indegrees.Length
    modifies indegrees
    ensures forall v :: 0 <= v < indegrees.Length ==>
              indegrees[v] == old(indegrees[v]) + multiset(children)[v]
  {
    for j := 0 to |children|
      invariant forall v :: 0 <= v < indegrees.Length ==>
                  indegrees[v] == old(indegrees[v]) + multiset(children[..j])[v]
    {
      TakeOneMore(children, j);
      indegrees[children[j]] := indegrees[children[j]] + 1;
    }
    assert children[..|children|] == children;
  }

  method CountIndegrees(g: Graph) returns (indegrees: array<nat>)
    requires WellFormed(g)
    ensures fresh(indegrees) && indegrees.Length == |g|
    ensures forall v :: 0 <= v < |g| ==> indegrees[v] == Pending(g, {}, v, |g|)
  {
    indegrees := new nat[|g|](_ => 0);
    for u := 0 to |g|
      invariant forall v :: 0 <= v < |g| ==> indegrees[v] == Pending(g, {}, v, u)
    {
      CountEdges(indegrees, g[u]);
    }
  }

  /** Releases one edge per entry. A counter is never taken below zero, and a child becomes
      ready exactly once, when its last edge is released. */
  method ReleaseChildren(indegrees: array<nat>, children: seq<nat>, ready: seq<nat>)
    returns (next: seq<nat>)
    requires forall j :: 0 <= j < |children| ==> children[j] < indegrees.Length
    requires forall v :: 0 <= v < indegrees.Length ==> multiset(children)[v] <= indegrees[v]
    modifies indegrees
    ensures forall v :: 0 <= v < indegrees.Length ==>
              indegrees[v] + multiset(children)[v] == old(indegrees[v])
    ensures |ready| <= |next| && next[..|ready|] == ready
    ensures Distinct(next[|ready|..])
    ensures forall v :: v in next[|ready|..] <==>
              0 <= v < indegrees.Length && old(indegrees[v]) > 0 && indegrees[v] == 0
  {
    var released: seq<nat> := [];
    for j := 0 to |children|
      invariant forall v :: 0 <= v < indegrees.Length ==>
                  indegrees[v] + multiset(children[..j])[v] == old(indegrees[v])
      invariant Distinct(released)
      invariant forall v :: v in released <==>
                  0 <= v < indegrees.Length && old(indegrees[v]) > 0 && indegrees[v] == 0
    {
      TakeOneMore(children, j);
      MultisetPrefix(children, j);
      var target := children[j];
      assert indegrees[target] > 0;
      indegrees[target] := if indegrees[target] > 0 then indegrees[target] - 1 else 0;
      if indegrees[target] == 0 {
        released := released + [target];
      }
    }
    assert children[..|children|] == children;
    next := ready + released;
    assert next[|ready|..] == released;
  }

  lemma MultisetPrefix(s: seq<nat>, j: nat)
    requires j < |s|
    ensures multiset(s[..j])[s[j]] + 1 <= multiset(s)[s[j]]
  {
    assert s == s[..j] + [s[j]] + s[j + 1..];
  }

  /** State of the sort between two vertices: counters are exact, and the ordered and
      ready vertices are, without repetition, those with nothing pending. */
  ghost predicate Sorting(g: Graph, indegrees: seq<nat>, order: seq<nat>, ready: seq<nat>) {
    && WellFormed(g) && |indegrees| == |g|
    && (forall v :: 0 <= v < |g| ==> indegrees[v] == Pending(g, Elements(order), v, |g|))
    && Distinct(order + ready)
    && (forall v :: v in order + ready <==> 0 <= v < |g| && indegrees[v] == 0)
    && ParentsFirst(g, order)
  }

  /** No counter is below the number of edges about to be released. */
  lemma EnoughPending(g: Graph, indegrees: seq<nat>, order: seq<nat>, ready: seq<nat>, u: nat)
    requires Sorting(g, indegrees, order, ready) && u < |g| && u !in order
    ensures forall v :: 0 <= v < |g| ==> multiset(g[u])[v] <= indegrees[v]
  {
    forall v | 0 <= v < |g|
      ensures multiset(g[u])[v] <= indegrees[v]
    {
      PendingOfDone(g, Elements(order), u, v, |g|);
    }
  }

  lemma CountersAfter(g: Graph, before: seq<nat>, order: seq<nat>, u: nat, after: seq<nat>)
    requires u < |g| == |before| == |after| && u !in order
    requires forall v :: 0 <= v < |g| ==> before[v] == Pending(g, Elements(order), v, |g|)
    requires forall v :: 0 <= v < |g| ==> after[v] + multiset(g[u])[v] == before[v]
    ensures forall v :: 0 <= v < |g| ==> after[v] == Pending(g, Elements(order + [u]), v, |g|)
  {
    assert Elements(order + [u]) == Elements(order) + {u};
    forall v | 0 <= v < |g|
      ensures after[v] == Pending(g, Elements(order + [u]), v, |g|)
    {
      PendingOfDone(g, Elements(order), u, v, |g|);
    }
  }

  lemma ParentsFirstSnoc(g: Graph, order: seq<nat>, u: nat)
    requires ParentsFirst(g, order) && Pending(g, Elements(order), u, |g|) == 0
    ensures ParentsFirst(g, order + [u])
  {
    NothingPending(g, Elements(order), u, |g|);
    var next := order + [u];
    forall k: nat, w: nat | k < |next| && Edge(g, w, next[k])
      ensures w in next[..k]
    {
      if k < |order| {
        assert next[..k] == order[..k];
      } else {
        assert next[..k] == order;
        assert w in Elements(order);
      }
    }
  }

  lemma ReadyMembers(order: seq<nat>, u: nat, rest: seq<nat>, released: seq<nat>, x: nat)
    ensures x in order + [u] + (rest + released) <==> x in order + ([u] + rest) || x in released
  {}

  /** Processing the first ready vertex keeps the sorting state. */
  lemma SortStep(g: Graph, before: seq<nat>, order: seq<nat>, u: nat, rest: seq<nat>,
                 after: seq<nat>, released: seq<nat>)
    requires Sorting(g, before, order, [u] + rest) && |after| == |g| && u < |g| && u !in order
    requires forall v :: 0 <= v < |g| ==> after[v] + multiset(g[u])[v] == before[v]
    requires Distinct(released)
    requires forall v :: v in released <==> 0 <= v < |g| && before[v] > 0 && after[v] == 0
    ensures Sorting(g, after, order + [u], rest + released)
  {
    CountersAfter(g, before, order, u, after);
    ParentsFirstSnoc(g, order, u);
    var old', new' := order + ([u] + rest), order + [u] + (rest + released);
    assert new' == old' + released;
    DistinctAppend(old', released);
    forall v
      ensures v in new' <==> 0 <= v < |g| && after[v] == 0
    {
      if v >= 0 { ReadyMembers(order, u, rest, released, v); }
    }
  }

  lemma SortStart(g: Graph, indegrees: seq<nat>, ready: seq<nat>)
    requires WellFormed(g) && |indegrees| == |g|
    requires forall v :: 0 <= v < |g| ==> indegrees[v] == Pending(g, {}, v, |g|)
    requires Distinct(ready) && forall v :: v in ready <==> 0 <= v < |g| && indegrees[v] == 0
    ensures Sorting(g, indegrees, [], ready)
  {
    assert [] + ready == ready && Elements([]) == {};
  }

  lemma SortBound(g: Graph, indegrees: seq<nat>, order: seq<nat>, ready: seq<nat>)
    requires Sorting(g, indegrees, order, ready)
    ensures |order| + |ready| <= |g| && forall i :: 0 <= i < |order| ==> order[i] < |g|
    ensures ready != [] ==> ready[0] < |g| && ready[0] !in order
  {
    var all := order + ready;
    forall i | 0 <= i < |all| ensures all[i] < |g| { assert all[i] in all; }
    DistinctBelow(all, |g|);
    forall i | 0 <= i < |order| ensures order[i] < |g| { assert all[i] == order[i]; }
    if ready != [] {
      assert all[|order|] == ready[0];
      forall i | 0 <= i < |order| ensures order[i] != ready[0] { assert all[i] == order[i]; }
    }
  }

  /** When nothing is ready, the unordered vertices all keep an unordered parent. */
  lemma StuckIsParentClosed(g: Graph, indegrees: seq<nat>, order: seq<nat>)
    requires Sorting(g, indegrees, order, [])
    ensures ParentClosed(g, Below(|g|) - Elements(order))
  {
    var c := Below(|g|) - Elements(order);
    forall v | v in c
      ensures v < |g| && HasParentIn(g, c, v)
    {
      assert order + [] == order;
      assert v !in order + [];
      var u := SomethingPending(g, Elements(order), v, |g|);
    }
  }

  datatype SortResult = Sorted(order: seq<nat>) | CycleAt(vertex: nat)

  /** Kahn's algorithm. It succeeds exactly on acyclic graphs, with a permutation that puts
      every parent before its children; otherwise it names a vertex on a cycle or
      downstream of one. */
  method BuildTopologicalOrder(g: Graph) returns (r: SortResult)
    requires WellFormed(g)
    ensures r.Sorted? <==> Acyclic(g)
    ensures r.Sorted? ==> IsTopological(g, r.order)
    ensures r.CycleAt? ==> r.vertex < |g| && BlockedByCycle(g, r.vertex)
  {
    var indegrees := CountIndegrees(g);
    var ready := InitiallyReady(indegrees);
    var order: seq<nat> := [];
    SortStart(g, indegrees[..], ready);
    while ready != []
      invariant indegrees.Length == |g| && Sorting(g, indegrees[..], order, ready)
      decreases |g| - |order|
    {
      SortBound(g, indegrees[..], order, ready);
      var u, rest := ready[0], ready[1..];
      ghost var before := indegrees[..];
      assert ready == [u] + rest;
      EnoughPending(g, before, order, ready, u);
      var next := ReleaseChildren(indegrees, g[u], rest);
      SortStep(g, before, order, u, rest, indegrees[..], next[|rest|..]);
      assert next == rest + next[|rest|..];
      order, ready := order + [u], next;
      SortBound(g, indegrees[..], order, ready);
    }
    SortBound(g, indegrees[..], order, []);
    if |order| != |g| {
      var v := FirstNonzero(indegrees, g, order);
      StuckIsParentClosed(g, indegrees[..], order);
      ParentClosedIsBlocked(g, Below(|g|) - Elements(order), v);
      BlockedIsNotAcyclic(g, v);
      return CycleAt(v);
    }
    assert order + [] == order;
    TopologicalIsAcyclic(g, order);
    return Sorted(order);
  }

  method InitiallyReady(indegrees: array<nat>) returns (ready: seq<nat>)
    ensures Distinct(ready)
    ensures forall v :: v in ready <==> 0 <= v < indegrees.Length && indegrees[v] == 0
  {
    ready := [];
    for v := 0 to indegrees.Length
      invariant Distinct(ready)
      invariant forall x :: x in ready <==> 0 <= x < v && indegrees[x] == 0
    {
      if indegrees[v] == 0 {
        ready := ready + [v];
      }
    }
  }

  /** First vertex with a pending edge; there is one whenever the sort is stuck early. */
  method FirstNonzero(indegrees: array<nat>, ghost g: Graph, ghost order: seq<nat>) returns (v: nat)
    requires indegrees.Length == |g| && Sorting(g, indegrees[..], order, []) && |order| < |g|
    ensures v < |g| && indegrees[v] != 0 && v !in order
    ensures forall w :: 0 <= w < v ==> indegrees[w] == 0
  {
    v := 0;
    assert order + [] == order;
    while v < indegrees.Length && indegrees[v] == 0
      invariant v <= indegrees.Length
      invariant forall w :: 0 <= w < v ==> indegrees[w] == 0
    {
      v := v + 1;
    }
    if v == indegrees.Length {
      AllOrdered(g, indegrees[..], order);
      assert false;
    }
  }

  lemma AllOrdered(g: Graph, indegrees: seq<nat>, order: seq<nat>)
    requires Sorting(g, indegrees, order, []) && forall v :: 0 <= v < |g| ==> indegrees[v] == 0
    ensures |order| == |g|
  {
    assert order + [] == order;
    DistinctSize(order);
    assert Elements(order) == Below(|g|);
  }

  // ------------------------------------------------------- nesting depth

  predicate RootPath(g: Graph, root: nat, p: seq<nat>, v: nat) { Connects(g, p, root, v) }

  ghost predicate Reachable(g: Graph, root: nat, v: nat) { exists p: seq<nat> :: RootPath(g, root, p, v) }

  ghost predicate PathOfLength(g: Graph, root: nat, v: nat, d: nat) {
    exists p: seq<nat> :: RootPath(g, root, p, v) && |p| == d
  }

  ghost predicate AllReachable(g: Graph, root: nat) { forall v: nat :: v < |g| ==> Reachable(g, root, v) }

  ghost predicate PathsWithin(g: Graph, root: nat, v: nat, d: nat) {
    forall p: seq<nat> :: RootPath(g, root, p, v) ==> |p| <= d
  }

  /** `d` is the number of vertices on a longest path from the root to `v`. */
  ghost predicate IsLongest(g: Graph, root: nat, v: nat, d: nat) {
    PathOfLength(g, root, v, d) && PathsWithin(g, root, v, d)
  }

  ghost predicate AllLongest(g: Graph, root: nat, depths: seq<nat>) {
    |depths| == |g| && forall v: nat :: v < |g| ==> IsLongest(g, root, v, depths[v])
  }

  /** A recorded depth is the length of some path from the root. */
  ghost predicate Witnessed(g: Graph, root: nat, depths: seq<nat>) {
    forall v: nat :: v < |depths| && depths[v] > 0 ==> PathOfLength(g, root, v, depths[v])
  }

  /** The edge from `u` to `v` has been taken into account. */
  predicate Relaxed(depths: seq<nat>, u: nat, v: nat) {
    u < |depths| && v < |depths| && depths[u] > 0 ==> depths[u] < depths[v]
  }

  /** All edges out of the first `k` ordered vertices have been taken into account. */
  ghost predicate RelaxedUpTo(g: Graph, order: seq<nat>, depths: seq<nat>, k: nat)
    requires k <= |order|
  {
    forall i: nat, v: nat :: i < k && Edge(g, order[i], v) ==> Relaxed(depths, order[i], v)
  }

  /** Depths after relaxing the edges to the given children. */
  function RaiseTo(depths: seq<nat>, children: seq<nat>, d: nat): (r: seq<nat>)
    ensures |r| == |depths|
    ensures forall v :: 0 <= v < |depths| ==>
              r[v] == if v in children && d > depths[v] then d else depths[v]
  {
    seq(|depths|, v requires 0 <= v < |depths| => if v in children && d > depths[v] then d else depths[v])
  }

  /** `m` is the greatest entry. */
  ghost predicate IsMaximum(depths: seq<nat>, m: nat) {
    m in depths && forall v :: 0 <= v < |depths| ==> depths[v] <= m
  }

  /** Relaxes the edges to the children, stopping at the first depth over the limit. */
  method RaiseChildren(depths: array<nat>, children: seq<nat>, d: nat, limit: nat, maximum: nat)
    returns (over: Option<nat>, newMaximum: nat)
    requires forall j :: 0 <= j < |children| ==> children[j] < depths.Length
    requires IsMaximum(depths[..], maximum) && maximum <= limit
    modifies depths
    ensures over.Some? ==> over.value in children && d > limit
    ensures over.None? ==> depths[..] == RaiseTo(old(depths[..]), children, d)
    ensures over.None? ==> newMaximum <= limit && IsMaximum(depths[..], newMaximum)
  {
    newMaximum := maximum;
    for j := 0 to |children|
      invariant forall v :: 0 <= v < depths.Length ==>
                  depths[v] == if v in children[..j] && d > old(depths[v]) then d else old(depths[v])
      invariant newMaximum <= limit && IsMaximum(depths[..], newMaximum)
    {
      TakeOneMore(children, j);
      var child := children[j];
      if d > depths[child] {
        RaisedMaximum(depths[..], child, d, newMaximum);
        ghost var before := depths[..];
        depths[child] := d;
        assert depths[..] == before[child := d];
        if d > newMaximum { newMaximum := d; }
        if d > limit {
          return Some(child), newMaximum;
        }
      }
    }
    assert children[..|children|] == children;
    return None, newMaximum;
  }

  lemma RaisedMaximum(depths: seq<nat>, v: nat, d: nat, m: nat)
    requires v < |depths| && d > depths[v] && IsMaximum(depths, m)
    ensures IsMaximum(depths[v := d], if d > m then d else m)
  {
    var r := depths[v := d];
    assert r[v] == d;
    if d <= m {
      var i :| 0 <= i < |depths| && depths[i] == m;
      assert r[i] == m;
    }
  }

  /** Extending a recorded path by one edge. */
  lemma LongerPath(g: Graph, root: nat, depths: seq<nat>, u: nat, v: nat)
    requires WellFormed(g) && |depths| == |g| && u < |g| && depths[u] > 0 && Witnessed(g, root, depths)
    requires Edge(g, u, v)
    ensures PathOfLength(g, root, v, depths[u] + 1)
  {
    assert PathOfLength(g, root, u, depths[u]);
    var p: seq<nat> :| RootPath(g, root, p, u) && |p| == depths[u];
    PathSnoc(g, p, v);
    assert RootPath(g, root, p + [v], v);
  }

  /** Depths stay within the vertex count, so a 32-bit depth never overflows. */
  lemma DepthFits(g: Graph, root: nat, order: seq<nat>, depths: seq<nat>, u: nat)
    requires WellFormed(g) && |depths| == |g| && u < |g| && depths[u] > 0 && Witnessed(g, root, depths)
    requires IsTopological(g, order) && g[u] != []
    ensures depths[u] + 1 <= |g|
  {
    LongerPath(g, root, depths, u, g[u][0]);
    var p: seq<nat> :| RootPath(g, root, p, g[u][0]) && |p| == depths[u] + 1;
    PathLengthBound(g, order, p);
  }

  lemma WitnessedAfter(g: Graph, root: nat, depths: seq<nat>, u: nat)
    requires WellFormed(g) && |depths| == |g| && u < |g| && depths[u] > 0 && Witnessed(g, root, depths)
    ensures Witnessed(g, root, RaiseTo(depths, g[u], depths[u] + 1))
  {
    var r := RaiseTo(depths, g[u], depths[u] + 1);
    forall v: nat | v < |r| && r[v] > 0
      ensures PathOfLength(g, root, v, r[v])
    {
      if r[v] != depths[v] { LongerPath(g, root, depths, u, v); }
    }
  }

  /** No vertex up to position `k` is a child of the vertex at position `k`. */
  lemma NotChildOfLater(g: Graph, order: seq<nat>, i: nat, k: nat)
    requires IsTopological(g, order) && i <= k < |order|
    ensures !Edge(g, order[k], order[i])
  {
  }

  /** Processing the vertex at position `k` takes its edges into account and leaves the
      depths of processed vertices alone. */
  lemma RelaxedAfter(g: Graph, order: seq<nat>, depths: seq<nat>, k: nat)
    requires WellFormed(g) && IsTopological(g, order) && |depths| == |g| && k < |order|
    requires RelaxedUpTo(g, order, depths, k)
    ensures RelaxedUpTo(g, order, RaiseTo(depths, g[order[k]], depths[order[k]] + 1), k + 1)
  {
    var u := order[k];
    var r := RaiseTo(depths, g[u], depths[u] + 1);
    forall i: nat, v: nat | i < k + 1 && Edge(g, order[i], v)
      ensures Relaxed(r, order[i], v)
    {
      NotChildOfLater(g, order, i, k);
      if i < k { assert Relaxed(depths, order[i], v); }
    }
  }

  lemma RelaxedAfterSkip(g: Graph, order: seq<nat>, depths: seq<nat>, k: nat)
    requires |depths| == |g| && k < |order| && order[k] < |g|
    requires RelaxedUpTo(g, order, depths, k) && (depths[order[k]] == 0 || g[order[k]] == [])
    ensures RelaxedUpTo(g, order, depths, k + 1)
  {
    forall i: nat, v: nat | i < k + 1 && Edge(g, order[i], v)
      ensures Relaxed(depths, order[i], v)
    {
      if i < k { assert Relaxed(depths, order[i], v); }
    }
  }

  /** Once every edge is taken into account, depths bound all paths from the root. */
  lemma {:induction false} PathWithinDepth(g: Graph, order: seq<nat>, depths: seq<nat>, root: nat, p: seq<nat>)
    requires IsTopological(g, order) && |depths| == |g| && RelaxedUpTo(g, order, depths, |order|)
    requires IsPath(g, p) && p[0] == root && depths[root] > 0
    ensures |p| <= depths[p[|p| - 1]]
  {
    if |p| > 1 {
      SubPath(g, p, 0, |p| - 1);
      PathWithinDepth(g, order, depths, root, p[..|p| - 1]);
      var u := p[|p| - 2];
      assert Hop(g, p, |p| - 1);
      TopologicalContains(g, order, u);
      var i := IndexOf(order, u);
      assert Relaxed(depths, order[i], p[|p| - 1]);
    }
  }

  /** The final depths: zero exactly for unreachable vertices, else the longest path. */
  lemma FinalDepths(g: Graph, order: seq<nat>, depths: seq<nat>, root: nat)
    requires IsTopological(g, order) && |depths| == |g| && RelaxedUpTo(g, order, depths, |order|)
    requires Witnessed(g, root, depths) && root < |g| && depths[root] > 0
    ensures forall v: nat :: v < |g| && depths[v] == 0 ==> !Reachable(g, root, v)
    ensures (forall v: nat :: v < |g| ==> depths[v] != 0) ==> AllLongest(g, root, depths)
  {
    forall v: nat, p: seq<nat> | v < |g| && RootPath(g, root, p, v)
      ensures |p| <= depths[v]
    {
      PathWithinDepth(g, order, depths, root, p);
    }
    if forall v: nat :: v < |g| ==> depths[v] != 0 {
      forall v: nat | v < |g| ensures IsLongest(g, root, v, depths[v]) {}
    }
  }

  datatype DepthResult = Deepest(maximum: nat) | TooDeep(vertex: nat) | Unreachable(vertex: nat)

  /** What each outcome of the depth pass says about the graph. */
  ghost predicate DepthMeans(g: Graph, root: nat, limit: nat, r: DepthResult) {
    match r
    case Deepest(d) =>
      && AllReachable(g, root) && d <= limit
      && (forall v: nat :: v < |g| ==> PathsWithin(g, root, v, d))
      && (exists v: nat :: v < |g| && PathOfLength(g, root, v, d))
    case TooDeep(v) => exists d: nat :: v < |g| && PathOfLength(g, root, v, d) && d > limit
    case Unreachable(v) => v < |g| && !Reachable(g, root, v)
  }

  lemma DeepestMeans(g: Graph, root: nat, depths: seq<nat>, maximum: nat, limit: nat)
    requires AllLongest(g, root, depths) && IsMaximum(depths, maximum) && maximum <= limit
    ensures DepthMeans(g, root, limit, Deepest(maximum))
  {
    forall v: nat | v < |g|
      ensures Reachable(g, root, v) && PathsWithin(g, root, v, maximum)
    {
      assert IsLongest(g, root, v, depths[v]);
    }
    var v: nat :| v < |g| && depths[v] == maximum;
    assert IsLongest(g, root, v, depths[v]);
  }

  method FirstZero(depths: array<nat>) returns (r: Option<nat>)
    ensures r.None? ==> 0 !in depths[..]
    ensures r.Some? ==> r.value < depths.Length && depths[r.value] == 0
                        && forall v: nat :: v < r.value ==> depths[v] != 0
  {
    for v := 0 to depths.Length
      invariant forall w: nat :: w < v ==> depths[w] != 0
    {
      if depths[v] == 0 {
        return Some(v);
      }
    }
    return None;
  }

  /** State of the depth pass after `k` ordered vertices. */
  ghost predicate Deepening(g: Graph, root: nat, order: seq<nat>, depths: seq<nat>, k: nat) {
    && WellFormed(g) && IsTopological(g, order) && k <= |order|
    && |depths| == |g| && root < |g| && depths[root] > 0
    && Witnessed(g, root, depths) && RelaxedUpTo(g, order, depths, k)
  }

  lemma DeepeningStart(g: Graph, root: nat, order: seq<nat>)
    requires WellFormed(g) && IsTopological(g, order) && root < |g|
    ensures Deepening(g, root, order, Rooted(|g|, root), 0) && IsMaximum(Rooted(|g|, root), 1)
  {
    assert RootPath(g, root, [root], root);
    assert PathOfLength(g, root, root, 1);
    assert Rooted(|g|, root)[root] == 1;
  }

  function Rooted(n: nat, root: nat): (s: seq<nat>)
    ensures |s| == n && forall v :: 0 <= v < n ==> s[v] == if v == root then 1 else 0
  {
    seq(n, v => if v == root then 1 else 0)
  }

  lemma DeepeningStep(g: Graph, root: nat, order: seq<nat>, depths: seq<nat>, k: nat)
    requires Deepening(g, root, order, depths, k) && k < |order|
    ensures order[k] < |g|
    ensures depths[order[k]] == 0 || g[order[k]] == [] ==> Deepening(g, root, order, depths, k + 1)
    ensures depths[order[k]] > 0 && g[order[k]] != [] ==>
              && depths[order[k]] + 1 <= |g|
              && Deepening(g, root, order, RaiseTo(depths, g[order[k]], depths[order[k]] + 1), k + 1)
  {
    if depths[order[k]] == 0 || g[order[k]] == [] {
      RelaxedAfterSkip(g, order, depths, k);
    } else {
      DepthFits(g, root, order, depths, order[k]);
      RelaxedAfter(g, order, depths, k);
      WitnessedAfter(g, root, depths, order[k]);
    }
  }

  lemma DeepeningEnd(g: Graph, root: nat, order: seq<nat>, depths: seq<nat>)
    requires Deepening(g, root, order, depths, |order|)
    ensures forall v: nat :: v < |g| && depths[v] == 0 ==> !Reachable(g, root, v)
    ensures 0 !in depths ==> AllLongest(g, root, depths)
  {
    FinalDepths(g, order, depths, root);
  }

  lemma TooDeepMeans(g: Graph, root: nat, order: seq<nat>, depths: seq<nat>, k: nat, v: nat, limit: nat)
    requires Deepening(g, root, order, depths, k) && k < |order| && order[k] < |g|
    requires depths[order[k]] > 0 && v in g[order[k]] && depths[order[k]] + 1 > limit
    ensures DepthMeans(g, root, limit, TooDeep(v))
  {
    LongerPath(g, root, depths, order[k], v);
  }

  /** Takes the edges out of one ordered vertex into account. The 32-bit increment of the
      parent's depth never overflows. */
  method Deepen(g: Graph, root: nat, order: seq<nat>, k: nat, depths: array<nat>, limit: nat, maximum: nat)
    returns (over: Option<nat>, newMaximum: nat)
    requires k < |order| && |g| <= U32_MAX && Deepening(g, root, order, depths[..], k)
    requires IsMaximum(depths[..], maximum) && maximum <= limit
    modifies depths
    ensures over.None? ==> Deepening(g, root, order, depths[..], k + 1)
    ensures over.None? ==> IsMaximum(depths[..], newMaximum) && newMaximum <= limit
    ensures over.Some? ==> DepthMeans(g, root, limit, TooDeep(over.value))
  {
    ghost var before := depths[..];
    DeepeningStep(g, root, order, before, k);
    var u := order[k];
    over, newMaximum := None, maximum;
    if depths[u] != 0 && g[u] != [] {
      assert before[u] == depths[u] < U32_MAX;
      over, newMaximum := RaiseChildren(depths, g[u], depths[u] + 1, limit, maximum);
      if over.Some? {
        TooDeepMeans(g, root, order, before, k, over.value, limit);
      }
    }
  }

  /** Longest root paths by relaxation in topological order, for at most 2^32-1 functions
      and a limit that the root alone meets. A success reports the greatest of the longest
      path lengths; each failure names an offending function. */
  method ValidateNestingDepth(g: Graph, root: nat, order: seq<nat>, limit: nat)
    returns (r: DepthResult, ghost final: seq<nat>)
    requires WellFormed(g) && IsTopological(g, order) && root < |g| <= U32_MAX && 1 <= limit
    ensures DepthMeans(g, root, limit, r)
    ensures r.Deepest? ==> AllLongest(g, root, final)
  {
    var depths := new nat[|g|](_ => 0);
    depths[root] := 1;
    var maximum: nat := 1;
    assert depths[..] == Rooted(|g|, root);
    DeepeningStart(g, root, order);
    for k := 0 to |order|
      invariant Deepening(g, root, order, depths[..], k)
      invariant IsMaximum(depths[..], maximum) && maximum <= limit
    {
      var over, m := Deepen(g, root, order, k, depths, limit, maximum);
      if over.Some? {
        return TooDeep(over.value), [];
      }
      maximum := m;
    }
    final := depths[..];
    DeepeningEnd(g, root, order, final);
    var zero := FirstZero(depths);
    if zero.Some? {
      return Unreachable(zero.value), final;
    }
    DeepestMeans(g, root, final, maximum, limit);
    return Deepest(maximum), final;
  }

  /** Success is equivalent to reachability of all functions and bounded root paths. */
  lemma DepthExact(g: Graph, root: nat, limit: nat, r: DepthResult)
    requires DepthMeans(g, root, limit, r)
    ensures r.Deepest? <==>
            AllReachable(g, root) && forall v: nat :: v < |g| ==> PathsWithin(g, root, v, limit)
  {
    match r
    case Deepest(d) =>
      forall v: nat | v < |g| ensures PathsWithin(g, root, v, limit) { assert PathsWithin(g, root, v, d); }
    case TooDeep(v) =>
      var d: nat :| PathOfLength(g, root, v, d) && d > limit;
      var p: seq<nat> :| RootPath(g, root, p, v) && |p| == d;
      assert !PathsWithin(g, root, v, limit);
    case Unreachable(v) =>
  }

  /** In an acyclic graph whose vertices are all reachable, the root alone has no parent. */
  lemma OnlyRootHasNoParent(g: Graph, root: nat, v: nat)
    requires Acyclic(g) && root < |g| && v < |g| && AllReachable(g, root)
    ensures (exists u: nat :: Edge(g, u, v)) <==> v != root
  {
    if v != root {
      assert Reachable(g, root, v);
      var p: seq<nat> :| RootPath(g, root, p, v);
      assert Hop(g, p, |p| - 1);
    } else if u: nat :| Edge(g, u, root) {
      assert Reachable(g, root, u);
      var p: seq<nat> :| RootPath(g, root, p, u);
      PathSnoc(g, p, root);
      assert IsCycle(g, p + [root]);
    }
  }
}
