/** Directed multigraphs over dense indices: paths, cycles and topological orders. */
module Digraph {
  import opened Finite

  /** Successor lists; a repeated entry is a repeated edge. */
  type Graph = seq<seq<nat>>

  predicate WellFormed(g: Graph) {
    forall u, j :: 0 <= u < |g| && 0 <= j < |g[u]| ==> g[u][j] < |g|
  }

  predicate Edge(g: Graph, u: nat, v: nat) { u < |g| && v in g[u] }

  predicate IsPath(g: Graph, p: seq<nat>) {
    && |p| > 0 && (forall i :: 0 <= i < |p| ==> p[i] < |g|)
    && forall i :: 0 < i < |p| ==> Hop(g, p, i)
  }

  /** Step `i` of a walk follows an edge. */
  predicate Hop(g: Graph, p: seq<nat>, i: nat)
    requires 0 < i < |p|
  {
    Edge(g, p[i - 1], p[i])
  }

  predicate Connects(g: Graph, p: seq<nat>, u: nat, v: nat) {
    IsPath(g, p) && p[0] == u && p[|p| - 1] == v
  }

  predicate IsCycle(g: Graph, p: seq<nat>) {
    IsPath(g, p) && |p| > 1 && p[0] == p[|p| - 1]
  }

  ghost predicate Acyclic(g: Graph) { forall p :: !IsCycle(g, p) }

  /** `v` lies on a directed cycle or downstream of one. */
  ghost predicate BlockedByCycle(g: Graph, v: nat) {
    exists c, p :: IsCycle(g, c) && Connects(g, p, c[0], v)
  }

  /** All parents of an ordered vertex come before it. */
  ghost predicate ParentsFirst(g: Graph, order: seq<nat>) {
    forall k: nat, u: nat :: k < |order| && Edge(g, u, order[k]) ==> u in order[..k]
  }

  /** A permutation of the vertices with every parent before its children. */
  ghost predicate IsTopological(g: Graph, order: seq<nat>) {
    && |order| == |g| && Distinct(order) && (forall k :: 0 <= k < |order| ==> order[k] < |g|)
    && ParentsFirst(g, order)
  }

  // ------------------------------------------------------- topological orders and cycles

  function IndexOf(s: seq<nat>, x: nat): (i: nat)
    requires x in s
    ensures i < |s| && s[i] == x
  {
    if s[0] == x then 0 else 1 + IndexOf(s[1..], x)
  }

  lemma IndexUnique(s: seq<nat>, i: nat)
    requires Distinct(s) && i < |s|
    ensures IndexOf(s, s[i]) == i
  {}

  lemma TopologicalContains(g: Graph, order: seq<nat>, v: nat)
    requires IsTopological(g, order) && v < |g|
    ensures v in order
  {
    DistinctBelow(order, |g|);
  }

  lemma EdgeAscends(g: Graph, order: seq<nat>, u: nat, v: nat)
    requires IsTopological(g, order) && Edge(g, u, v) && v < |g|
    ensures u in order && v in order && IndexOf(order, u) < IndexOf(order, v)
  {
    TopologicalContains(g, order, v);
    var k := IndexOf(order, v);
    assert u in order[..k];
    var i :| 0 <= i < k && order[i] == u;
    IndexUnique(order, i);
  }

  /** Ranks rise by at least one along every edge of a path. */
  lemma {:induction false} PathAscends(g: Graph, order: seq<nat>, p: seq<nat>)
    requires IsTopological(g, order) && IsPath(g, p)
    ensures p[0] in order && p[|p| - 1] in order
    ensures IndexOf(order, p[0]) + |p| - 1 <= IndexOf(order, p[|p| - 1])
  {
    TopologicalContains(g, order, p[0]);
    if |p| > 1 {
      var q := p[..|p| - 1];
      SubPath(g, p, 0, |p| - 1);
      PathAscends(g, order, q);
      assert Hop(g, p, |p| - 1);
      EdgeAscends(g, order, p[|p| - 2], p[|p| - 1]);
    }
  }

  lemma TopologicalIsAcyclic(g: Graph, order: seq<nat>)
    requires IsTopological(g, order)
    ensures Acyclic(g)
  {
    forall p | IsCycle(g, p)
      ensures false
    {
      PathAscends(g, order, p);
    }
  }

  lemma PathLengthBound(g: Graph, order: seq<nat>, p: seq<nat>)
    requires IsTopological(g, order) && IsPath(g, p)
    ensures |p| <= |g|
  {
    PathAscends(g, order, p);
  }

  predicate HasParentIn(g: Graph, c: set<nat>, v: nat) { exists u :: u in c && Edge(g, u, v) }

  /** Vertices that all keep a parent among themselves. */
  predicate ParentClosed(g: Graph, c: set<nat>) {
    forall v {:trigger HasParentIn(g, c, v)} :: v in c ==> v < |g| && HasParentIn(g, c, v)
  }

  /** Walking backwards inside such a set never gets stuck. */
  lemma {:induction false} BackwardWalk(g: Graph, c: set<nat>, v: nat, n: nat) returns (p: seq<nat>)
    requires ParentClosed(g, c) && v in c
    ensures IsPath(g, p) && |p| == n + 1 && p[n] == v && p[0] in c
  {
    if n == 0 {
      assert HasParentIn(g, c, v);
      p := [v];
    } else {
      var q := BackwardWalk(g, c, v, n - 1);
      assert HasParentIn(g, c, q[0]);
      var u :| u in c && Edge(g, u, q[0]);
      PathCons(g, u, q);
      p := [u] + q;
    }
  }

  lemma PathCons(g: Graph, u: nat, q: seq<nat>)
    requires IsPath(g, q) && Edge(g, u, q[0])
    ensures IsPath(g, [u] + q)
  {
    var p := [u] + q;
    forall i | 0 < i < |p|
      ensures Hop(g, p, i)
    {
      if i > 1 { assert Hop(g, q, i - 1); }
    }
  }

  lemma PathSnoc(g: Graph, p: seq<nat>, v: nat)
    requires IsPath(g, p) && Edge(g, p[|p| - 1], v) && v < |g|
    ensures IsPath(g, p + [v])
  {
    var q := p + [v];
    forall i | 0 < i < |q|
      ensures Hop(g, q, i)
    {
      if i < |p| { assert Hop(g, p, i); }
    }
  }

  lemma SubPath(g: Graph, p: seq<nat>, i: nat, j: nat)
    requires IsPath(g, p) && i < j <= |p|
    ensures IsPath(g, p[i..j])
  {
    var q := p[i..j];
    forall k | 0 < k < |q|
      ensures Hop(g, q, k)
    {
      assert Hop(g, p, i + k);
    }
  }

  /** Every vertex of a parent-closed set is blocked by a cycle. */
  lemma ParentClosedIsBlocked(g: Graph, c: set<nat>, v: nat)
    requires ParentClosed(g, c) && v in c
    ensures BlockedByCycle(g, v)
  {
    var p := BackwardWalk(g, c, v, |g|);
    var i, j := Pigeonhole(p, |g|);
    SubPath(g, p, i, j + 1);
    SubPath(g, p, j, |p|);
    var loop, rest := p[i..j + 1], p[j..|p|];
    assert IsCycle(g, loop) && Connects(g, rest, loop[0], v);
  }

  lemma BlockedIsNotAcyclic(g: Graph, v: nat)
    requires BlockedByCycle(g, v)
    ensures !Acyclic(g)
  {}
}
