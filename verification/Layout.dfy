/** Branch relaxation: widths, positions and the least valid layout. */
module Layout {
  import opened Schema
  import opened Codec
  import opened Plan

  predicate SupportsWidth(k: BranchKind, w: nat) {
    match k
    case IfFalse => w == 2 || w == 5
    case IfTrue => w == 2 || w == 5
    case Goto => w == 2 || w == 3 || w == 5
    case Catch => w == 5
    case Gosub => w == 5
  }

  function MinimumBranchSize(k: BranchKind): nat {
    if k.Catch? || k.Gosub? then 5 else 2
  }

  function MinimumSize(item: Item): (n: nat)
    ensures n <= 11
  {
    match item
    case Plain(i) => EncodedSize(i)
    case Branch(k, _) => MinimumBranchSize(k)
    case WithBranch(_, _, _, _) => 10
  }

  /** Whether a displacement is encodable by a branch of the given size. */
  predicate FitsWidth(d: int, w: nat) {
    match w
    case 2 => -0x80 <= d < 0x80
    case 3 => -0x8000 <= d < 0x8000
    case 5 => -0x8000_0000 <= d < 0x8000_0000
    case _ => false
  }

  type Widths = seq<nat>

  /** Byte offset of item `i` under the given widths. */
  function Position(ws: Widths, i: nat): (n: nat)
    requires i <= |ws|
  {
    if i == 0 then 0 else Position(ws, i - 1) + ws[i - 1]
  }

  /** Every item has a size it can be encoded with. */
  predicate Shape(p: Plan, ws: Widths) {
    && |ws| == |p.items|
    && forall i :: 0 <= i < |ws| ==>
         if p.items[i].Branch? then SupportsWidth(p.items[i].kind, ws[i])
         else ws[i] == MinimumSize(p.items[i])
  }

  /** Distance from the first operand byte of branch `i` to its target. */
  function Displacement(p: Plan, ws: Widths, i: nat): int
    requires Resolved(p) && |ws| == |p.items| && i < |ws| && p.items[i].Branch?
  {
    Position(ws, TargetOf(p, i)) - (Position(ws, i) + 1)
  }

  predicate BranchFits(p: Plan, ws: Widths, i: nat)
    requires Resolved(p) && |ws| == |p.items| && i < |ws| && p.items[i].Branch?
  {
    FitsWidth(Displacement(p, ws, i), ws[i])
  }

  /** An assignment of sizes under which every branch reaches its target. */
  predicate ValidLayout(p: Plan, ws: Widths)
    requires Resolved(p)
  {
    Shape(p, ws) && forall i :: 0 <= i < |ws| && p.items[i].Branch? ==> BranchFits(p, ws, i)
  }

  predicate Below(ws: Widths, vs: Widths) {
    |ws| == |vs| && forall i :: 0 <= i < |ws| ==> ws[i] <= vs[i]
  }

  /** No valid layout is anywhere narrower than `ws`. */
  ghost predicate LowerBound(p: Plan, ws: Widths)
    requires Resolved(p)
  {
    forall vs :: ValidLayout(p, vs) ==> Below(ws, vs)
  }

  /** The least valid layout: valid, and pointwise no wider than any valid one. */
  ghost predicate LeastLayout(p: Plan, ws: Widths)
    requires Resolved(p)
  {
    ValidLayout(p, ws) && LowerBound(p, ws)
  }

  // ------------------------------------------------------- monotonicity of distances

  /** Widening items never brings two boundaries closer. */
  lemma {:induction false} DistanceMonotone(ws: Widths, vs: Widths, i: nat, j: nat)
    requires Below(ws, vs) && i <= j <= |ws|
    ensures Position(ws, j) - Position(ws, i) <= Position(vs, j) - Position(vs, i)
  {
    if i < j { DistanceMonotone(ws, vs, i, j - 1); }
  }

  lemma {:induction false} PositionIncreasing(ws: Widths, i: nat, j: nat)
    requires i <= j <= |ws|
    ensures Position(ws, i) <= Position(ws, j)
  {
    if i < j { PositionIncreasing(ws, i, j - 1); }
  }

  /** Resizing item `i` moves exactly the boundaries after it. */
  lemma {:induction false} PositionAfterUpdate(ws: Widths, i: nat, c: nat, j: nat)
    requires i < |ws| && j <= |ws|
    ensures Position(ws[i := c], j) == Position(ws, j) + (if j > i then c - ws[i] else 0)
  {
    if j > 0 { PositionAfterUpdate(ws, i, c, j - 1); }
  }

  lemma {:induction false} PositionBound(ws: Widths, j: nat)
    requires j <= |ws| && forall i :: 0 <= i < |ws| ==> ws[i] <= 11
    ensures Position(ws, j) <= 11 * j
  {
    if j > 0 { PositionBound(ws, j - 1); }
  }

  /** Narrowing the other items keeps a branch of unchanged size encodable. */
  lemma FitsWhenNarrowed(p: Plan, ws: Widths, vs: Widths, i: nat)
    requires Resolved(p) && |ws| == |p.items| && Below(ws, vs) && i < |ws| && p.items[i].Branch?
    requires 0 < ws[i] == vs[i] && BranchFits(p, vs, i)
    ensures BranchFits(p, ws, i)
  {
    var t := TargetOf(p, i);
    if t > i {
      DistanceMonotone(ws, vs, i, t);
      PositionIncreasing(ws, i + 1, t);
    } else {
      DistanceMonotone(ws, vs, t, i);
      PositionIncreasing(ws, t, i);
    }
  }

  // ------------------------------------------------------- one relaxation decision

  /** Size `c` is available to branch `i` and reaches its target, counting the bytes
      that the larger operand itself adds before a forward target. */
  predicate Candidate(p: Plan, ws: Widths, i: nat, c: nat)
    requires Resolved(p) && |ws| == |p.items| && i < |ws| && p.items[i].Branch?
  {
    c >= ws[i] && SupportsWidth(p.items[i].kind, c) && BranchFits(p, ws[i := c], i)
  }

  /** The smallest candidate size of branch `i`, if any. */
  function Required(p: Plan, ws: Widths, i: nat): (r: Option<nat>)
    requires Resolved(p) && |ws| == |p.items| && i < |ws| && p.items[i].Branch?
    ensures r.Some? ==> Candidate(p, ws, i, r.value)
    ensures forall c :: Candidate(p, ws, i, c) ==> r.Some? && r.value <= c
  {
    if Candidate(p, ws, i, 2) then Some(2)
    else if Candidate(p, ws, i, 3) then Some(3)
    else if Candidate(p, ws, i, 5) then Some(5)
    else None
  }

  /** A valid layout above `ws` bounds what one decision can ask for. */
  lemma RequiredBelowValid(p: Plan, ws: Widths, vs: Widths, i: nat)
    requires Resolved(p) && ValidLayout(p, vs) && Below(ws, vs)
    requires i < |ws| && p.items[i].Branch?
    ensures Required(p, ws, i).Some? && Required(p, ws, i).value <= vs[i]
  {
    assert BranchFits(p, vs, i);
    FitsWhenNarrowed(p, ws[i := vs[i]], vs, i);
    assert Candidate(p, ws, i, vs[i]);
  }

  /** `next` is what one full pass over the branches makes of `ws`. */
  predicate PassOf(p: Plan, ws: Widths, next: Widths)
    requires Resolved(p)
  {
    && |ws| == |p.items| == |next|
    && forall i :: 0 <= i < |ws| ==>
         if p.items[i].Branch? then Required(p, ws, i) == Some(next[i]) else next[i] == ws[i]
  }

  lemma PassKeepsLowerBound(p: Plan, ws: Widths, next: Widths)
    requires Resolved(p) && LowerBound(p, ws) && PassOf(p, ws, next)
    ensures LowerBound(p, next)
  {
    forall vs | ValidLayout(p, vs)
      ensures Below(next, vs)
    {
      forall i | 0 <= i < |next|
        ensures next[i] <= vs[i]
      {
        assert Below(ws, vs);
        if p.items[i].Branch? { RequiredBelowValid(p, ws, vs, i); }
      }
    }
  }

  /** A branch that no remaining size can encode rules out every layout. */
  lemma NoCandidateNoLayout(p: Plan, ws: Widths, i: nat)
    requires Resolved(p) && LowerBound(p, ws) && |ws| == |p.items|
    requires i < |ws| && p.items[i].Branch? && Required(p, ws, i).None?
    ensures forall vs :: !ValidLayout(p, vs)
  {
    forall vs | ValidLayout(p, vs)
      ensures false
    {
      RequiredBelowValid(p, ws, vs, i);
    }
  }

  /** A pass that changes nothing has reached a valid layout. */
  lemma FixedPointIsValid(p: Plan, ws: Widths)
    requires Resolved(p) && Shape(p, ws) && PassOf(p, ws, ws)
    ensures ValidLayout(p, ws)
  {
    forall i | 0 <= i < |ws| && p.items[i].Branch?
      ensures BranchFits(p, ws, i)
    {
      assert Candidate(p, ws, i, ws[i]);
      assert ws[i := ws[i]] == ws;
    }
  }

  // ------------------------------------------------------- how often a branch can widen

  function MinimumWidths(items: seq<Item>): (ws: Widths)
    ensures |ws| == |items| && forall i :: 0 <= i < |items| ==> ws[i] == MinimumSize(items[i])
  {
    seq(|items|, i requires 0 <= i < |items| => MinimumSize(items[i]))
  }

  lemma MinimumIsLowerBound(p: Plan)
    requires Resolved(p)
    ensures Shape(p, MinimumWidths(p.items)) && LowerBound(p, MinimumWidths(p.items))
  {}

  /** Number of wider sizes still available to an item of the given size. */
  function Slack(item: Item, w: nat): nat {
    if !item.Branch? then 0
    else match item.kind
      case Goto => if w == 2 then 2 else if w == 3 then 1 else 0
      case IfFalse => if w == 2 then 1 else 0
      case IfTrue => if w == 2 then 1 else 0
      case _ => 0
  }

  function TotalSlack(items: seq<Item>, ws: Widths): nat
    requires |items| == |ws|
  {
    if items == [] then 0 else Slack(items[0], ws[0]) + TotalSlack(items[1..], ws[1..])
  }

  lemma {:induction false} SlackDecreases(items: seq<Item>, ws: Widths, next: Widths)
    requires |items| == |ws| && Below(ws, next)
    requires forall i :: 0 <= i < |items| && items[i].Branch? ==>
               SupportsWidth(items[i].kind, ws[i]) && SupportsWidth(items[i].kind, next[i])
    requires forall i :: 0 <= i < |items| && !items[i].Branch? ==> ws[i] == next[i]
    ensures TotalSlack(items, next) <= TotalSlack(items, ws)
    ensures ws != next ==> TotalSlack(items, next) < TotalSlack(items, ws)
  {
    if items != [] {
      SlackDecreases(items[1..], ws[1..], next[1..]);
      assert ws == [ws[0]] + ws[1..] && next == [next[0]] + next[1..];
    }
  }

  function CountGotos(items: seq<Item>): nat {
    if items == [] then 0
    else (if items[0].Branch? && items[0].kind.Goto? then 1 else 0) + CountGotos(items[1..])
  }

  function CountConditionals(items: seq<Item>): nat {
    if items == [] then 0
    else (if items[0].Branch? && (items[0].kind.IfFalse? || items[0].kind.IfTrue?) then 1 else 0)
         + CountConditionals(items[1..])
  }

  /** The most passes relaxation can take. */
  function PassBound(items: seq<Item>): nat {
    1 + 2 * CountGotos(items) + CountConditionals(items)
  }

  lemma {:induction false} InitialSlack(items: seq<Item>)
    ensures TotalSlack(items, MinimumWidths(items)) == 2 * CountGotos(items) + CountConditionals(items)
  {
    if items != [] {
      InitialSlack(items[1..]);
      assert MinimumWidths(items)[1..] == MinimumWidths(items[1..]);
    }
  }
}
