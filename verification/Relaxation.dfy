/** The relaxation loop of the assembler, proved to compute the least valid layout. */
module Relaxation {
  import opened Schema
  import opened Plan
  import opened Layout

  const I64_MAX: int := 0x7FFF_FFFF_FFFF_FFFF

  predicate IsPositions(ws: Widths, ps: seq<nat>) {
    |ps| == |ws| + 1 && forall i :: 0 <= i <= |ws| ==> ps[i] == Position(ws, i)
  }

  /** Prefix sums of the widths; rejected exactly when the total exceeds 64 bits. */
  method PopulatePositions(ws: Widths) returns (r: Result<seq<nat>, AssemblerError>)
    ensures r.Ok? <==> Position(ws, |ws|) <= U64_MAX
    ensures r.Ok? ==> IsPositions(ws, r.value)
    ensures r.Err? ==> r.error.EncodedLengthOutOfRange?
  {
    var ps := [0];
    for i := 0 to |ws|
      invariant |ps| == i + 1 && ps[i] <= U64_MAX
      invariant forall j :: 0 <= j <= i ==> ps[j] == Position(ws, j)
    {
      var next := ps[i] + ws[i];
      if next > U64_MAX {
        PositionIncreasing(ws, i + 1, |ws|);
        return Err(EncodedLengthOutOfRange(U64_MAX));
      }
      ps := ps + [next];
    }
    return Ok(ps);
  }

  /** Displacement from the first operand byte, checked against 64-bit arithmetic. */
  function SignedDisplacement(source: nat, target: nat): (r: Result<int, AssemblerError>)
    ensures source < I64_MAX && target <= I64_MAX ==> r == Ok(target - (source + 1))
  {
    if source + 1 > U64_MAX then Err(EncodedLengthOutOfRange(source))
    else
      var d := target - (source + 1);
      if -I64_MAX - 1 <= d <= I64_MAX then Ok(d)
      else Err(EncodedLengthOutOfRange(if source > target then source else target))
  }

  /** The layouts a plan of at most 2^32 - 1 items can have stay far below 64 bits. */
  predicate SmallLayout(ws: Widths) {
    |ws| <= U32_MAX && forall i :: 0 <= i < |ws| ==> ws[i] <= 11
  }

  lemma ShapeIsSmall(p: Plan, ws: Widths)
    requires Shape(p, ws) && |p.items| <= U32_MAX
    ensures SmallLayout(ws)
  {}

  /** Displacement of a branch whose own operand grows by `added` bytes. */
  function ResizedDisplacement(ps: seq<nat>, source: nat, target: nat, added: nat)
    : Result<int, AssemblerError>
    requires source < |ps| && target < |ps|
  {
    SignedDisplacement(ps[source], if target > source then ps[target] + added else ps[target])
  }

  /** The resized displacement is the displacement of the resized layout. */
  lemma ResizedIsExact(p: Plan, ws: Widths, i: nat, ps: seq<nat>, c: nat)
    requires Resolved(p) && |ws| == |p.items| && SmallLayout(ws) && IsPositions(ws, ps)
    requires i < |ws| && p.items[i].Branch? && ws[i] <= c <= 11
    ensures ResizedDisplacement(ps, i, TargetOf(p, i), c - ws[i])
         == Ok(Displacement(p, ws[i := c], i))
  {
    PositionBound(ws, i);
    PositionBound(ws, TargetOf(p, i));
    PositionAfterUpdate(ws, i, c, i);
    PositionAfterUpdate(ws, i, c, TargetOf(p, i));
  }

  /** Chooses the smallest size, not below the current one, that reaches the target.
      The positions are those of the current widths. */
  method RequiredBranchSize(p: Plan, ws: Widths, i: nat, ps: seq<nat>)
    returns (r: Result<nat, AssemblerError>)
    requires Resolved(p) && Shape(p, ws) && SmallLayout(ws) && IsPositions(ws, ps)
    requires i < |ws| && p.items[i].Branch?
    ensures r.Ok? ==> Required(p, ws, i) == Some(r.value)
    ensures r.Err? ==> Required(p, ws, i).None? && r.error.BranchDisplacementOutOfRange?
    ensures r.Err? ==> r.error.index == i && r.error.labelIndex == p.items[i].target
    ensures r.Err? ==> r.error.displacement == Displacement(p, ws[i := 5], i)
  {
    var kind, current, target := p.items[i].kind, ws[i], TargetOf(p, i);
    var candidates := [2, 3, 5];
    for k := 0 to 3
      invariant k > 0 ==> !Candidate(p, ws, i, 2)
      invariant k > 1 ==> !Candidate(p, ws, i, 3)
      invariant k > 2 ==> !Candidate(p, ws, i, 5)
    {
      var c := candidates[k];
      if c < current || !SupportsWidth(kind, c) {
        continue;
      }
      ResizedIsExact(p, ws, i, ps, c);
      var d := ResizedDisplacement(ps, i, target, c - current);
      if FitsWidth(d.value, c) {
        assert Candidate(p, ws, i, c);
        return Ok(c);
      }
    }
    ResizedIsExact(p, ws, i, ps, 5);
    var d := ResizedDisplacement(ps, i, target, 5 - current);
    return Err(BranchDisplacementOutOfRange(i, p.items[i].target, d.value));
  }

  /** Charges one evaluation per planned item for one pass. */
  function ChargePass(completed: nat, requested: nat, limit: nat): (r: Result<nat, AssemblerError>)
    requires completed <= limit <= U64_MAX && requested <= U32_MAX
    ensures r.Ok? <==> completed + requested <= limit
    ensures r.Ok? ==> r.value == completed + requested
    ensures r.Err? ==> r.error.RelaxationLimitExceeded? && r.error.limit == limit
                       && r.error.index == limit - completed < requested
  {
    var remaining := limit - completed;
    if requested > remaining
    then Err(RelaxationLimitExceeded(remaining, limit, if limit == U64_MAX then limit else limit + 1))
    else Ok(completed + requested)
  }

  /** One pass over the branches against fixed positions, updating the widths in place. */
  method RelaxationPass(p: Plan, ws: Widths, ps: seq<nat>)
    returns (r: Result<Widths, AssemblerError>, changed: bool)
    requires Resolved(p) && Shape(p, ws) && SmallLayout(ws) && IsPositions(ws, ps)
    ensures r.Ok? ==> PassOf(p, ws, r.value) && Shape(p, r.value) && Below(ws, r.value)
    ensures r.Ok? ==> (changed <==> r.value != ws)
    ensures r.Err? ==> r.error.BranchDisplacementOutOfRange?
    ensures r.Err? ==> exists i :: 0 <= i < |ws| && p.items[i].Branch? && Required(p, ws, i).None?
                                   && r.error.index == i && r.error.labelIndex == p.items[i].target
                                   && r.error.displacement == Displacement(p, ws[i := 5], i)
  {
    var widths := ws;
    changed := false;
    for i := 0 to |p.items|
      invariant |widths| == |ws|
      invariant forall j :: i <= j < |ws| ==> widths[j] == ws[j]
      invariant forall j :: 0 <= j < i ==>
                  if p.items[j].Branch? then Required(p, ws, j) == Some(widths[j])
                  else widths[j] == ws[j]
      invariant changed <==> exists j :: 0 <= j < i && widths[j] != ws[j]
    {
      if p.items[i].Branch? {
        var desired := RequiredBranchSize(p, ws, i, ps);
        if desired.Err? {
          return Err(desired.error), changed;
        }
        if desired.value > widths[i] {
          widths := widths[i := desired.value];
          changed := true;
        }
      }
    }
    return Ok(widths), changed;
  }

  // ------------------------------------------------------- how many passes a plan takes

  /** Some branch has no size that reaches its target. */
  predicate Stuck(p: Plan, ws: Widths)
    requires Resolved(p) && |ws| == |p.items|
  {
    exists i :: 0 <= i < |ws| && p.items[i].Branch? && Required(p, ws, i).None?
  }

  /** The widths after one pass. */
  function Widened(p: Plan, ws: Widths): (next: Widths)
    requires Resolved(p) && Shape(p, ws) && !Stuck(p, ws)
    ensures PassOf(p, ws, next) && Shape(p, next) && Below(ws, next)
    ensures TotalSlack(p.items, next) <= TotalSlack(p.items, ws)
    ensures next != ws ==> TotalSlack(p.items, next) < TotalSlack(p.items, ws)
  {
    var next := seq(|ws|, i requires 0 <= i < |ws| =>
      if p.items[i].Branch? then (assert Required(p, ws, i).Some?; Required(p, ws, i).value) else ws[i]);
    SlackDecreases(p.items, ws, next);
    next
  }

  /** Passes from the given widths to the one that fails or changes nothing. */
  function Rounds(p: Plan, ws: Widths): (n: nat)
    requires Resolved(p) && Shape(p, ws)
    ensures 0 < n <= TotalSlack(p.items, ws) + 1
    decreases TotalSlack(p.items, ws)
  {
    if Stuck(p, ws) || Widened(p, ws) == ws then 1 else 1 + Rounds(p, Widened(p, ws))
  }

  /** Passes that relaxing a plan takes; a plan without branches takes none. */
  function PassCount(p: Plan): nat
    requires Resolved(p)
  {
    if forall i | 0 <= i < |p.items| :: !p.items[i].Branch? then 0 else Rounds(p, MinimumWidths(p.items))
  }

  /** At most one for each widening that is possible, and one more. */
  lemma PassCountBounded(p: Plan)
    requires Resolved(p)
    ensures PassCount(p) <= PassBound(p.items)
  {
    InitialSlack(p.items);
  }

  lemma PassUnique(p: Plan, ws: Widths, next: Widths)
    requires Resolved(p) && Shape(p, ws) && PassOf(p, ws, next)
    ensures !Stuck(p, ws) && Widened(p, ws) == next
  {
    var w := Widened(p, ws);
    forall i | 0 <= i < |ws| ensures w[i] == next[i] {}
  }

  lemma OneMorePass(passes: nat, items: nat)
    ensures (passes + 1) * items == passes * items + items
  {}

  lemma Product(passes: nat, count: nat, items: nat)
    requires passes < count
    ensures passes * items + items <= count * items
  {
    assert (passes + 1) * items <= count * items;
  }

  /** One pass with its positions: it fails when no layout is valid, changes nothing at the
      least layout, and otherwise brings the plan one pass closer. */
  method Relax(p: Plan, ws: Widths)
    returns (next: Result<Widths, AssemblerError>, positions: seq<nat>, changed: bool)
    requires Resolved(p) && |p.items| <= U32_MAX && Shape(p, ws) && LowerBound(p, ws)
    ensures next.Err? ==> next.error.BranchDisplacementOutOfRange? && Rounds(p, ws) == 1
    ensures next.Err? ==> forall vs :: !ValidLayout(p, vs)
    ensures next.Ok? && !changed ==> LeastLayout(p, ws) && IsPositions(ws, positions) && Rounds(p, ws) == 1
    ensures next.Ok? && changed ==> Shape(p, next.value) && LowerBound(p, next.value)
    ensures next.Ok? && changed ==> Rounds(p, ws) == 1 + Rounds(p, next.value)
    ensures next.Ok? && changed ==> TotalSlack(p.items, next.value) < TotalSlack(p.items, ws)
  {
    ShapeIsSmall(p, ws);
    PositionBound(ws, |ws|);
    var populated := PopulatePositions(ws);
    positions := populated.value;
    next, changed := RelaxationPass(p, ws, positions);
    if next.Err? {
      NoCandidateNoLayout(p, ws, next.error.index);
      assert Stuck(p, ws);
      return;
    }
    PassUnique(p, ws, next.value);
    if changed {
      PassKeepsLowerBound(p, ws, next.value);
    } else {
      FixedPointIsValid(p, ws);
    }
  }

  /** The loop over passes, each charged before it is made. */
  method RelaxAll(p: Plan, limit: nat, ghost count: nat)
    returns (r: Result<(Widths, seq<nat>), AssemblerError>, evaluations: nat, ghost passes: nat)
    requires Resolved(p) && |p.items| <= U32_MAX && limit <= U64_MAX
    requires Shape(p, MinimumWidths(p.items)) && count == Rounds(p, MinimumWidths(p.items))
    ensures r.Ok? ==> LeastLayout(p, r.value.0) && IsPositions(r.value.0, r.value.1)
    ensures r.Err? && r.error.BranchDisplacementOutOfRange? ==> forall vs :: !ValidLayout(p, vs)
    ensures r.Err? ==> r.error.BranchDisplacementOutOfRange? || r.error.RelaxationLimitExceeded?
    ensures evaluations == passes * |p.items| <= limit
    ensures if r.Err? && r.error.RelaxationLimitExceeded?
            then passes < count && limit < evaluations + |p.items|
            else passes == count
  {
    passes, evaluations := 0, 0;
    MinimumIsLowerBound(p);
    var widths := MinimumWidths(p.items);
    while true
      invariant Shape(p, widths) && LowerBound(p, widths)
      invariant passes + Rounds(p, widths) == count
      invariant evaluations == passes * |p.items| <= limit
      decreases TotalSlack(p.items, widths)
    {
      OneMorePass(passes, |p.items|);
      var charged := ChargePass(evaluations, |p.items|, limit);
      if charged.Err? {
        return Err(charged.error), evaluations, passes;
      }
      evaluations := charged.value;
      passes := passes + 1;
      var next, positions, changed := Relax(p, widths);
      if next.Err? {
        return Err(next.error), evaluations, passes;
      }
      if !changed {
        return Ok((widths, positions)), evaluations, passes;
      }
      widths := next.value;
    }
  }

  /** Relaxes every branch from its shortest form. On success the layout is the least
      valid one; a displacement failure means that no layout at all is valid; the only other
      failure is a budget below one evaluation per item for each pass that the plan takes. */
  method RelaxedLayout(p: Plan, limit: nat)
    returns (r: Result<(Widths, seq<nat>), AssemblerError>, ghost passes: nat)
    requires Resolved(p) && |p.items| <= U32_MAX && limit <= U64_MAX
    ensures r.Ok? ==> LeastLayout(p, r.value.0) && IsPositions(r.value.0, r.value.1)
    ensures r.Err? && r.error.BranchDisplacementOutOfRange? ==> forall vs :: !ValidLayout(p, vs)
    ensures r.Err? ==> r.error.BranchDisplacementOutOfRange? || r.error.RelaxationLimitExceeded?
    ensures r.Err? && r.error.RelaxationLimitExceeded? <==> limit < PassCount(p) * |p.items|
    ensures limit >= PassCount(p) * |p.items| ==> passes == PassCount(p)
    ensures passes <= PassCount(p) <= PassBound(p.items) && passes * |p.items| <= limit
  {
    PassCountBounded(p);
    if forall i | 0 <= i < |p.items| :: !p.items[i].Branch? {
      var widths := MinimumWidths(p.items);
      MinimumIsLowerBound(p);
      ShapeIsSmall(p, widths);
      PositionBound(widths, |widths|);
      var positions := PopulatePositions(widths);
      return Ok((widths, positions.value)), 0;
    }
    MinimumIsLowerBound(p);
    var evaluations;
    r, evaluations, passes := RelaxAll(p, limit, PassCount(p));
    if passes < PassCount(p) { Product(passes, PassCount(p), |p.items|); }
  }
}
