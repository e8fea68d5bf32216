/** Goto threading as a relation between plans, and the proof that it preserves meaning. */
module Threading {
  import opened Schema
  import opened Codec
  import opened Plan

  // ------------------------------------------------------- chains of gotos

  predicate IsGoto(p: Plan, i: nat) {
    i < |p.items| && p.items[i].Branch? && p.items[i].kind.Goto?
  }

  /** The label a label's first instruction unconditionally transfers to, if any. */
  function Next(p: Plan, l: nat): (r: Option<nat>)
    requires Resolved(p) && l < |p.bindings|
    ensures r.Some? ==> r.value < |p.bindings| && At(p, r.value) < |p.items|
  {
    if IsGoto(p, At(p, l)) then Some(p.items[At(p, l)].target) else None
  }

  /** Following `n` gotos from label `l` arrives at label `t`. */
  predicate StepsTo(p: Plan, l: nat, n: nat, t: nat)
    requires Resolved(p) && l < |p.bindings|
    decreases n
  {
    if n == 0 then l == t
    else Next(p, l).Some? && StepsTo(p, Next(p, l).value, n - 1, t)
  }

  /** The chain from `l` ends, after `n` gotos, at a label that starts no goto. */
  predicate EndsAfter(p: Plan, l: nat, n: nat, t: nat)
    requires Resolved(p) && l < |p.bindings|
  {
    StepsTo(p, l, n, t) && t < |p.bindings| && Next(p, t).None?
  }

  ghost predicate Ends(p: Plan, l: nat, t: nat)
    requires Resolved(p) && l < |p.bindings|
  {
    exists n: nat :: EndsAfter(p, l, n, t)
  }

  /** The chain from `l` never leaves a goto cycle. */
  ghost predicate Cyclic(p: Plan, l: nat)
    requires Resolved(p) && l < |p.bindings|
  {
    forall t: nat :: !Ends(p, l, t)
  }

  lemma {:induction false} EndUnique(p: Plan, l: nat, n: nat, t: nat, n': nat, t': nat)
    requires Resolved(p) && l < |p.bindings| && EndsAfter(p, l, n, t) && EndsAfter(p, l, n', t')
    ensures n == n' && t == t'
    decreases n
  {
    if n > 0 && n' > 0 { EndUnique(p, Next(p, l).value, n - 1, t, n' - 1, t'); }
  }

  /** A label and the label its goto names end alike. */
  lemma EndsViaNext(p: Plan, l: nat, t: nat)
    requires Resolved(p) && l < |p.bindings| && Next(p, l).Some?
    ensures Ends(p, l, t) <==> Ends(p, Next(p, l).value, t)
  {
    var m := Next(p, l).value;
    if Ends(p, l, t) {
      var n: nat :| EndsAfter(p, l, n, t);
      assert EndsAfter(p, m, n - 1, t);
    }
    if Ends(p, m, t) {
      var n: nat :| EndsAfter(p, m, n, t);
      assert EndsAfter(p, l, n + 1, t);
    }
  }

  /** Labels whose gotos all stay among themselves are cyclic. */
  lemma {:induction false} ClosedSetNeverEnds(p: Plan, c: set<nat>, l: nat, n: nat, t: nat)
    requires Resolved(p) && l in c
    requires forall x :: x in c ==> x < |p.bindings| && Next(p, x).Some? && Next(p, x).value in c
    ensures !EndsAfter(p, l, n, t)
    decreases n
  {
    if n > 0 { ClosedSetNeverEnds(p, c, Next(p, l).value, n - 1, t); }
  }

  lemma {:induction false} EndIsInside(p: Plan, l: nat, n: nat, t: nat)
    requires Resolved(p) && l < |p.bindings| && At(p, l) < |p.items| && EndsAfter(p, l, n, t)
    ensures At(p, t) < |p.items|
    decreases n
  {
    if n > 0 { EndIsInside(p, Next(p, l).value, n - 1, t); }
  }

  // ------------------------------------------------------- the rewrite

  /** Branches whose destination threading may replace. */
  predicate Threadable(item: Item) {
    item.Branch? && (item.kind.IfFalse? || item.kind.IfTrue? || item.kind.Goto?)
  }

  /** `b` is what threading makes of item `a`: an ordinary branch goes straight to the
      end of its goto chain, everything else (goto cycles included) is untouched. */
  ghost predicate ThreadedItem(p: Plan, a: Item, b: Item)
    requires Resolved(p)
  {
    if Threadable(a) && a.target < |p.bindings| && !Cyclic(p, a.target)
    then b.Branch? && b.kind == a.kind && Ends(p, a.target, b.target)
    else b == a
  }

  ghost predicate IsThreading(p: Plan, q: Plan)
    requires Resolved(p)
  {
    && q.bindings == p.bindings && |q.items| == |p.items|
    && forall i :: 0 <= i < |p.items| ==> ThreadedItem(p, p.items[i], q.items[i])
  }

  /** Every threaded branch still names a planned instruction, never the stream end. */
  lemma ThreadingResolved(p: Plan, q: Plan)
    requires Resolved(p) && IsThreading(p, q)
    ensures Resolved(q)
  {
    forall l | 0 <= l < |q.bindings| ensures BoundWithin(q, l) { assert BoundWithin(p, l); }
    forall i | 0 <= i < |q.items| && !q.items[i].Plain?
      ensures BoundWithin(q, q.items[i].target) && q.bindings[q.items[i].target].value < |q.items|
    {
      assert ThreadedItem(p, p.items[i], q.items[i]);
      var l, t := p.items[i].target, q.items[i].target;
      assert BoundWithin(p, l);
      if l != t {
        var n: nat :| EndsAfter(p, l, n, t);
        EndIsInside(p, l, n, t);
        assert BoundWithin(p, t);
      }
    }
  }

  lemma SameGotos(p: Plan, q: Plan, i: nat)
    requires Resolved(p) && IsThreading(p, q)
    ensures IsGoto(p, i) <==> IsGoto(q, i)
  {
    if i < |p.items| { assert ThreadedItem(p, p.items[i], q.items[i]); }
  }

  // ------------------------------------------------------- landing positions

  /** From position `pc`, `n` gotos lead to position `e`, which is no goto. */
  predicate Lands(p: Plan, pc: nat, n: nat, e: nat)
    requires Resolved(p)
    decreases n
  {
    if n == 0 then pc == e && !IsGoto(p, pc)
    else IsGoto(p, pc) && Lands(p, TargetOf(p, pc), n - 1, e)
  }

  lemma {:induction false} LandsUnique(p: Plan, pc: nat, n: nat, e: nat, n': nat, e': nat)
    requires Resolved(p) && Lands(p, pc, n, e) && Lands(p, pc, n', e')
    ensures n == n' && e == e'
    decreases n
  {
    if n > 0 && n' > 0 { LandsUnique(p, TargetOf(p, pc), n - 1, e, n' - 1, e'); }
  }

  lemma {:induction false} EndsLands(p: Plan, l: nat, n: nat, t: nat)
    requires Resolved(p) && l < |p.bindings| && EndsAfter(p, l, n, t)
    ensures Lands(p, At(p, l), n, At(p, t))
    decreases n
  {
    if n > 0 { EndsLands(p, Next(p, l).value, n - 1, t); }
  }

  lemma {:induction false} LandsEnds(p: Plan, l: nat, n: nat, e: nat) returns (t: nat)
    requires Resolved(p) && l < |p.bindings| && Lands(p, At(p, l), n, e)
    ensures EndsAfter(p, l, n, t) && At(p, t) == e
    decreases n
  {
    if n == 0 {
      t := l;
    } else {
      t := LandsEnds(p, Next(p, l).value, n - 1, e);
    }
  }

  /** A threaded goto of a chain that lands leads straight to the landing place. */
  lemma ThreadedGoto(p: Plan, q: Plan, pc: nat, n: nat, e: nat)
    requires Resolved(p) && Resolved(q) && IsThreading(p, q) && n > 0 && Lands(p, pc, n, e)
    ensures IsGoto(q, pc) && TargetOf(q, pc) == e && !IsGoto(q, e)
  {
    SameGotos(p, q, pc);
    var l := p.items[pc].target;
    var t := LandsEnds(p, l, n - 1, e);
    assert ThreadedItem(p, p.items[pc], q.items[pc]);
    assert Ends(p, l, t);
    var k: nat :| EndsAfter(p, l, k, q.items[pc].target);
    EndUnique(p, l, n - 1, t, k, q.items[pc].target);
    EndNotGoto(p, q, t);
  }

  /** A chain of the original plan lands at the same place, no later, after threading. */
  lemma LandsForward(p: Plan, q: Plan, pc: nat, n: nat, e: nat) returns (n': nat)
    requires Resolved(p) && Resolved(q) && IsThreading(p, q) && Lands(p, pc, n, e)
    ensures n' <= n && Lands(q, pc, n', e)
  {
    if n == 0 {
      SameGotos(p, q, pc);
      n' := 0;
    } else {
      ThreadedGoto(p, q, pc, n, e);
      assert Lands(q, e, 0, e);
      n' := 1;
    }
  }

  lemma EndNotGoto(p: Plan, q: Plan, t: nat)
    requires Resolved(p) && IsThreading(p, q) && t < |p.bindings| && Next(p, t).None?
    ensures !IsGoto(q, At(p, t))
  {
    SameGotos(p, q, At(p, t));
  }

  /** A chain of the threaded plan lands where the original one does. */
  lemma {:induction false} LandsBackward(p: Plan, q: Plan, pc: nat, n: nat, e: nat) returns (n': nat)
    requires Resolved(p) && Resolved(q) && IsThreading(p, q) && Lands(q, pc, n, e)
    ensures n <= n' && Lands(p, pc, n', e)
    decreases n
  {
    SameGotos(p, q, pc);
    if n == 0 {
      n' := 0;
    } else {
      var l := p.items[pc].target;
      assert ThreadedItem(p, p.items[pc], q.items[pc]);
      if Cyclic(p, l) {
        var k := LandsBackward(p, q, At(p, l), n - 1, e);
        var t := LandsEnds(p, l, k, e);
        assert Ends(p, l, t);
        assert false;
      } else {
        var t := q.items[pc].target;
        var k: nat :| EndsAfter(p, l, k, t);
        EndNotGoto(p, q, t);
        EndsLands(p, l, k, t);
        n' := k + 1;
      }
    }
  }

  /** Threading a second time changes nothing. */
  lemma ThreadingIdempotent(p: Plan, q: Plan, r: Plan)
    requires Resolved(p) && IsThreading(p, q) && Resolved(q) && IsThreading(q, r)
    ensures r == q
  {
    forall i | 0 <= i < |q.items|
      ensures r.items[i] == q.items[i]
    {
      assert ThreadedItem(p, p.items[i], q.items[i]);
      assert ThreadedItem(q, q.items[i], r.items[i]);
      var a := p.items[i];
      if Threadable(a) {
        assert BoundWithin(p, a.target);
        var t := q.items[i].target;
        if Cyclic(p, a.target) {
          assert Cyclic(q, t) by { CyclicStays(p, q, t); }
        } else {
          var n: nat :| EndsAfter(p, a.target, n, t);
          EndNotGoto(p, q, t);
          assert EndsAfter(q, t, 0, t);
          var k: nat :| EndsAfter(q, t, k, r.items[i].target);
          EndUnique(q, t, 0, t, k, r.items[i].target);
        }
      }
    }
    assert r.items == q.items;
  }

  lemma CyclicStays(p: Plan, q: Plan, l: nat)
    requires Resolved(p) && Resolved(q) && IsThreading(p, q) && l < |p.bindings| && Cyclic(p, l)
    ensures Cyclic(q, l)
  {
    forall t: nat
      ensures !Ends(q, l, t)
    {
      if Ends(q, l, t) {
        var n: nat :| EndsAfter(q, l, n, t);
        EndsLands(q, l, n, t);
        var k := LandsBackward(p, q, At(q, l), n, At(q, t));
        var t' := LandsEnds(p, l, k, At(q, t));
        assert Ends(p, l, t');
      }
    }
  }

  // ------------------------------------------------------- nothing left to thread

  /** No conditional or unconditional branch leads to a goto, but for those on goto cycles. */
  ghost predicate NoRedundantGotos(q: Plan)
    requires Resolved(q)
  {
    forall i: nat :: i < |q.items| && q.items[i].Branch? && q.items[i].kind in {IfFalse, IfTrue, Goto} ==>
      !IsGoto(q, TargetOf(q, i)) || Cyclic(q, q.items[i].target)
  }

  /** Everything but those branches is as before, and they keep their kind. */
  predicate OnlyBranchesRetargeted(p: Plan, q: Plan) {
    && q.bindings == p.bindings && |q.items| == |p.items|
    && forall i :: 0 <= i < |p.items| ==>
         if p.items[i].Branch? && p.items[i].kind in {IfFalse, IfTrue, Goto}
         then q.items[i].Branch? && q.items[i].kind == p.items[i].kind
         else q.items[i] == p.items[i]
  }

  lemma BranchThreaded(p: Plan, q: Plan, i: nat)
    requires Resolved(p) && Resolved(q) && IsThreading(p, q) && i < |q.items|
    requires q.items[i].Branch? && q.items[i].kind in {IfFalse, IfTrue, Goto}
    ensures !IsGoto(q, TargetOf(q, i)) || Cyclic(q, q.items[i].target)
  {
    assert ThreadedItem(p, p.items[i], q.items[i]);
    var l, t := p.items[i].target, q.items[i].target;
    assert BoundWithin(p, l);
    if Cyclic(p, l) {
      CyclicStays(p, q, l);
    } else {
      var n: nat :| EndsAfter(p, l, n, t);
      EndNotGoto(p, q, t);
    }
  }

  /** Threading is complete: it leaves no branch to a goto outside goto cycles, and touches
      nothing else. */
  lemma ThreadingComplete(p: Plan, q: Plan)
    requires Resolved(p) && Resolved(q) && IsThreading(p, q)
    ensures NoRedundantGotos(q) && OnlyBranchesRetargeted(p, q)
  {
    forall i: nat | i < |q.items| && q.items[i].Branch? && q.items[i].kind in {IfFalse, IfTrue, Goto}
      ensures !IsGoto(q, TargetOf(q, i)) || Cyclic(q, q.items[i].target)
    {
      BranchThreaded(p, q, i);
    }
    forall i | 0 <= i < |p.items|
      ensures if p.items[i].Branch? && p.items[i].kind in {IfFalse, IfTrue, Goto}
              then q.items[i].Branch? && q.items[i].kind == p.items[i].kind
              else q.items[i] == p.items[i]
    {
      assert ThreadedItem(p, p.items[i], q.items[i]);
    }
  }

  // ------------------------------------------------------- step semantics

  /** What the machine is asked to do at a non-goto item. Handler, subroutine and
      object-environment targets are visible to it; a conditional's target is not. */
  datatype Op =
    | Execute(instruction: Instruction)
    | Test(onTrue: bool)
    | Install(handler: nat)
    | Enter(subroutine: nat)
    | Environment(opcode: nat, atom: u32, value: u8, target: nat)

  /** Where the machine continues: the next item, the item's own target, a position it
      remembered (a return address or a handler), or nowhere. */
  datatype Control = Continue | Take | Resume(position: nat) | Halt

  type Machine<!S> = (Op, nat, S) -> (S, Control)

  datatype Event<S> = Event(position: nat, op: Op, state: S)

  function OpAt(p: Plan, i: nat): Op
    requires Resolved(p) && i < |p.items| && !IsGoto(p, i)
  {
    match p.items[i]
    case Plain(instruction) => Execute(instruction)
    case Branch(IfFalse, _) => Test(false)
    case Branch(IfTrue, _) => Test(true)
    case Branch(Catch, _) => Install(TargetOf(p, i))
    case Branch(_, _) => Enter(TargetOf(p, i))
    case WithBranch(opcode, atom, value, _) => Environment(opcode, atom, value, TargetOf(p, i))
  }

  /** Position after executing item `i`; the position past the end stops the run. */
  function Successor(p: Plan, i: nat, c: Control): nat
    requires Resolved(p) && i < |p.items|
  {
    match c
    case Continue => i + 1
    case Take => if p.items[i].Plain? then |p.items| else TargetOf(p, i)
    case Resume(q) => q
    case Halt => |p.items|
  }

  /** The non-goto instructions executed within `fuel` steps, with the states they saw. */
  function Trace<S>(m: Machine<S>, p: Plan, pc: nat, s: S, fuel: nat): seq<Event<S>>
    requires Resolved(p)
    decreases fuel
  {
    if fuel == 0 || pc >= |p.items| then []
    else if IsGoto(p, pc) then Trace(m, p, TargetOf(p, pc), s, fuel - 1)
    else
      var (s', c) := m(OpAt(p, pc), pc, s);
      [Event(pc, OpAt(p, pc), s)] + Trace(m, p, Successor(p, pc, c), s', fuel - 1)
  }

  ghost predicate Prefix<T>(a: seq<T>, b: seq<T>) { a <= b }

  lemma PrefixTransitive<T>(a: seq<T>, b: seq<T>, c: seq<T>)
    requires Prefix(a, b) && Prefix(b, c)
    ensures Prefix(a, c)
  {}

  lemma PrefixCons<T>(x: T, a: seq<T>, b: seq<T>)
    requires Prefix(a, b)
    ensures Prefix([x] + a, [x] + b)
  {}

  lemma {:induction false} TraceGrows<S>(m: Machine<S>, p: Plan, pc: nat, s: S, a: nat, b: nat)
    requires Resolved(p) && a <= b
    ensures Prefix(Trace(m, p, pc, s, a), Trace(m, p, pc, s, b))
    decreases a
  {
    if a > 0 && pc < |p.items| {
      if IsGoto(p, pc) {
        TraceGrows(m, p, TargetOf(p, pc), s, a - 1, b - 1);
      } else {
        var (s', c) := m(OpAt(p, pc), pc, s);
        TraceGrows(m, p, Successor(p, pc, c), s', a - 1, b - 1);
        PrefixCons(Event(pc, OpAt(p, pc), s), Trace(m, p, Successor(p, pc, c), s', a - 1),
                   Trace(m, p, Successor(p, pc, c), s', b - 1));
      }
    }
  }

  /** Gotos are silent: a run that lands at `e` after `n` gotos is the run from `e`. */
  lemma {:induction false} TraceFromLanding<S>(m: Machine<S>, p: Plan, pc: nat, n: nat, e: nat, s: S, fuel: nat)
    requires Resolved(p) && Lands(p, pc, n, e)
    ensures fuel <= n ==> Trace(m, p, pc, s, fuel) == []
    ensures fuel >= n ==> Trace(m, p, pc, s, fuel) == Trace(m, p, e, s, fuel - n)
    decreases n
  {
    if n > 0 && fuel > 0 { TraceFromLanding(m, p, TargetOf(p, pc), n - 1, e, s, fuel - 1); }
  }

  /** A run caught in a goto cycle executes nothing. */
  lemma {:induction false} TraceOfCycle<S>(m: Machine<S>, p: Plan, pc: nat, s: S, fuel: nat)
    requires Resolved(p) && forall n: nat, e: nat :: !Lands(p, pc, n, e)
    ensures Trace(m, p, pc, s, fuel) == []
    decreases fuel
  {
    if fuel > 0 && pc < |p.items| {
      assert !Lands(p, pc, 0, pc);
      forall n: nat, e: nat | Lands(p, TargetOf(p, pc), n, e)
        ensures false
      {
        assert Lands(p, pc, n + 1, e);
      }
      TraceOfCycle(m, p, TargetOf(p, pc), s, fuel - 1);
    }
  }

  datatype Landing = Never | After(gotos: nat, position: nat)

  /** Where a run continues once it has left the gotos at `pc`, if it ever does. */
  ghost function LandingOf(p: Plan, pc: nat): (r: Landing)
    requires Resolved(p)
    ensures r.After? ==> Lands(p, pc, r.gotos, r.position)
    ensures r.Never? ==> forall n: nat, e: nat :: !Lands(p, pc, n, e)
  {
    if n: nat, e: nat :| Lands(p, pc, n, e) then After(n, e) else Never
  }

  /** Position `a` of `p` and `b` of `q` land at the same item, `b` no later than `a`. */
  ghost predicate Matches(p: Plan, a: nat, q: Plan, b: nat)
    requires Resolved(p) && Resolved(q)
  {
    match (LandingOf(p, a), LandingOf(q, b))
    case (Never, Never) => true
    case (After(n, e), After(n', e')) => e == e' && n' <= n
    case _ => false
  }

  lemma LandingKnown(p: Plan, pc: nat, n: nat, e: nat)
    requires Resolved(p) && Lands(p, pc, n, e)
    ensures LandingOf(p, pc) == After(n, e)
  {
    var r := LandingOf(p, pc);
    LandsUnique(p, pc, n, e, r.gotos, r.position);
  }

  lemma SamePosition(p: Plan, q: Plan, pc: nat)
    requires Resolved(p) && Resolved(q) && IsThreading(p, q)
    ensures Matches(p, pc, q, pc)
  {
    match LandingOf(p, pc)
    case After(n, e) =>
      var n' := LandsForward(p, q, pc, n, e);
      LandingKnown(q, pc, n', e);
    case Never =>
      match LandingOf(q, pc)
      case After(n, e) => var n' := LandsBackward(p, q, pc, n, e);
      case Never =>
  }

  /** Executing the same non-goto item, both plans continue at matching positions. */
  lemma MatchingSuccessors(p: Plan, q: Plan, i: nat, c: Control)
    requires Resolved(p) && Resolved(q) && IsThreading(p, q) && i < |p.items| && !IsGoto(p, i)
    ensures !IsGoto(q, i) && OpAt(q, i) == OpAt(p, i)
    ensures Matches(p, Successor(p, i, c), q, Successor(q, i, c))
  {
    assert ThreadedItem(p, p.items[i], q.items[i]);
    SameGotos(p, q, i);
    if Successor(p, i, c) == Successor(q, i, c) {
      SamePosition(p, q, Successor(p, i, c));
    } else {
      var l, t := p.items[i].target, q.items[i].target;
      var n: nat :| EndsAfter(p, l, n, t);
      EndsLands(p, l, n, t);
      EndNotGoto(p, q, t);
      LandingKnown(p, At(p, l), n, At(p, t));
      LandingKnown(q, At(q, t), 0, At(q, t));
    }
  }

  /** Item `i` does the same in both plans and continues at matching positions. */
  ghost predicate SameStep(p: Plan, q: Plan, i: nat, c: Control)
    requires Resolved(p) && Resolved(q) && i < |p.items| == |q.items| && !IsGoto(p, i)
  {
    && !IsGoto(q, i) && OpAt(q, i) == OpAt(p, i)
    && Matches(p, Successor(p, i, c), q, Successor(q, i, c))
  }

  ghost predicate Simulates(p: Plan, q: Plan)
    requires Resolved(p) && Resolved(q)
  {
    && |p.items| == |q.items|
    && forall i: nat, c: Control :: i < |p.items| && !IsGoto(p, i) ==> SameStep(p, q, i, c)
  }

  lemma ThreadingSimulates(p: Plan, q: Plan)
    requires Resolved(p) && Resolved(q) && IsThreading(p, q)
    ensures Simulates(p, q)
  {
    forall i: nat, c: Control | i < |p.items| && !IsGoto(p, i)
      ensures SameStep(p, q, i, c)
    {
      MatchingSuccessors(p, q, i, c);
    }
  }

  lemma TraceStep<S>(m: Machine<S>, p: Plan, e: nat, s: S, fuel: nat)
    requires Resolved(p) && e < |p.items| && !IsGoto(p, e)
    ensures var (s', c) := m(OpAt(p, e), e, s);
            Trace(m, p, e, s, fuel + 1) == [Event(e, OpAt(p, e), s)] + Trace(m, p, Successor(p, e, c), s', fuel)
  {}

  lemma {:induction false} LandingIsNoGoto(p: Plan, pc: nat, n: nat, e: nat)
    requires Resolved(p) && Lands(p, pc, n, e)
    ensures !IsGoto(p, e)
    decreases n
  {
    if n > 0 { LandingIsNoGoto(p, TargetOf(p, pc), n - 1, e); }
  }

  /** Threaded runs execute everything original runs do, in no more steps. */
  lemma {:induction false} TraceForward<S>(m: Machine<S>, p: Plan, a: nat, q: Plan, b: nat, s: S, fuel: nat)
    requires Resolved(p) && Resolved(q) && Simulates(p, q) && Matches(p, a, q, b)
    ensures Prefix(Trace(m, p, a, s, fuel), Trace(m, q, b, s, fuel))
    decreases fuel, 1
  {
    match LandingOf(p, a)
    case Never => TraceOfCycle(m, p, a, s, fuel);
    case After(n, e) =>
      var n' := LandingOf(q, b).gotos;
      TraceFromLanding(m, p, a, n, e, s, fuel);
      TraceFromLanding(m, q, b, n', e, s, fuel);
      LandingIsNoGoto(p, a, n, e);
      if fuel > n {
        TraceForwardAt(m, p, q, e, s, fuel - n);
        TraceGrows(m, q, e, s, fuel - n, fuel - n');
        PrefixTransitive(Trace(m, p, e, s, fuel - n), Trace(m, q, e, s, fuel - n),
                         Trace(m, q, e, s, fuel - n'));
      }
  }

  lemma {:induction false} TraceForwardAt<S>(m: Machine<S>, p: Plan, q: Plan, e: nat, s: S, fuel: nat)
    requires Resolved(p) && Resolved(q) && Simulates(p, q) && !IsGoto(p, e)
    ensures Prefix(Trace(m, p, e, s, fuel), Trace(m, q, e, s, fuel))
    decreases fuel, 0
  {
    if fuel > 0 && e < |p.items| {
      var (s', c) := m(OpAt(p, e), e, s);
      assert SameStep(p, q, e, c);
      TraceForward(m, p, Successor(p, e, c), q, Successor(q, e, c), s', fuel - 1);
      TraceStep(m, p, e, s, fuel - 1);
      TraceStep(m, q, e, s, fuel - 1);
      PrefixCons(Event(e, OpAt(p, e), s), Trace(m, p, Successor(p, e, c), s', fuel - 1),
                 Trace(m, q, Successor(q, e, c), s', fuel - 1));
    }
  }

  /** Original runs execute everything threaded runs do, given enough steps. */
  lemma {:induction false} TraceBackward<S>(m: Machine<S>, p: Plan, a: nat, q: Plan, b: nat, s: S, fuel: nat)
    returns (fuel': nat)
    requires Resolved(p) && Resolved(q) && Simulates(p, q) && Matches(p, a, q, b)
    ensures Prefix(Trace(m, q, b, s, fuel), Trace(m, p, a, s, fuel'))
    decreases fuel, 1
  {
    match LandingOf(q, b)
    case Never =>
      fuel' := 0;
      TraceOfCycle(m, q, b, s, fuel);
    case After(n, e) =>
      var n' := LandingOf(p, a).gotos;
      LandingIsNoGoto(p, a, n', e);
      var k := TraceBackwardAt(m, p, q, e, s, if fuel > n then fuel - n else 0);
      fuel' := n' + k;
      TraceFromLanding(m, q, b, n, e, s, fuel);
      TraceFromLanding(m, p, a, n', e, s, fuel');
  }

  lemma {:induction false} TraceBackwardAt<S>(m: Machine<S>, p: Plan, q: Plan, e: nat, s: S, fuel: nat)
    returns (fuel': nat)
    requires Resolved(p) && Resolved(q) && Simulates(p, q) && !IsGoto(p, e)
    ensures Prefix(Trace(m, q, e, s, fuel), Trace(m, p, e, s, fuel'))
    decreases fuel, 0
  {
    fuel' := 0;
    if fuel > 0 && e < |p.items| {
      var (s', c) := m(OpAt(p, e), e, s);
      assert SameStep(p, q, e, c);
      var k := TraceBackward(m, p, Successor(p, e, c), q, Successor(q, e, c), s', fuel - 1);
      fuel' := k + 1;
      TraceStep(m, p, e, s, k);
      TraceStep(m, q, e, s, fuel - 1);
      PrefixCons(Event(e, OpAt(p, e), s), Trace(m, q, Successor(q, e, c), s', fuel - 1),
                 Trace(m, p, Successor(p, e, c), s', k));
    }
  }

  /** Threading preserves meaning: for every machine, start position and state, both
      plans run the same sequence of non-goto instructions in the same states, and the
      threaded plan never needs more steps. */
  lemma ThreadingPreservesRuns<S>(m: Machine<S>, p: Plan, q: Plan, pc: nat, s: S, fuel: nat)
    requires Resolved(p) && Resolved(q) && IsThreading(p, q)
    ensures Prefix(Trace(m, p, pc, s, fuel), Trace(m, q, pc, s, fuel))
    ensures exists fuel': nat :: Prefix(Trace(m, q, pc, s, fuel), Trace(m, p, pc, s, fuel'))
  {
    ThreadingSimulates(p, q);
    SamePosition(p, q, pc);
    TraceForward(m, p, pc, q, pc, s, fuel);
    var fuel' := TraceBackward(m, p, pc, q, pc, s, fuel);
  }
}
