/** The closed ledger between parser fixtures and manifest cases. */
module Manifest {
  import opened Finite
  import opened ManifestCase
  import opened Schema

  // ------------------------------------------------------- fixtures by path

  predicate DistinctPaths(fs: seq<Fixture>) { forall i, j :: 0 <= i < j < |fs| ==> fs[i].path != fs[j].path }

  /** Position of the fixture with a path, or the number of fixtures. */
  function Locate(fs: seq<Fixture>, path: string): (i: nat)
    ensures i <= |fs| && (i < |fs| ==> fs[i].path == path)
    ensures i == |fs| ==> forall k :: 0 <= k < |fs| ==> fs[k].path != path
  {
    if fs == [] then 0
    else if fs[0].path == path then 0
    else 1 + Locate(fs[1..], path)
  }

  lemma Located(fs: seq<Fixture>, i: nat)
    requires DistinctPaths(fs) && i < |fs|
    ensures Locate(fs, fs[i].path) == i
  {}

  /** An index of fixtures that are not yet declared. */
  ghost predicate Indexes(fs: seq<Fixture>, declared: set<string>, actual: map<string, nat>) {
    forall p ::
      && (p in actual <==> p !in declared && Locate(fs, p) < |fs|)
      && (p in actual ==> actual[p] == Locate(fs, p))
  }

  /** The case names an existing fixture and agrees with it. */
  predicate Declares(l: Ledger, fs: seq<Fixture>, c: Case) {
    var i := Locate(fs, c.path);
    i < |fs| && CaseOk(l, fs[i], c)
  }

  /** Cases so far: distinct paths and difference ids, each case declaring a fixture. */
  ghost predicate CasesOk(l: Ledger, fs: seq<Fixture>, cs: seq<Case>) {
    DistinctCases(cs) && DistinctDifferences(cs) && AllDeclare(l, fs, cs)
  }

  predicate DistinctCases(cs: seq<Case>) { forall i, j :: 0 <= i < j < |cs| ==> cs[i].path != cs[j].path }

  predicate DistinctDifferences(cs: seq<Case>) {
    forall i, j :: 0 <= i < j < |cs| && DifferenceId(cs[i]).Some? ==> DifferenceId(cs[i]) != DifferenceId(cs[j])
  }

  predicate AllDeclare(l: Ledger, fs: seq<Fixture>, cs: seq<Case>) {
    forall i :: 0 <= i < |cs| ==> Declares(l, fs, cs[i])
  }

  // ------------------------------------------------------- what cases cover

  /** Everything that a list of cases declares. */
  datatype Covered = Covered(
    paths: set<string>, differenceIds: set<string>, goals: set<Goal>, families: set<string>, claims: set<string>,
    polarities: set<(string, Expectation)>, diagnostics: set<string>, productions: set<string>,
    log: seq<(nat, string)>, differences: nat)

  function WithPolarity(claims: set<string>, e: Expectation): set<(string, Expectation)> {
    set x | x in claims :: (x, e)
  }

  function Optional(o: Option<string>): set<string> { if o.Some? then {o.value} else {} }

  function Add(k: Covered, fs: seq<Fixture>, c: Case): Covered {
    Covered(
      k.paths + {c.path}, k.differenceIds + Optional(DifferenceId(c)), k.goals + {c.goal},
      k.families + Members(c.families),
      k.claims + Members(c.claims), k.polarities + WithPolarity(Members(c.claims), c.oracle),
      k.diagnostics + Optional(c.diagnostic), k.productions + Members(c.productions),
      k.log + (if c.diagnostic.Some? then [(Locate(fs, c.path), c.diagnostic.value)] else []),
      k.differences + if c.oracle != c.candidate then 1 else 0)
  }

  function CoverageOf(fs: seq<Fixture>, cs: seq<Case>): Covered {
    if cs == [] then Covered({}, {}, {}, {}, {}, {}, {}, {}, [], 0)
    else Add(CoverageOf(fs, cs[..|cs| - 1]), fs, cs[|cs| - 1])
  }

  lemma CoverageSnoc(fs: seq<Fixture>, cs: seq<Case>, c: Case)
    ensures CoverageOf(fs, cs + [c]) == Add(CoverageOf(fs, cs), fs, c)
  {
    assert (cs + [c])[..|cs|] == cs;
  }

  /** What a refusal of a case says, given what earlier cases cover. */
  predicate CaseErrorMeans(l: Ledger, fs: seq<Fixture>, k: Covered, c: Case, e: CaseError) {
    var i := Locate(fs, c.path);
    match e
    case RepeatedPath => c.path in k.paths
    case UnknownFixture => i == |fs|
    case _ => i < |fs| && FieldErrorMeans(l, fs[i], k.differenceIds, c, e)
  }

  datatype Coverage = Coverage(
    goals: nat, families: nat, claims: nat, polarities: nat, diagnostics: nat, productions: nat, differences: nat)

  class ManifestValidation {
    const ledger: Ledger
    const fixtures: seq<Fixture>
    var actual: map<string, nat>
    var covered: Covered

    /** The state is exactly the coverage of the cases validated so far. */
    ghost predicate Valid(cs: seq<Case>)
      reads this
    {
      && LedgerOk(ledger) && DistinctPaths(fixtures) && CasesOk(ledger, fixtures, cs)
      && Indexes(fixtures, covered.paths, actual) && covered == CoverageOf(fixtures, cs)
    }

    constructor (l: Ledger, fs: seq<Fixture>, index: map<string, nat>)
      requires LedgerOk(l) && DistinctPaths(fs) && Indexes(fs, {}, index)
      ensures ledger == l && fixtures == fs && Valid([])
    {
      ledger, fixtures, actual := l, fs, index;
      covered := Covered({}, {}, {}, {}, {}, {}, {}, {}, [], 0);
    }

    /** Accepts a case exactly when it is the first declaration of an existing fixture and
        agrees with it and with the tables; the coverage then grows by this case. A refusal
        names a condition that fails. */
    method ValidateCase(c: Case, ghost cs: seq<Case>) returns (e: Option<CaseError>)
      requires Valid(cs)
      modifies this
      ensures e.None? <==> CasesOk(ledger, fixtures, cs + [c])
      ensures e.None? ==> Valid(cs + [c])
      ensures e.Some? ==> CaseErrorMeans(ledger, fixtures, old(covered), c, e.value)
    {
      CasesGrow(ledger, fixtures, cs, c);
      if c.path in covered.paths {
        return Some(RepeatedPath);
      }
      if c.path !in actual {
        return Some(UnknownFixture);
      }
      e := ValidateFields(ledger, fixtures[actual[c.path]], covered.differenceIds, c);
      if e.Some? {
        return;
      }
      IndexShrinks(fixtures, covered.paths, actual, c.path);
      CoverageSnoc(fixtures, cs, c);
      actual := actual - {c.path};
      covered := Add(covered, fixtures, c);
    }

    /** Accepts exactly when every fixture is declared and every table is covered. */
    method Finish(ghost cs: seq<Case>) returns (r: Option<(Coverage, seq<(nat, string)>)>)
      requires Valid(cs)
      ensures r.Some? <==> Complete(ledger, fixtures, cs)
      ensures r.Some? ==> r.value == (FullCoverage(ledger, covered.differences), covered.log)
    {
      Leftover(fixtures, actual, covered.paths);
      CompleteIff(ledger, fixtures, cs);
      if actual != map[] {
        return None;
      }
      if !(ledger.goals <= covered.goals && ledger.families <= covered.families) {
        return None;
      }
      if !(ledger.claims.Keys <= covered.claims) {
        return None;
      }
      if !(ledger.polarities <= covered.polarities) {
        return None;
      }
      var polarities := covered.polarities * ledger.polarities;
      if !(Reachable(ledger) <= covered.diagnostics && covered.diagnostics * Unreachable(ledger) == {}) {
        return None;
      }
      if !(ledger.productions.Keys <= covered.productions) {
        return None;
      }
      return Some((Coverage(|covered.goals|, |covered.families|, |covered.claims|, |polarities|,
                            |covered.diagnostics|, |covered.productions|, covered.differences), covered.log));
    }
  }

  function Reachable(l: Ledger): set<string> { set d | d in l.diagnostics && l.diagnostics[d].reachable }

  function Unreachable(l: Ledger): set<string> { set d | d in l.diagnostics && !l.diagnostics[d].reachable }

  /** The coverage of a complete manifest: every table in full. */
  function FullCoverage(l: Ledger, differences: nat): Coverage {
    Coverage(|l.goals|, |l.families|, |l.claims.Keys|, |l.polarities|, |Reachable(l)|,
             |l.productions.Keys|, differences)
  }

  /** Every fixture is declared, and exactly the tables are covered. */
  ghost predicate Complete(l: Ledger, fs: seq<Fixture>, cs: seq<Case>) {
    var k := CoverageOf(fs, cs);
    && (forall i :: 0 <= i < |fs| ==> fs[i].path in k.paths)
    && k.goals == l.goals && k.families == l.families && k.claims == l.claims.Keys && k.polarities == l.polarities
    && k.diagnostics == Reachable(l) && k.productions == l.productions.Keys
  }

  // ------------------------------------------------------- one case more

  lemma {:induction false} PathMember(fs: seq<Fixture>, cs: seq<Case>, p: string)
    ensures p in CoverageOf(fs, cs).paths <==> exists i :: 0 <= i < |cs| && cs[i].path == p
  {
    if cs != [] {
      var rest := cs[..|cs| - 1];
      PathMember(fs, rest, p);
      assert forall i :: 0 <= i < |rest| ==> rest[i] == cs[i];
    }
  }

  lemma {:induction false} DifferenceMember(fs: seq<Fixture>, cs: seq<Case>, d: string)
    ensures d in CoverageOf(fs, cs).differenceIds <==> exists i :: 0 <= i < |cs| && DifferenceId(cs[i]) == Some(d)
  {
    if cs != [] {
      var rest := cs[..|cs| - 1];
      DifferenceMember(fs, rest, d);
      assert forall i :: 0 <= i < |rest| ==> rest[i] == cs[i];
    }
  }

  lemma PathsGrow(fs: seq<Fixture>, cs: seq<Case>, c: Case)
    requires DistinctCases(cs)
    ensures DistinctCases(cs + [c]) <==> c.path !in CoverageOf(fs, cs).paths
  {
    PathMember(fs, cs, c.path);
    var all := cs + [c];
    assert all[|cs|] == c && forall j :: 0 <= j < |cs| ==> all[j] == cs[j];
    if c.path in CoverageOf(fs, cs).paths {
      var i :| 0 <= i < |cs| && cs[i].path == c.path;
      assert all[i].path == all[|cs|].path;
    }
  }

  lemma DifferencesGrow(fs: seq<Fixture>, cs: seq<Case>, c: Case)
    requires DistinctDifferences(cs)
    ensures DistinctDifferences(cs + [c]) <==>
            (c.difference.Some? ==> c.difference.value.id !in CoverageOf(fs, cs).differenceIds)
  {
    var all := cs + [c];
    assert all[|cs|] == c && forall j :: 0 <= j < |cs| ==> all[j] == cs[j];
    if c.difference.Some? {
      DifferenceMember(fs, cs, c.difference.value.id);
      if c.difference.value.id in CoverageOf(fs, cs).differenceIds {
        var i :| 0 <= i < |cs| && DifferenceId(cs[i]) == DifferenceId(c);
        assert DifferenceId(all[i]) == DifferenceId(all[|cs|]);
      }
    }
  }

  lemma DeclaredGrow(l: Ledger, fs: seq<Fixture>, cs: seq<Case>, c: Case)
    requires AllDeclare(l, fs, cs)
    ensures AllDeclare(l, fs, cs + [c]) <==> Declares(l, fs, c)
  {
    var all := cs + [c];
    assert all[|cs|] == c && forall j :: 0 <= j < |cs| ==> all[j] == cs[j];
  }

  /** The incremental condition for one case more. */
  lemma CasesGrow(l: Ledger, fs: seq<Fixture>, cs: seq<Case>, c: Case)
    requires CasesOk(l, fs, cs)
    ensures CasesOk(l, fs, cs + [c]) <==>
            && c.path !in CoverageOf(fs, cs).paths && Declares(l, fs, c)
            && (c.difference.Some? ==> c.difference.value.id !in CoverageOf(fs, cs).differenceIds)
  {
    PathsGrow(fs, cs, c);
    DifferencesGrow(fs, cs, c);
    DeclaredGrow(l, fs, cs, c);
  }

  lemma IndexShrinks(fs: seq<Fixture>, declared: set<string>, actual: map<string, nat>, path: string)
    requires Indexes(fs, declared, actual)
    ensures Indexes(fs, declared + {path}, actual - {path})
  {}

  lemma Leftover(fs: seq<Fixture>, actual: map<string, nat>, declared: set<string>)
    requires DistinctPaths(fs) && Indexes(fs, declared, actual)
    ensures actual == map[] <==> forall i :: 0 <= i < |fs| ==> fs[i].path in declared
  {
    if actual == map[] {
      forall i: nat | i < |fs| ensures fs[i].path in declared {
        Located(fs, i);
        assert fs[i].path !in actual;
      }
    } else {
      var p :| p in actual;
      assert fs[actual[p]].path !in declared;
    }
  }

  /** A valid case declares nothing outside the tables. */
  predicate Within(l: Ledger, c: Case) {
    && c.goal in l.goals && Members(c.families) <= l.families && Members(c.claims) <= l.claims.Keys
    && WithPolarity(Members(c.claims), c.oracle) <= l.polarities && Optional(c.diagnostic) <= Reachable(l)
    && Members(c.productions) <= l.productions.Keys
  }

  lemma CaseWithin(l: Ledger, fs: seq<Fixture>, c: Case)
    requires LedgerOk(l) && Declares(l, fs, c)
    ensures Within(l, c)
  {}

  lemma {:induction false} CoveredWithin(l: Ledger, fs: seq<Fixture>, cs: seq<Case>)
    requires LedgerOk(l) && CasesOk(l, fs, cs)
    ensures var k := CoverageOf(fs, cs);
            && k.goals <= l.goals && k.families <= l.families && k.claims <= l.claims.Keys
            && k.polarities <= l.polarities && k.diagnostics <= Reachable(l) && k.productions <= l.productions.Keys
  {
    if cs != [] {
      CoveredWithin(l, fs, cs[..|cs| - 1]);
      CaseWithin(l, fs, cs[|cs| - 1]);
    }
  }

  /** What remains to be checked at the end. */
  predicate TablesCovered(l: Ledger, k: Covered) {
    && l.goals <= k.goals && l.families <= k.families && l.claims.Keys <= k.claims && l.polarities <= k.polarities
    && Reachable(l) <= k.diagnostics && k.diagnostics * Unreachable(l) == {} && l.productions.Keys <= k.productions
  }

  lemma SameSet<T>(a: set<T>, b: set<T>)
    requires a <= b
    ensures a == b <==> b <= a
    ensures a == b ==> a * b == b
  {}

  lemma ReachableOnly(l: Ledger, covered: set<string>)
    requires covered <= Reachable(l)
    ensures covered * Unreachable(l) == {}
  {}

  lemma CompleteIff(l: Ledger, fs: seq<Fixture>, cs: seq<Case>)
    requires LedgerOk(l) && CasesOk(l, fs, cs)
    ensures var k := CoverageOf(fs, cs);
            Complete(l, fs, cs) <==> (forall i :: 0 <= i < |fs| ==> fs[i].path in k.paths) && TablesCovered(l, k)
    ensures Complete(l, fs, cs) ==> CoverageOf(fs, cs).polarities * l.polarities == l.polarities
  {
    CoveredWithin(l, fs, cs);
    var k := CoverageOf(fs, cs);
    SameSet(k.goals, l.goals);
    SameSet(k.families, l.families);
    SameSet(k.claims, l.claims.Keys);
    SameSet(k.polarities, l.polarities);
    SameSet(k.diagnostics, Reachable(l));
    SameSet(k.productions, l.productions.Keys);
    ReachableOnly(l, k.diagnostics);
  }

  // ------------------------------------------------------- loading

  /** Indexes the fixtures by path; refused when a path repeats. */
  method IndexFixtures(fs: seq<Fixture>) returns (r: Option<map<string, nat>>)
    ensures r.Some? <==> DistinctPaths(fs)
    ensures r.Some? ==> Indexes(fs, {}, r.value)
  {
    var actual: map<string, nat> := map[];
    for i := 0 to |fs|
      invariant forall p :: p in actual ==> actual[p] < i && fs[actual[p]].path == p
      invariant forall j :: 0 <= j < i ==> fs[j].path in actual
      invariant forall j, k :: 0 <= j < k < i ==> fs[j].path != fs[k].path
    {
      if fs[i].path in actual {
        return None;
      }
      actual := actual[fs[i].path := i];
    }
    IndexComplete(fs, actual);
    return Some(actual);
  }

  lemma IndexComplete(fs: seq<Fixture>, actual: map<string, nat>)
    requires DistinctPaths(fs)
    requires forall p :: p in actual ==> actual[p] < |fs| && fs[actual[p]].path == p
    requires forall j :: 0 <= j < |fs| ==> fs[j].path in actual
    ensures Indexes(fs, {}, actual)
  {
    forall p
      ensures (p in actual <==> Locate(fs, p) < |fs|) && (p in actual ==> actual[p] == Locate(fs, p))
    {
      if p in actual { Located(fs, actual[p]); }
    }
  }

  const SCHEMA_VERSION: u64 := 1
  const RELEASE := "2026-06-04"
  const EVAL_POLICY := "excluded-user-deferred"

  datatype Header = Header(schema: u64, release: string, evalPolicy: string)

  /** The header names this schema, the pinned release and the eval policy. */
  predicate HeaderOk(h: Header) { h == Header(SCHEMA_VERSION, RELEASE, EVAL_POLICY) }

  method ValidateHeader(h: Header, cs: seq<Case>) returns (ok: bool)
    ensures ok <==> HeaderOk(h) && cs != []
    ensures ok <==> h == Header(1, "2026-06-04", "excluded-user-deferred") && cs != []
  {
    if h.schema != SCHEMA_VERSION {
      return false;
    }
    if h.release != RELEASE {
      return false;
    }
    if h.evalPolicy != EVAL_POLICY {
      return false;
    }
    return cs != [];
  }

  /** Everything a successful load guarantees, stated of fixtures and cases alone. */
  ghost predicate Closed(l: Ledger, fs: seq<Fixture>, cs: seq<Case>) {
    DistinctPaths(fs) && cs != [] && CasesOk(l, fs, cs) && Complete(l, fs, cs)
  }

  lemma {:induction false} PrefixOk(l: Ledger, fs: seq<Fixture>, cs: seq<Case>, k: nat)
    requires k <= |cs| && CasesOk(l, fs, cs)
    ensures CasesOk(l, fs, cs[..k])
  {}

  /** Loads a manifest: it succeeds exactly under a right header on closed ledgers, with the
      full coverage. */
  method Load(l: Ledger, fs: seq<Fixture>, h: Header, cs: seq<Case>) returns (r: Option<(Coverage, seq<(nat, string)>)>)
    requires LedgerOk(l)
    ensures r.Some? <==> HeaderOk(h) && Closed(l, fs, cs)
    ensures r.Some? ==> r.value == (FullCoverage(l, CoverageOf(fs, cs).differences), CoverageOf(fs, cs).log)
  {
    var header := ValidateHeader(h, cs);
    if !header {
      return None;
    }
    var index := IndexFixtures(fs);
    if index.None? {
      return None;
    }
    var validation := new ManifestValidation(l, fs, index.value);
    var ok := ValidateAll(validation, cs);
    if !ok {
      return None;
    }
    r := validation.Finish(cs);
  }

  method ValidateAll(validation: ManifestValidation, cs: seq<Case>) returns (ok: bool)
    requires validation.Valid([])
    modifies validation
    ensures ok <==> CasesOk(validation.ledger, validation.fixtures, cs)
    ensures ok ==> validation.Valid(cs)
  {
    assert cs[..0] == [];
    for i := 0 to |cs|
      invariant validation.Valid(cs[..i])
    {
      PrefixStep(validation.ledger, validation.fixtures, cs, i);
      var e := validation.ValidateCase(cs[i], cs[..i]);
      if e.Some? {
        return false;
      }
    }
    assert cs[..|cs|] == cs;
    return true;
  }

  lemma PrefixStep(l: Ledger, fs: seq<Fixture>, cs: seq<Case>, i: nat)
    requires i < |cs|
    ensures cs[..i] + [cs[i]] == cs[..i + 1]
    ensures !CasesOk(l, fs, cs[..i + 1]) ==> !CasesOk(l, fs, cs)
  {
    if CasesOk(l, fs, cs) { PrefixOk(l, fs, cs, i + 1); }
  }

  // ------------------------------------------------------- what a closed ledger means

  /** The fixture that each case declares. */
  function Targets(fs: seq<Fixture>, cs: seq<Case>): (t: seq<nat>)
    ensures |t| == |cs| && forall i :: 0 <= i < |cs| ==> t[i] == Locate(fs, cs[i].path)
  {
    seq(|cs|, i requires 0 <= i < |cs| => Locate(fs, cs[i].path))
  }

  /** Cases and fixtures are in bijection, and each case agrees with its fixture. */
  lemma ClosedBijection(l: Ledger, fs: seq<Fixture>, cs: seq<Case>)
    requires LedgerOk(l) && Closed(l, fs, cs)
    ensures |cs| == |fs|
    ensures forall i, j :: 0 <= i < j < |cs| ==> Targets(fs, cs)[i] != Targets(fs, cs)[j]
    ensures forall i :: 0 <= i < |cs| ==> Targets(fs, cs)[i] < |fs| && CaseOk(l, fs[Targets(fs, cs)[i]], cs[i])
    ensures forall k: nat :: k < |fs| ==> k in Targets(fs, cs)
  {
    var t := Targets(fs, cs);
    forall i | 0 <= i < |cs| ensures t[i] < |fs| && CaseOk(l, fs[t[i]], cs[i]) { assert Declares(l, fs, cs[i]); }
    forall i, j | 0 <= i < j < |cs| ensures t[i] != t[j] {
      assert fs[t[i]].path == cs[i].path && fs[t[j]].path == cs[j].path;
    }
    forall k: nat | k < |fs| ensures k in t {
      PathMember(fs, cs, fs[k].path);
      var i :| 0 <= i < |cs| && cs[i].path == fs[k].path;
      Located(fs, k);
      assert t[i] == k;
    }
    assert Distinct(t);
    DistinctBelow(t, |fs|);
    DistinctSize(t);
    SubsetSize(Below(|fs|), Elements(t));
  }

  predicate Provokes(fs: seq<Fixture>, c: Case, k: nat, d: string) {
    Locate(fs, c.path) == k && c.diagnostic == Some(d)
  }

  lemma {:induction false} LogMember(fs: seq<Fixture>, cs: seq<Case>, k: nat, d: string)
    ensures (k, d) in CoverageOf(fs, cs).log <==> exists i :: 0 <= i < |cs| && Provokes(fs, cs[i], k, d)
  {
    if cs != [] {
      var rest, last := cs[..|cs| - 1], cs[|cs| - 1];
      LogMember(fs, rest, k, d);
      assert forall i :: 0 <= i < |rest| ==> rest[i] == cs[i];
      if (k, d) in CoverageOf(fs, cs).log && (k, d) !in CoverageOf(fs, rest).log { assert Provokes(fs, last, k, d); }
    }
  }

  lemma LogOfCase(fs: seq<Fixture>, cs: seq<Case>, i: nat, d: string)
    requires i < |cs| && Distinct(Targets(fs, cs))
    ensures (Targets(fs, cs)[i], d) in CoverageOf(fs, cs).log <==> cs[i].diagnostic == Some(d)
  {
    var t := Targets(fs, cs);
    LogMember(fs, cs, t[i], d);
    if cs[i].diagnostic == Some(d) { assert Provokes(fs, cs[i], t[i], d); }
    if j :| 0 <= j < |cs| && Provokes(fs, cs[j], t[i], d) { assert t[j] == t[i]; }
  }

  /** A diagnostic is recorded for exactly the oracle-rejected fixtures, one for each, and
      the recorded ones are reachable. */
  lemma ClosedDiagnostics(l: Ledger, fs: seq<Fixture>, cs: seq<Case>, k: nat)
    requires LedgerOk(l) && Closed(l, fs, cs) && k < |fs|
    ensures fs[k].oracle.Reject? <==> exists d :: (k, d) in CoverageOf(fs, cs).log
    ensures forall d, e :: (k, d) in CoverageOf(fs, cs).log && (k, e) in CoverageOf(fs, cs).log ==> d == e
    ensures forall d :: (k, d) in CoverageOf(fs, cs).log ==> d in Reachable(l)
  {
    ClosedBijection(l, fs, cs);
    var t := Targets(fs, cs);
    assert k in t;
    var i: nat :| i < |t| && t[i] == k;
    forall d ensures (k, d) in CoverageOf(fs, cs).log <==> cs[i].diagnostic == Some(d) {
      LogOfCase(fs, cs, i, d);
    }
    if fs[k].oracle.Reject? { assert (k, cs[i].diagnostic.value) in CoverageOf(fs, cs).log; }
  }

  lemma {:induction false} ProductionMember(fs: seq<Fixture>, cs: seq<Case>, p: string)
    ensures p in CoverageOf(fs, cs).productions <==> exists i :: 0 <= i < |cs| && p in cs[i].productions
  {
    if cs != [] {
      var rest := cs[..|cs| - 1];
      ProductionMember(fs, rest, p);
      assert forall i :: 0 <= i < |rest| ==> rest[i] == cs[i];
    }
  }

  /** Every pinned production is exercised by a fixture that the oracle accepts under a goal
      that admits it. */
  lemma ClosedProductions(l: Ledger, fs: seq<Fixture>, cs: seq<Case>, p: string)
    requires LedgerOk(l) && Closed(l, fs, cs) && p in l.productions
    ensures exists i :: 0 <= i < |cs| && p in cs[i].productions
                        && cs[i].oracle.Accept? && cs[i].goal in l.productions[p]
  {
    ProductionMember(fs, cs, p);
    var i :| 0 <= i < |cs| && p in cs[i].productions;
    assert Declares(l, fs, cs[i]);
  }
}
