/** One manifest case against its fixture and the constant tables. */
module ManifestCase {
  import Evidence
  import opened Schema

  datatype Goal = Script | Module | StrictScript | AsyncScript | StrictAsyncScript

  datatype Expectation = Accept | Reject

  datatype Diagnostic = Diagnostic(reachable: bool, claims: set<string>)

  /** The constant tables: claims with their family, the polarities and goals each claim
      allows, pinned diagnostics, and pinned productions with the goals that admit them. */
  datatype Ledger = Ledger(
    goals: set<Goal>, families: set<string>, claims: map<string, string>,
    polarities: set<(string, Expectation)>, claimGoals: set<(string, Goal)>,
    diagnostics: map<string, Diagnostic>, productions: map<string, set<Goal>>)

  predicate LedgerOk(l: Ledger) {
    && (forall g: Goal :: g in l.goals)
    && (forall c :: c in l.claims ==> l.claims[c] in l.families)
    && (forall p :: p in l.polarities ==> p.0 in l.claims)
  }

  datatype Fixture = Fixture(path: string, goal: Goal, oracle: Expectation, candidate: Expectation)

  datatype Direction = FrontendAccept | FrontendReject

  datatype Difference = Difference(id: string, direction: Direction, rationale: string, regression: string)

  /** A manifest case as written. */
  datatype Case = Case(
    path: string, goal: Goal, oracle: Expectation, candidate: Expectation, families: seq<string>,
    claims: seq<string>, productions: seq<string>, diagnostic: Option<string>, evidence: seq<string>,
    difference: Option<Difference>)

  function DifferenceId(c: Case): Option<string> {
    if c.difference.Some? then Some(c.difference.value.id) else None
  }

  // ------------------------------------------------------- the conditions

  function Members(s: seq<string>): set<string> { set x | x in s }

  predicate NoRepeats(s: seq<string>) { forall i, j :: 0 <= i < j < |s| ==> s[i] != s[j] }

  /** A nonempty list of known names, each once. */
  predicate Listed(values: seq<string>, known: set<string>) {
    values != [] && NoRepeats(values) && Members(values) <= known
  }

  function FamiliesOfClaims(l: Ledger, claims: set<string>): set<string>
    requires claims <= l.claims.Keys
  {
    set c | c in claims :: l.claims[c]
  }

  predicate Allows(l: Ledger, c: Case, claim: string) {
    (claim, c.oracle) in l.polarities && (claim, c.goal) in l.claimGoals
  }

  predicate ClaimsOk(l: Ledger, c: Case) {
    && Listed(c.families, l.families) && Listed(c.claims, l.claims.Keys)
    && Members(c.families) == FamiliesOfClaims(l, Members(c.claims))
    && forall x :: x in c.claims ==> Allows(l, c, x)
  }

  predicate Admitted(l: Ledger, c: Case, production: string) {
    production in l.productions && c.goal in l.productions[production]
  }

  /** Productions are declared by accepted fixtures only, and there by all of them. */
  predicate ProductionsOk(l: Ledger, c: Case) {
    && (c.productions == [] <==> c.oracle.Reject?) && NoRepeats(c.productions)
    && forall p :: p in c.productions ==> Admitted(l, c, p)
  }

  /** A diagnostic is declared exactly by rejected fixtures, and is a reachable one whose
      claims the case makes. */
  predicate DiagnosticOk(l: Ledger, c: Case) {
    && (c.diagnostic.Some? <==> c.oracle.Reject?)
    && (c.diagnostic.Some? ==>
          && c.diagnostic.value in l.diagnostics && l.diagnostics[c.diagnostic.value].reachable
          && l.diagnostics[c.diagnostic.value].claims <= Members(c.claims))
  }

  /** White space as in the Unicode property. */
  predicate IsWhite(c: char) {
    var n := c as int;
    || 9 <= n <= 13 || n == 0x20 || n == 0x85 || n == 0xa0 || n == 0x1680 || 0x2000 <= n <= 0x200a
    || n == 0x2028 || n == 0x2029 || n == 0x202f || n == 0x205f || n == 0x3000
  }

  predicate Blank(s: string) { forall i :: 0 <= i < |s| ==> IsWhite(s[i]) }

  /** A difference is recorded exactly when the two expectations differ; it says which way,
      why, and names the fixture as its own regression. */
  predicate DifferenceOk(c: Case) {
    && (c.difference.Some? <==> c.oracle != c.candidate)
    && (c.difference.Some? ==>
          var d := c.difference.value;
          && !Blank(d.id) && !Blank(d.rationale) && d.regression == c.path
          && (d.direction.FrontendAccept? <==> c.candidate.Accept?))
  }

  predicate CaseOk(l: Ledger, f: Fixture, c: Case) {
    && c.goal == f.goal && c.oracle == f.oracle && c.candidate == f.candidate
    && ClaimsOk(l, c) && ProductionsOk(l, c) && DiagnosticOk(l, c)
    && Evidence.EvidenceOk(c.evidence) && DifferenceOk(c)
  }

  datatype CaseError =
    | RepeatedPath | UnknownFixture | GoalMismatch | ExpectationMismatch | BadFamilies | BadClaims
    | FamiliesDiffer | ClaimRefused(claim: string) | BadProductions | BadDiagnostic | BadEvidence
    | BadDifference | RepeatedDifference

  /** The case records no difference under an id that is already taken. */
  predicate NewDifference(ids: set<string>, c: Case) {
    c.difference.Some? ==> c.difference.value.id !in ids
  }

  /** What a refusal of the fields of a case says. */
  predicate FieldErrorMeans(l: Ledger, f: Fixture, ids: set<string>, c: Case, e: CaseError) {
    match e
    case GoalMismatch => c.goal != f.goal
    case ExpectationMismatch => c.oracle != f.oracle || c.candidate != f.candidate
    case BadFamilies => !Listed(c.families, l.families)
    case BadClaims => !Listed(c.claims, l.claims.Keys)
    case FamiliesDiffer =>
      Listed(c.claims, l.claims.Keys) && Members(c.families) != FamiliesOfClaims(l, Members(c.claims))
    case ClaimRefused(x) => x in c.claims && !Allows(l, c, x)
    case BadProductions => !ProductionsOk(l, c)
    case BadDiagnostic => !DiagnosticOk(l, c)
    case BadEvidence => !Evidence.EvidenceOk(c.evidence)
    case BadDifference => !DifferenceOk(c)
    case RepeatedDifference => !NewDifference(ids, c)
    case _ => false
  }

  lemma FieldErrorRefutes(l: Ledger, f: Fixture, ids: set<string>, c: Case, e: CaseError)
    requires FieldErrorMeans(l, f, ids, c, e)
    ensures !(CaseOk(l, f, c) && NewDifference(ids, c))
  {}

  // ------------------------------------------------------- the checks

  /** Collects a list of names; refused when empty, unknown or repeated. */
  method ParseNames(values: seq<string>, known: set<string>) returns (r: Option<set<string>>)
    ensures r.Some? <==> Listed(values, known)
    ensures r.Some? ==> r.value == Members(values)
  {
    if values == [] {
      return None;
    }
    var names: set<string> := {};
    for i := 0 to |values|
      invariant names == Members(values[..i]) && names <= known && NoRepeats(values[..i])
    {
      if values[i] !in known {
        return None;
      }
      if values[i] in names {
        RepeatShows(values, i);
        return None;
      }
      MembersGrow(values, i);
      names := names + {values[i]};
    }
    assert values[..|values|] == values;
    return Some(names);
  }

  lemma RepeatShows(values: seq<string>, i: nat)
    requires i < |values| && values[i] in Members(values[..i])
    ensures !NoRepeats(values)
  {
    var j :| 0 <= j < i && values[..i][j] == values[i];
  }

  lemma MembersGrow(values: seq<string>, i: nat)
    requires i < |values|
    ensures Members(values[..i + 1]) == Members(values[..i]) + {values[i]}
    ensures NoRepeats(values[..i]) && values[i] !in Members(values[..i]) ==> NoRepeats(values[..i + 1])
  {
    assert values[..i + 1] == values[..i] + [values[i]];
    forall j | 0 <= j < i ensures values[..i][j] in Members(values[..i]) {}
  }

  /** Families must be those of the claims, and every claim must allow expectation and goal. */
  method ValidateClaims(l: Ledger, c: Case, families: set<string>, claims: set<string>) returns (e: Option<CaseError>)
    requires Listed(c.families, l.families) && Listed(c.claims, l.claims.Keys)
    requires families == Members(c.families) && claims == Members(c.claims)
    ensures e.None? ==> ClaimsOk(l, c)
    ensures forall f: Fixture, ids: set<string> :: e.Some? ==> FieldErrorMeans(l, f, ids, c, e.value)
  {
    var expected := set x | x in claims :: l.claims[x];
    if families != expected {
      return Some(FamiliesDiffer);
    }
    var left := claims;
    while left != {}
      invariant left <= claims
      invariant forall x :: x in claims && x !in left ==> Allows(l, c, x)
      decreases |left|
    {
      var claim :| claim in left;
      if (claim, c.oracle) !in l.polarities {
        return Some(ClaimRefused(claim));
      }
      if (claim, c.goal) !in l.claimGoals {
        return Some(ClaimRefused(claim));
      }
      left := left - {claim};
    }
    return None;
  }

  /** Rejected fixtures declare no production; accepted ones declare some, each once, known
      and admitted by the goal. */
  method ParseProductions(l: Ledger, c: Case) returns (r: Option<set<string>>)
    ensures r.Some? <==> ProductionsOk(l, c)
    ensures r.Some? ==> r.value == Members(c.productions)
  {
    var values := c.productions;
    if c.oracle.Reject? {
      return if values == [] then Some({}) else None;
    }
    if values == [] {
      return None;
    }
    var productions: set<string> := {};
    for i := 0 to |values|
      invariant productions == Members(values[..i]) && NoRepeats(values[..i])
      invariant forall j :: 0 <= j < i ==> Admitted(l, c, values[j])
    {
      assert values[i] in c.productions;
      if values[i] !in l.productions {
        return None;
      }
      if c.goal !in l.productions[values[i]] {
        return None;
      }
      if values[i] in productions {
        RepeatShows(values, i);
        return None;
      }
      MembersGrow(values, i);
      productions := productions + {values[i]};
    }
    assert values[..|values|] == values;
    return Some(productions);
  }

  method ValidateDiagnostic(l: Ledger, c: Case, claims: set<string>) returns (ok: bool)
    requires claims == Members(c.claims)
    ensures ok <==> DiagnosticOk(l, c)
  {
    if c.diagnostic.None? {
      return c.oracle.Accept?;
    }
    if c.oracle.Accept? {
      return false;
    }
    if c.diagnostic.value !in l.diagnostics {
      return false;
    }
    var diagnostic := l.diagnostics[c.diagnostic.value];
    if !diagnostic.reachable {
      return false;
    }
    return diagnostic.claims <= claims;
  }

  method ValidateDifference(c: Case, ids: set<string>) returns (e: Option<CaseError>)
    ensures e.None? <==> DifferenceOk(c) && NewDifference(ids, c)
    ensures e.Some? ==> e.value in {BadDifference, RepeatedDifference}
    ensures e == Some(BadDifference) ==> !DifferenceOk(c)
    ensures e == Some(RepeatedDifference) ==> !NewDifference(ids, c)
  {
    var expected := match (c.oracle, c.candidate)
      case (Reject, Accept) => Some(FrontendAccept)
      case (Accept, Reject) => Some(FrontendReject)
      case _ => None;
    if c.difference.None? {
      return if expected.Some? then Some(BadDifference) else None;
    }
    if expected.None? {
      return Some(BadDifference);
    }
    var d := c.difference.value;
    if Blank(d.id) {
      return Some(BadDifference);
    }
    if d.id in ids {
      return Some(RepeatedDifference);
    }
    if d.direction != expected.value {
      return Some(BadDifference);
    }
    if Blank(d.rationale) {
      return Some(BadDifference);
    }
    return if d.regression != c.path then Some(BadDifference) else None;
  }

  /** All fields of a case, in order, against its fixture and the difference ids in use. */
  method ValidateFields(l: Ledger, f: Fixture, ids: set<string>, c: Case) returns (e: Option<CaseError>)
    ensures e.None? <==> CaseOk(l, f, c) && NewDifference(ids, c)
    ensures e.Some? ==> FieldErrorMeans(l, f, ids, c, e.value)
  {
    e := FieldChecks(l, f, ids, c);
    if e.Some? { FieldErrorRefutes(l, f, ids, c, e.value); }
  }

  method FieldChecks(l: Ledger, f: Fixture, ids: set<string>, c: Case) returns (e: Option<CaseError>)
    ensures e.None? ==> CaseOk(l, f, c) && NewDifference(ids, c)
    ensures e.Some? ==> FieldErrorMeans(l, f, ids, c, e.value)
  {
    if c.goal != f.goal { return Some(GoalMismatch); }
    if c.oracle != f.oracle || c.candidate != f.candidate { return Some(ExpectationMismatch); }
    var families := ParseNames(c.families, l.families);
    if families.None? { return Some(BadFamilies); }
    var claims := ParseNames(c.claims, l.claims.Keys);
    if claims.None? { return Some(BadClaims); }
    e := ValidateClaims(l, c, families.value, claims.value);
    if e.Some? { return; }
    var productions := ParseProductions(l, c);
    if productions.None? { return Some(BadProductions); }
    var diagnostic := ValidateDiagnostic(l, c, claims.value);
    if !diagnostic { return Some(BadDiagnostic); }
    var evidence := Evidence.ValidateEvidence(c.evidence);
    if !evidence { return Some(BadEvidence); }
    e := ValidateDifference(c, ids);
  }
}
