/** Folding of case outcomes: live counters in arrival order, the summary in case order. */
module Inventory {
  import opened Schema
  import opened WorkerProtocol

  datatype Outcome<F> = Passed | FailedWith(failure: F) | RunnerError(message: string)

  datatype Kind = PassKind | FailKind | ErrorKind

  function KindOf<F>(o: Outcome<F>): Kind {
    match o
    case Passed => PassKind
    case FailedWith(_) => FailKind
    case RunnerError(_) => ErrorKind
  }

  function Count<F>(s: seq<Outcome<F>>, k: Kind): nat {
    if s == [] then 0 else Count(s[..|s| - 1], k) + if KindOf(s[|s| - 1]) == k then 1 else 0
  }

  /** Every outcome is counted under exactly one kind. */
  lemma {:induction false} CountsConserve<F>(s: seq<Outcome<F>>)
    ensures Count(s, PassKind) + Count(s, FailKind) + Count(s, ErrorKind) == |s|
  {
    if s != [] { CountsConserve(s[..|s| - 1]); }
  }

  lemma {:induction false} CountJoin<F>(a: seq<Outcome<F>>, b: seq<Outcome<F>>, k: Kind)
    ensures Count(a + b, k) == Count(a, k) + Count(b, k)
  {
    if b == [] {
      assert a + b == a;
    } else {
      CountJoin(a, b[..|b| - 1], k);
      assert (a + b)[..|a + b| - 1] == a + b[..|b| - 1];
    }
  }

  function Without<T>(s: seq<T>, j: nat): (r: seq<T>)
    requires j < |s|
    ensures |r| == |s| - 1
  {
    s[..j] + s[j + 1..]
  }

  lemma WithoutMultiset<T>(s: seq<T>, j: nat)
    requires j < |s|
    ensures multiset(Without(s, j)) == multiset(s) - multiset{s[j]}
  {
    assert s == s[..j] + [s[j]] + s[j + 1..];
  }

  /** Equal multisets stay equal when one shared element is taken from both. */
  lemma Shared<T>(a: seq<T>, b: seq<T>) returns (j: nat)
    requires a != [] && multiset(a) == multiset(b)
    ensures j < |b| && b[j] == a[0] && multiset(Without(a, 0)) == multiset(Without(b, j))
  {
    assert a[0] in multiset(b);
    j :| 0 <= j < |b| && b[j] == a[0];
    WithoutMultiset(a, 0);
    WithoutMultiset(b, j);
  }

  lemma ResultsWithout<F>(s: seq<Entry<Outcome<F>>>, j: nat, k: Kind)
    requires j < |s|
    ensures Count(ResultsOf(s), k)
         == Count(ResultsOf(Without(s, j)), k) + if KindOf(s[j].result) == k then 1 else 0
  {
    var front, back, middle := ResultsOf(s[..j]), ResultsOf(s[j + 1..]), [s[j].result];
    assert ResultsOf(s) == front + middle + back;
    assert ResultsOf(Without(s, j)) == front + back;
    CountJoin(front + middle, back, k);
    CountJoin(front, middle, k);
    CountJoin(front, back, k);
  }

  /** Counts do not depend on the order of arrival. */
  lemma {:induction false} CountOrderFree<F>(a: seq<Entry<Outcome<F>>>, b: seq<Entry<Outcome<F>>>, k: Kind)
    requires multiset(a) == multiset(b)
    ensures Count(ResultsOf(a), k) == Count(ResultsOf(b), k)
    decreases |a|
  {
    if a == [] {
      assert multiset(b) == multiset{} && b == [];
    } else {
      var j := Shared(a, b);
      ResultsWithout(a, 0, k);
      ResultsWithout(b, j, k);
      CountOrderFree(Without(a, 0), Without(b, j), k);
    }
  }

  /** The counters behind the progress lines. */
  class Progress<F> {
    var completed: nat
    var passed: nat
    var failed: nat
    var runnerErrors: nat

    ghost predicate Counts(seen: seq<Outcome<F>>)
      reads this
    {
      && completed == |seen| && passed == Count(seen, PassKind)
      && failed == Count(seen, FailKind) && runnerErrors == Count(seen, ErrorKind)
    }

    constructor ()
      ensures Counts([])
    {
      completed, passed, failed, runnerErrors := 0, 0, 0, 0;
    }

    method OnCompletion(outcome: Outcome<F>, ghost seen: seq<Outcome<F>>)
      requires Counts(seen)
      modifies this
      ensures Counts(seen + [outcome])
    {
      assert (seen + [outcome])[..|seen|] == seen;
      completed := completed + 1;
      match outcome {
        case Passed => passed := passed + 1;
        case FailedWith(_) => failed := failed + 1;
        case RunnerError(_) => runnerErrors := runnerErrors + 1;
      }
    }
  }

  datatype Summary<F> = Summary(passed: nat, failed: nat, failures: seq<F>)

  /** Failure records in case order. */
  function Failures<F>(s: seq<Outcome<F>>): seq<F> {
    if s == [] then []
    else Failures(s[..|s| - 1]) + if s[|s| - 1].FailedWith? then [s[|s| - 1].failure] else []
  }

  /** A summary without runner errors counts exactly and keeps the failures in case order;
      otherwise the first runner error in case order is reported. */
  ghost predicate Summarizes<F>(results: seq<Outcome<F>>, r: Result<Summary<F>, string>) {
    && (r.Ok? <==> Count(results, ErrorKind) == 0)
    && (r.Ok? ==> r.value == Summary(Count(results, PassKind), Count(results, FailKind), Failures(results)))
    && (r.Err? ==> exists i :: && 0 <= i < |results| && results[i] == RunnerError(r.error)
                               && forall j :: 0 <= j < i ==> !results[j].RunnerError?)
  }

  /** Folds the ordered results. */
  method Summarize<F>(results: seq<Outcome<F>>) returns (r: Result<Summary<F>, string>)
    ensures Summarizes(results, r)
  {
    var summary := Summary(0, 0, []);
    for i := 0 to |results|
      invariant forall j :: 0 <= j < i ==> !results[j].RunnerError?
      invariant Count(results[..i], ErrorKind) == 0
      invariant summary == Summary(Count(results[..i], PassKind), Count(results[..i], FailKind), Failures(results[..i]))
    {
      assert results[..i + 1][..i] == results[..i];
      match results[i] {
        case Passed => summary := summary.(passed := summary.passed + 1);
        case FailedWith(f) => summary := summary.(failed := summary.failed + 1, failures := summary.failures + [f]);
        case RunnerError(e) =>
          CountAtLeastOne(results, i);
          return Err(e);
      }
    }
    assert results[..|results|] == results;
    return Ok(summary);
  }

  lemma CountAtLeastOne<F>(s: seq<Outcome<F>>, i: nat)
    requires i < |s|
    ensures Count(s, KindOf(s[i])) > 0
  {
    assert s == s[..i] + [s[i]] + s[i + 1..];
    CountJoin(s[..i] + [s[i]], s[i + 1..], KindOf(s[i]));
    CountJoin(s[..i], [s[i]], KindOf(s[i]));
  }

  /** The live counters at completion are those of the sequential run, in every interleaving. */
  lemma CountersSequential<F>(cases: nat, jobs: nat, run: nat -> Outcome<F>, actions: seq<Action>,
                              ordered: seq<Entry<Outcome<F>>>, k: Kind)
    requires cases > 0 && After(ConfigFor(cases, jobs), run, actions).Some?
    requires var s := After(ConfigFor(cases, jobs), run, actions).value;
             s.coordinator.Completed? && SortingOf(ordered, s.results)
    ensures Count(ResultsOf(After(ConfigFor(cases, jobs), run, actions).value.results), k)
         == Count(Sequential(cases, run), k)
  {
    var s := After(ConfigFor(cases, jobs), run, actions).value;
    ParallelIsSequential(cases, jobs, run, actions, ordered);
    CountOrderFree(s.results, ordered, k);
  }

  /** A run of the protocol that has completed, and a sorting of what it received. */
  ghost predicate CompletedRun<F>(cases: nat, jobs: nat, run: nat -> Outcome<F>, actions: seq<Action>,
                                  received: seq<Entry<Outcome<F>>>, ordered: seq<Entry<Outcome<F>>>) {
    && cases > 0 && After(ConfigFor(cases, jobs), run, actions).Some?
    && var s := After(ConfigFor(cases, jobs), run, actions).value;
       s.coordinator.Completed? && s.results == received && SortingOf(ordered, received)
  }

  /** Counters that have seen the results in order of arrival are those of the sequential run. */
  lemma ProgressSequential<F>(cases: nat, jobs: nat, run: nat -> Outcome<F>, actions: seq<Action>,
                              received: seq<Entry<Outcome<F>>>, ordered: seq<Entry<Outcome<F>>>, progress: Progress<F>)
    requires CompletedRun(cases, jobs, run, actions, received, ordered)
    requires progress.Counts(ResultsOf(received))
    ensures progress.Counts(Sequential(cases, run)) && progress.completed == cases
  {
    CountersSequential(cases, jobs, run, actions, ordered, PassKind);
    CountersSequential(cases, jobs, run, actions, ordered, FailKind);
    CountersSequential(cases, jobs, run, actions, ordered, ErrorKind);
    CountsConserve(ResultsOf(received));
    CountsConserve(Sequential(cases, run));
  }

  /** The whole fold: in every completed run, for every job count and interleaving, the live
      counters and the summary are those of executing the cases one after another. */
  method ExecuteInventory<F>(received: seq<Entry<Outcome<F>>>, ordered: seq<Entry<Outcome<F>>>, ghost cases: nat,
                             ghost jobs: nat, ghost run: nat -> Outcome<F>, ghost actions: seq<Action>)
    returns (progress: Progress<F>, r: Result<Summary<F>, string>)
    requires CompletedRun(cases, jobs, run, actions, received, ordered)
    ensures fresh(progress) && progress.Counts(Sequential(cases, run)) && progress.completed == cases
    ensures Summarizes(Sequential(cases, run), r)
  {
    progress := new Progress();
    for i := 0 to |received|
      invariant fresh(progress) && progress.Counts(ResultsOf(received[..i]))
    {
      assert ResultsOf(received[..i + 1]) == ResultsOf(received[..i]) + [received[i].result];
      progress.OnCompletion(received[i].result, ResultsOf(received[..i]));
    }
    assert received[..|received|] == received;
    ProgressSequential(cases, jobs, run, actions, received, ordered, progress);
    ParallelIsSequential(cases, jobs, run, actions, ordered);
    r := Summarize(ResultsOf(ordered));
  }
}
