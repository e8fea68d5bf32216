/** Parallel case execution: striding workers, one bounded channel and one coordinator that
    share a thread pool, as a state machine over all interleavings. */
module WorkerProtocol {
  import opened Arithmetic
  import opened Finite
  import opened Schema

  const CHANNEL_PER_WORKER: nat := 2

  datatype Config = Config(cases: nat, workers: nat, threads: nat, capacity: nat)

  predicate ValidConfig(c: Config) { 0 < c.workers <= c.cases && 0 < c.capacity && 0 < c.threads }

  /** The configuration for a job count: one pool thread more than workers. */
  function ConfigFor(cases: nat, jobs: nat): (c: Config)
    requires cases > 0
    ensures ValidConfig(c) && c.cases == cases && c.threads == c.workers + 1 >= 2
    ensures 1 <= jobs <= cases ==> c.workers == jobs
    ensures c.workers <= jobs || c.workers == 1
    ensures c.workers < jobs ==> c.workers == cases
    ensures c.capacity == 2 * c.workers
  {
    var limited := if jobs < cases then jobs else cases;
    var workers := if limited < 1 then 1 else limited;
    Config(cases, workers, workers + 1, CHANNEL_PER_WORKER * workers)
  }

  datatype Entry<R> = Entry(index: nat, result: R)

  /** A worker holds the next case of its stride, then the finished result until it is sent. */
  datatype Worker<R> = Unspawned | Waiting | Running(next: nat) | Sending(next: nat, result: R) | Finished
  {
    predicate Active() { Running? || Sending? }

    /** Cases of the worker's stride below this bound have been sent. */
    function SentBelow(cases: nat): nat {
      match this
      case Unspawned => 0
      case Waiting => 0
      case Running(k) => k
      case Sending(k, _) => k
      case Finished => cases
    }
  }

  datatype Coordinator = Spawning(spawned: nat) | Receiving | Completed | Failed

  datatype State<R> = State(
    workers: seq<Worker<R>>, coordinator: Coordinator, queue: seq<Entry<R>>, results: seq<Entry<R>>)

  datatype Action = Spawn | Start(w: nat) | Execute(w: nat) | Send(w: nat) | Refuse(w: nat) | Finish(w: nat)
                  | Receive | Complete | Starve

  function Init<R>(c: Config): State<R> {
    State(seq(c.workers, _ => Unspawned), Spawning(0), [], [])
  }

  function ActiveCount<R>(workers: seq<Worker<R>>): nat {
    if workers == [] then 0
    else ActiveCount(workers[..|workers| - 1]) + if workers[|workers| - 1].Active() then 1 else 0
  }

  /** Pool threads in use: the coordinator keeps one until it is done. */
  function Busy<R>(s: State<R>): nat {
    ActiveCount(s.workers) + if s.coordinator.Completed? || s.coordinator.Failed? then 0 else 1
  }

  predicate Enabled<R>(c: Config, s: State<R>, a: Action) {
    match a
    case Spawn => s.coordinator.Spawning? && s.coordinator.spawned < |s.workers|
    case Start(w) => w < |s.workers| && s.workers[w].Waiting? && Busy(s) < c.threads
    case Execute(w) => w < |s.workers| && s.workers[w].Running? && s.workers[w].next < c.cases
    case Finish(w) => w < |s.workers| && s.workers[w].Running? && s.workers[w].next >= c.cases
    case Send(w) =>
      && w < |s.workers| && s.workers[w].Sending? && |s.queue| < c.capacity
      && !s.coordinator.Completed? && !s.coordinator.Failed?
    // The channel refuses a result once the receiving side is gone.
    case Refuse(w) => w < |s.workers| && s.workers[w].Sending? && (s.coordinator.Completed? || s.coordinator.Failed?)
    case Receive => s.coordinator.Receiving? && |s.results| < c.cases && s.queue != []
    case Complete => s.coordinator.Receiving? && |s.results| == c.cases
    // Every sender is gone before all results arrived.
    case Starve =>
      && s.coordinator.Receiving? && |s.results| < c.cases && s.queue == []
      && forall w :: 0 <= w < |s.workers| ==> s.workers[w].Finished?
  }

  function Apply<R>(c: Config, run: nat -> R, s: State<R>, a: Action): State<R>
    requires Enabled(c, s, a)
  {
    match a
    case Spawn =>
      var k := s.coordinator.spawned;
      s.(workers := s.workers[k := Waiting],
         coordinator := if k + 1 == |s.workers| then Receiving else Spawning(k + 1))
    case Start(w) => s.(workers := s.workers[w := Running(w)])
    case Execute(w) => s.(workers := s.workers[w := Sending(s.workers[w].next, run(s.workers[w].next))])
    case Finish(w) => s.(workers := s.workers[w := Finished])
    case Send(w) =>
      var worker := s.workers[w];
      s.(workers := s.workers[w := Running(worker.next + |s.workers|)],
         queue := s.queue + [Entry(worker.next, worker.result)])
    case Refuse(w) => s.(workers := s.workers[w := Finished])
    case Receive => s.(queue := s.queue[1..], results := s.results + [s.queue[0]])
    case Complete => s.(coordinator := Completed)
    case Starve => s.(coordinator := Failed)
  }

  // ------------------------------------------------------- strides

  lemma StrideStart(i: nat, w: nat, stride: nat)
    requires w < stride && i < w
    ensures i % stride != w
  {
    assert i % stride == i by { SmallModulo(i, stride); }
  }

  lemma SmallModulo(i: nat, stride: nat)
    requires i < stride
    ensures i % stride == i
  {}

  lemma StrideNext(k: nat, stride: nat)
    requires stride > 0
    ensures (k + stride) % stride == k % stride
  {
    var q, r := k / stride, k % stride;
    assert k + stride == stride * (q + 1) + r;
    DivideUniquely(k + stride, stride, q + 1, r);
  }

  /** Two members of one stride less than a stride apart are the same. */
  lemma SameStride(i: nat, k: nat, stride: nat)
    requires stride > 0 && i % stride == k % stride && k <= i < k + stride
    ensures i == k
  {
    assert stride * (i / stride - k / stride) == i - k;
    SmallFactor(stride, i / stride - k / stride);
  }

  // ------------------------------------------------------- what every step keeps

  function Log<R>(s: State<R>): seq<Entry<R>> { s.results + s.queue }

  predicate Listed<R>(log: seq<Entry<R>>, i: nat) { exists j :: 0 <= j < |log| && log[j].index == i }

  /** Case `i` has been sent by the worker whose stride it is on. */
  predicate Sent<R>(c: Config, workers: seq<Worker<R>>, i: nat)
    requires |workers| > 0
  {
    i < workers[i % |workers|].SentBelow(c.cases)
  }

  ghost predicate WorkerOk<R>(c: Config, run: nat -> R, w: nat, worker: Worker<R>)
    requires c.workers > 0
  {
    match worker
    case Running(k) => k % c.workers == w
    case Sending(k, r) => k % c.workers == w && k < c.cases && r == run(k)
    case _ => true
  }

  ghost predicate EntryOk<R>(c: Config, run: nat -> R, workers: seq<Worker<R>>, e: Entry<R>)
    requires |workers| > 0
  {
    e.index < c.cases && e.result == run(e.index) && Sent(c, workers, e.index)
  }

  predicate DistinctEntries<R>(log: seq<Entry<R>>) {
    forall i, j :: 0 <= i < j < |log| ==> log[i].index != log[j].index
  }

  /** The log holds exactly the sent cases, once each, with their results. */
  ghost predicate LogOk<R>(c: Config, run: nat -> R, workers: seq<Worker<R>>, log: seq<Entry<R>>)
    requires |workers| > 0
  {
    && (forall j :: 0 <= j < |log| ==> EntryOk(c, run, workers, log[j]))
    && DistinctEntries(log)
    && (forall i: nat :: i < c.cases && Sent(c, workers, i) ==> Listed(log, i))
  }

  ghost predicate WorkersOk<R>(c: Config, run: nat -> R, s: State<R>)
    requires c.workers > 0
  {
    && |s.workers| == c.workers
    && (forall w: nat :: w < |s.workers| ==> WorkerOk(c, run, w, s.workers[w]))
    && (forall w: nat :: w < |s.workers| ==>
          (s.workers[w].Unspawned? <==> s.coordinator.Spawning? && s.coordinator.spawned <= w))
  }

  ghost predicate Inv<R>(c: Config, run: nat -> R, s: State<R>) {
    && ValidConfig(c) && WorkersOk(c, run, s) && LogOk(c, run, s.workers, Log(s))
    && |s.queue| <= c.capacity && !s.coordinator.Failed?
    && (s.coordinator.Spawning? ==> s.coordinator.spawned < c.workers)
    && (s.coordinator.Completed? ==> |s.results| == c.cases && s.queue == [])
  }

  lemma InitInv<R>(c: Config, run: nat -> R)
    requires ValidConfig(c)
    ensures Inv(c, run, Init(c))
  {}

  /** Replacing a worker by one that has sent the same cases keeps the log. */
  lemma SameSent<R>(c: Config, run: nat -> R, workers: seq<Worker<R>>, w: nat, after: Worker<R>, log: seq<Entry<R>>)
    requires w < |workers| && LogOk(c, run, workers, log)
    requires forall i: nat :: i < c.cases && i % |workers| == w ==>
                              (i < workers[w].SentBelow(c.cases) <==> i < after.SentBelow(c.cases))
    ensures LogOk(c, run, workers[w := after], log)
  {
    var next := workers[w := after];
    forall i: nat | i < c.cases ensures Sent(c, next, i) <==> Sent(c, workers, i) {}
    forall j | 0 <= j < |log| ensures EntryOk(c, run, next, log[j]) {
      assert EntryOk(c, run, workers, log[j]);
    }
  }

  lemma StartKeepsLog<R>(c: Config, run: nat -> R, workers: seq<Worker<R>>, w: nat, log: seq<Entry<R>>)
    requires w < |workers| && LogOk(c, run, workers, log) && workers[w].SentBelow(c.cases) == 0
    ensures LogOk(c, run, workers[w := Running(w)], log)
  {
    forall i: nat | i < c.cases && i % |workers| == w ensures i >= w { if i < w { StrideStart(i, w, |workers|); } }
    SameSent(c, run, workers, w, Running(w), log);
  }

  lemma {:induction false} ListedAppend<R>(log: seq<Entry<R>>, e: Entry<R>, i: nat)
    ensures Listed(log + [e], i) <==> Listed(log, i) || e.index == i
  {
    var next := log + [e];
    if Listed(log, i) {
      var j :| 0 <= j < |log| && log[j].index == i;
      assert next[j].index == i;
    }
    assert next[|log|].index == e.index;
  }

  /** Sending adds exactly the sent case to the log. */
  lemma SendKeepsLog<R>(c: Config, run: nat -> R, workers: seq<Worker<R>>, w: nat, log: seq<Entry<R>>)
    requires |workers| == c.workers && w < |workers| && LogOk(c, run, workers, log)
    requires workers[w].Sending? && WorkerOk(c, run, w, workers[w])
    ensures var k := workers[w].next;
            LogOk(c, run, workers[w := Running(k + |workers|)], log + [Entry(k, workers[w].result)])
  {
    var k := workers[w].next;
    var next, e := workers[w := Running(k + |workers|)], Entry(k, workers[w].result);
    forall i: nat | i < c.cases ensures Sent(c, next, i) <==> Sent(c, workers, i) || i == k {
      if i % |workers| == w && k <= i < k + |workers| { SameStride(i, k, |workers|); }
    }
    forall j | 0 <= j < |log| + 1 ensures EntryOk(c, run, next, (log + [e])[j]) {
      if j < |log| { assert EntryOk(c, run, workers, log[j]); }
    }
    forall j | 0 <= j < |log| ensures log[j].index != k {
      assert EntryOk(c, run, workers, log[j]);
    }
    forall i: nat | i < c.cases && Sent(c, next, i) ensures Listed(log + [e], i) {
      ListedAppend(log, e, i);
    }
  }

  /** A log of distinct cases below `n` has at most `n` entries, and `n` of them list all. */
  lemma LogBound<R>(c: Config, run: nat -> R, workers: seq<Worker<R>>, log: seq<Entry<R>>)
    requires |workers| > 0 && LogOk(c, run, workers, log)
    ensures |log| <= c.cases
    ensures |log| == c.cases ==> forall i: nat :: i < c.cases ==> Listed(log, i)
  {
    var indices := Indices(log);
    assert forall j :: 0 <= j < |log| ==> EntryOk(c, run, workers, log[j]);
    IndicesBound(log, c.cases);
  }

  function Indices<R>(log: seq<Entry<R>>): set<nat> { set j | 0 <= j < |log| :: log[j].index }

  lemma {:induction false} IndicesSize<R>(log: seq<Entry<R>>)
    requires DistinctEntries(log)
    ensures |Indices(log)| == |log|
  {
    if log != [] {
      var rest, last := log[..|log| - 1], log[|log| - 1];
      IndicesSize(rest);
      assert Indices(log) == Indices(rest) + {last.index};
      assert last.index !in Indices(rest);
    }
  }

  lemma IndicesBound<R>(log: seq<Entry<R>>, n: nat)
    requires DistinctEntries(log) && forall j :: 0 <= j < |log| ==> log[j].index < n
    ensures |log| <= n
    ensures |log| == n ==> forall i: nat :: i < n ==> Listed(log, i)
  {
    IndicesSize(log);
    SubsetSize(Indices(log), Below(n));
    if |log| == n {
      forall i: nat | i < n ensures Listed(log, i) {
        assert i in Indices(log);
      }
    }
  }

  lemma WorkersUpdate<R>(c: Config, run: nat -> R, s: State<R>, w: nat, after: Worker<R>)
    requires c.workers > 0 && WorkersOk(c, run, s) && w < |s.workers|
    requires !s.workers[w].Unspawned? && !after.Unspawned? && WorkerOk(c, run, w, after)
    ensures WorkersOk(c, run, s.(workers := s.workers[w := after]))
  {}

  lemma SpawnInv<R>(c: Config, run: nat -> R, s: State<R>)
    requires Inv(c, run, s) && Enabled(c, s, Spawn)
    ensures Inv(c, run, Apply(c, run, s, Spawn))
  {
    var k := s.coordinator.spawned;
    assert s.workers[k].Unspawned?;
    SameSent(c, run, s.workers, k, Waiting, Log(s));
  }

  lemma WorkerStepInv<R>(c: Config, run: nat -> R, s: State<R>, a: Action)
    requires Inv(c, run, s) && Enabled(c, s, a) && (a.Start? || a.Execute? || a.Finish?)
    ensures Inv(c, run, Apply(c, run, s, a))
  {
    var next := Apply(c, run, s, a).workers[a.w];
    if a.Start? {
      SmallModulo(a.w, c.workers);
      StartKeepsLog(c, run, s.workers, a.w, Log(s));
    } else {
      assert WorkerOk(c, run, a.w, s.workers[a.w]);
      SameSent(c, run, s.workers, a.w, next, Log(s));
    }
    WorkersUpdate(c, run, s, a.w, next);
  }

  lemma SendInv<R>(c: Config, run: nat -> R, s: State<R>, w: nat)
    requires Inv(c, run, s) && Enabled(c, s, Send(w))
    ensures Inv(c, run, Apply(c, run, s, Send(w)))
  {
    var worker := s.workers[w];
    assert WorkerOk(c, run, w, worker);
    SendKeepsLog(c, run, s.workers, w, Log(s));
    StrideNext(worker.next, c.workers);
    WorkersUpdate(c, run, s, w, Running(worker.next + |s.workers|));
    var e := Entry(worker.next, worker.result);
    assert s.results + (s.queue + [e]) == Log(s) + [e];
  }

  lemma CoordinatorInv<R>(c: Config, run: nat -> R, s: State<R>, a: Action)
    requires Inv(c, run, s) && Enabled(c, s, a) && (a.Receive? || a.Complete?)
    ensures Inv(c, run, Apply(c, run, s, a))
  {
    if a.Receive? {
      assert s.results + [s.queue[0]] + s.queue[1..] == Log(s);
    } else {
      LogBound(c, run, s.workers, Log(s));
    }
  }

  /** Once all results are received, every case has been sent. */
  lemma AllSent<R>(c: Config, run: nat -> R, s: State<R>, w: nat)
    requires Inv(c, run, s) && |s.results| == c.cases && w < |s.workers|
    ensures s.queue == [] && s.workers[w].SentBelow(c.cases) > w
    ensures !s.workers[w].Sending? && !s.workers[w].Waiting? && !s.workers[w].Unspawned?
  {
    var log := Log(s);
    LogBound(c, run, s.workers, log);
    assert forall j :: 0 <= j < |log| ==> EntryOk(c, run, s.workers, log[j]);
    forall i: nat | i < c.cases ensures Sent(c, s.workers, i) {
      assert Listed(log, i);
    }
    SmallModulo(w, c.workers);
    assert Sent(c, s.workers, w);
    assert WorkerOk(c, run, w, s.workers[w]);
    assert s.workers[w].Sending? ==> Sent(c, s.workers, s.workers[w].next);
  }

  /** The error exits are never taken: the channel never refuses a result, and the
      coordinator never runs dry. */
  lemma NeverFails<R>(c: Config, run: nat -> R, s: State<R>)
    requires Inv(c, run, s)
    ensures !Enabled(c, s, Starve)
    ensures forall w: nat :: !Enabled(c, s, Refuse(w))
  {
    if Enabled(c, s, Starve) {
      var log := Log(s);
      forall i: nat | i < c.cases ensures Listed(log, i) {
        assert Sent(c, s.workers, i);
      }
      IndicesCover(log, c.cases);
    }
    forall w: nat ensures !Enabled(c, s, Refuse(w)) {
      if Enabled(c, s, Refuse(w)) { AllSent(c, run, s, w); }
    }
  }

  lemma IndicesCover<R>(log: seq<Entry<R>>, n: nat)
    requires DistinctEntries(log) && forall i: nat :: i < n ==> Listed(log, i)
    ensures |log| >= n
  {
    IndicesSize(log);
    forall i | i in Below(n) ensures i in Indices(log) { assert Listed(log, i); }
    SubsetSize(Below(n), Indices(log));
  }

  /** Every step keeps the invariant. */
  lemma StepInv<R>(c: Config, run: nat -> R, s: State<R>, a: Action)
    requires Inv(c, run, s) && Enabled(c, s, a)
    ensures Inv(c, run, Apply(c, run, s, a))
  {
    NeverFails(c, run, s);
    match a
    case Spawn => SpawnInv(c, run, s);
    case Send(w) => SendInv(c, run, s, w);
    case Receive => CoordinatorInv(c, run, s, a);
    case Complete => CoordinatorInv(c, run, s, a);
    case Refuse(w) =>
    case Starve =>
    case _ => WorkerStepInv(c, run, s, a);
  }

  // ------------------------------------------------------- progress

  predicate Final<R>(s: State<R>) {
    s.coordinator.Completed? && forall w :: 0 <= w < |s.workers| ==> s.workers[w].Finished?
  }

  lemma {:induction false} NoneActive<R>(workers: seq<Worker<R>>)
    requires forall w :: 0 <= w < |workers| ==> !workers[w].Active()
    ensures ActiveCount(workers) == 0
  {
    if workers != [] { NoneActive(workers[..|workers| - 1]); }
  }

  lemma {:induction false} SomeActive<R>(workers: seq<Worker<R>>) returns (w: nat)
    requires ActiveCount(workers) > 0
    ensures w < |workers| && workers[w].Active()
  {
    if workers[|workers| - 1].Active() {
      w := |workers| - 1;
    } else {
      w := SomeActive(workers[..|workers| - 1]);
    }
  }

  /** With two pool threads or more, every state short of the end has an enabled step. */
  lemma NoDeadlock<R>(c: Config, run: nat -> R, s: State<R>) returns (a: Action)
    requires Inv(c, run, s) && c.threads >= 2 && !Final(s)
    ensures Enabled(c, s, a)
  {
    NeverFails(c, run, s);
    if s.coordinator.Spawning? {
      a := Spawn;
    } else if s.coordinator.Receiving? {
      LogBound(c, run, s.workers, Log(s));
      if |s.results| == c.cases {
        a := Complete;
      } else if s.queue != [] {
        a := Receive;
      } else if ActiveCount(s.workers) > 0 {
        var w := SomeActive(s.workers);
        a := ActiveStep(c, s, w);
      } else {
        var w: nat :| w < |s.workers| && !s.workers[w].Finished?;
        NotActive(s.workers, w);
        a := Start(w);
      }
    } else {
      var w: nat :| w < |s.workers| && !s.workers[w].Finished?;
      AllSent(c, run, s, w);
      a := if s.workers[w].next < c.cases then Execute(w) else Finish(w);
    }
  }

  function ActiveStep<R>(c: Config, s: State<R>, w: nat): (a: Action)
    requires w < |s.workers| && s.workers[w].Active() && s.coordinator.Receiving? && |s.queue| < c.capacity
    ensures Enabled(c, s, a)
  {
    if s.workers[w].Sending? then Send(w)
    else if s.workers[w].next < c.cases then Execute(w)
    else Finish(w)
  }

  lemma {:induction false} NotActive<R>(workers: seq<Worker<R>>, w: nat)
    requires ActiveCount(workers) == 0 && w < |workers|
    ensures !workers[w].Active()
  {
    if w < |workers| - 1 { NotActive(workers[..|workers| - 1], w); }
  }

  // ------------------------------------------------------- every run ends

  function Rank<R>(c: Config, worker: Worker<R>): nat {
    match worker
    case Unspawned => 3 * c.cases + 3
    case Waiting => 3 * c.cases + 2
    case Running(k) => if k < c.cases then 3 * (c.cases - k) + 1 else 1
    case Sending(k, _) => if k < c.cases then 3 * (c.cases - k) else 1
    case Finished => 0
  }

  function TotalRank<R>(c: Config, workers: seq<Worker<R>>): nat {
    if workers == [] then 0 else TotalRank(c, workers[..|workers| - 1]) + Rank(c, workers[|workers| - 1])
  }

  lemma {:induction false} RankUpdate<R>(c: Config, workers: seq<Worker<R>>, w: nat, after: Worker<R>)
    requires w < |workers|
    ensures TotalRank(c, workers[w := after]) + Rank(c, workers[w]) == TotalRank(c, workers) + Rank(c, after)
  {
    var next, n := workers[w := after], |workers| - 1;
    if w < n {
      RankUpdate(c, workers[..n], w, after);
      assert next[..n] == workers[..n][w := after];
    } else {
      assert next[..n] == workers[..n];
    }
  }

  /** Unexecuted cases, unsent results, queued results and open roles. */
  function Measure<R>(c: Config, s: State<R>): nat {
    TotalRank(c, s.workers) + |s.queue| + if s.coordinator.Spawning? || s.coordinator.Receiving? then 1 else 0
  }

  lemma SendDecreases<R>(c: Config, run: nat -> R, s: State<R>, w: nat)
    requires Inv(c, run, s) && Enabled(c, s, Send(w))
    ensures Measure(c, Apply(c, run, s, Send(w))) < Measure(c, s)
  {
    var worker := s.workers[w];
    var after: Worker<R> := Running(worker.next + |s.workers|);
    assert WorkerOk(c, run, w, worker);
    RankUpdate(c, s.workers, w, after);
    assert Rank(c, after) + 1 < Rank(c, worker);
  }

  lemma MeasureDecreases<R>(c: Config, run: nat -> R, s: State<R>, a: Action)
    requires Inv(c, run, s) && Enabled(c, s, a)
    ensures Measure(c, Apply(c, run, s, a)) < Measure(c, s)
  {
    match a
    case Spawn =>
      assert s.workers[s.coordinator.spawned].Unspawned?;
      RankUpdate(c, s.workers, s.coordinator.spawned, Waiting);
    case Start(w) => RankUpdate(c, s.workers, w, Running(w));
    case Execute(w) => RankUpdate(c, s.workers, w, Sending(s.workers[w].next, run(s.workers[w].next)));
    case Finish(w) => RankUpdate(c, s.workers, w, Finished);
    case Refuse(w) => RankUpdate(c, s.workers, w, Finished);
    case Send(w) => SendDecreases(c, run, s, w);
    case _ =>
  }

  /** The state a sequence of actions leads to, if each was enabled in its turn. */
  function After<R>(c: Config, run: nat -> R, actions: seq<Action>): Option<State<R>> {
    if actions == [] then Some(Init(c))
    else
      var before, last := After(c, run, actions[..|actions| - 1]), actions[|actions| - 1];
      if before.Some? && Enabled(c, before.value, last) then Some(Apply(c, run, before.value, last)) else None
  }

  /** Every run keeps the invariant, takes no error exit and is no longer than the measure. */
  lemma {:induction false} RunSafe<R>(c: Config, run: nat -> R, actions: seq<Action>)
    requires ValidConfig(c) && After(c, run, actions).Some?
    ensures Inv(c, run, After(c, run, actions).value)
    ensures |actions| + Measure(c, After(c, run, actions).value) <= Measure(c, Init<R>(c))
  {
    if actions == [] {
      InitInv(c, run);
    } else {
      var prefix, last := actions[..|actions| - 1], actions[|actions| - 1];
      RunSafe(c, run, prefix);
      StepInv(c, run, After(c, run, prefix).value, last);
      MeasureDecreases(c, run, After(c, run, prefix).value, last);
    }
  }

  // ------------------------------------------------------- the returned list

  predicate SortedByIndex<R>(entries: seq<Entry<R>>) {
    forall i, j :: 0 <= i < j < |entries| ==> entries[i].index <= entries[j].index
  }

  /** A sorting of the received entries by case index. */
  ghost predicate SortingOf<R>(ordered: seq<Entry<R>>, received: seq<Entry<R>>) {
    multiset(ordered) == multiset(received) && SortedByIndex(ordered)
  }

  lemma DistinctSorting<R>(ordered: seq<Entry<R>>, received: seq<Entry<R>>)
    requires SortingOf(ordered, received) && DistinctEntries(received)
    ensures |ordered| == |received| && DistinctEntries(ordered)
    ensures forall e :: e in ordered <==> e in received
  {
    assert |ordered| == |multiset(ordered)| == |received|;
    forall e ensures e in ordered <==> e in received { assert e in multiset(ordered) <==> e in multiset(received); }
    forall i, j | 0 <= i < j < |ordered| ensures ordered[i].index != ordered[j].index {
      if ordered[i].index == ordered[j].index {
        SameEntry(received, ordered[i], ordered[j]);
        TwiceIn(ordered, i, j);
        OnceIn(received, ordered[i]);
      }
    }
  }

  lemma SameEntry<R>(log: seq<Entry<R>>, a: Entry<R>, b: Entry<R>)
    requires DistinctEntries(log) && a in log && b in log && a.index == b.index
    ensures a == b
  {
    var i :| 0 <= i < |log| && log[i] == a;
    var j :| 0 <= j < |log| && log[j] == b;
    assert i == j;
  }

  lemma TwiceIn<R>(s: seq<Entry<R>>, i: nat, j: nat)
    requires i < j < |s| && s[i] == s[j]
    ensures multiset(s)[s[i]] >= 2
  {
    assert s == s[..i] + [s[i]] + s[i + 1..j] + [s[j]] + s[j + 1..];
  }

  lemma {:induction false} OnceIn<R>(log: seq<Entry<R>>, e: Entry<R>)
    requires DistinctEntries(log)
    ensures multiset(log)[e] <= 1
  {
    if log != [] {
      var rest, last := log[..|log| - 1], log[|log| - 1];
      assert log == rest + [last];
      OnceIn(rest, e);
      if e == last { assert e !in rest; }
    }
  }

  /** Strictly ascending case indices below their number are the identity. */
  lemma {:induction false} AscendingIsIdentity<R>(ordered: seq<Entry<R>>, n: nat, i: nat)
    requires |ordered| == n && SortedByIndex(ordered) && DistinctEntries(ordered) && i < n
    requires forall j :: 0 <= j < n ==> ordered[j].index < n
    ensures ordered[i].index == i
  {
    AtLeast(ordered, i);
    AtMost(ordered, n, i);
  }

  lemma {:induction false} AtLeast<R>(ordered: seq<Entry<R>>, i: nat)
    requires SortedByIndex(ordered) && DistinctEntries(ordered) && i < |ordered|
    ensures ordered[i].index >= i
  {
    if i > 0 { AtLeast(ordered, i - 1); }
  }

  lemma {:induction false} AtMost<R>(ordered: seq<Entry<R>>, n: nat, i: nat)
    requires |ordered| == n && SortedByIndex(ordered) && DistinctEntries(ordered) && i < n
    requires forall j :: 0 <= j < n ==> ordered[j].index < n
    ensures ordered[i].index <= i
    decreases n - i
  {
    if i + 1 < n { AtMost(ordered, n, i + 1); }
  }

  function ResultsOf<R>(entries: seq<Entry<R>>): (r: seq<R>)
    ensures |r| == |entries| && forall i :: 0 <= i < |r| ==> r[i] == entries[i].result
  {
    seq(|entries|, i requires 0 <= i < |entries| => entries[i].result)
  }

  /** The results of executing the cases one after another. */
  function Sequential<R>(n: nat, run: nat -> R): (r: seq<R>)
    ensures |r| == n && forall i: nat :: i < n ==> r[i] == run(i)
  {
    seq(n, (i: nat) => run(i))
  }

  ghost predicate FromCase<R>(n: nat, run: nat -> R, e: Entry<R>) { e.index < n && e.result == run(e.index) }

  lemma SortedIsSequential<R>(n: nat, run: nat -> R, received: seq<Entry<R>>, ordered: seq<Entry<R>>)
    requires |received| == n && DistinctEntries(received) && SortingOf(ordered, received)
    requires forall j :: 0 <= j < n ==> FromCase(n, run, received[j])
    ensures ResultsOf(ordered) == Sequential(n, run)
  {
    DistinctSorting(ordered, received);
    forall j | 0 <= j < n ensures FromCase(n, run, ordered[j]) {
      assert ordered[j] in received;
    }
    forall i: nat | i < n ensures ResultsOf(ordered)[i] == run(i) {
      assert forall j :: 0 <= j < n ==> FromCase(n, run, ordered[j]);
      AscendingIsIdentity(ordered, n, i);
    }
  }

  /** What the coordinator holds when it completes. */
  lemma CompletedResults<R>(c: Config, run: nat -> R, s: State<R>)
    requires Inv(c, run, s) && s.coordinator.Completed?
    ensures |s.results| == c.cases && DistinctEntries(s.results)
    ensures forall j :: 0 <= j < c.cases ==> FromCase(c.cases, run, s.results[j])
  {
    assert Log(s) == s.results;
    forall j | 0 <= j < c.cases ensures FromCase(c.cases, run, s.results[j]) {
      assert EntryOk(c, run, s.workers, Log(s)[j]);
    }
  }

  /** For every job count and every interleaving: a run that completes has executed every
      case exactly once and returns the sequential map over the cases. */
  lemma ParallelIsSequential<R>(cases: nat, jobs: nat, run: nat -> R, actions: seq<Action>, ordered: seq<Entry<R>>)
    requires cases > 0 && After(ConfigFor(cases, jobs), run, actions).Some?
    requires var s := After(ConfigFor(cases, jobs), run, actions).value;
             s.coordinator.Completed? && SortingOf(ordered, s.results)
    ensures ResultsOf(ordered) == Sequential(cases, run)
  {
    var c := ConfigFor(cases, jobs);
    RunSafe(c, run, actions);
    CompletedResults(c, run, After(c, run, actions).value);
    SortedIsSequential(cases, run, After(c, run, actions).value.results, ordered);
  }

  /** Case `i` has been executed by the worker whose stride it is on. */
  predicate Executed<R>(c: Config, workers: seq<Worker<R>>, i: nat)
    requires |workers| > 0
  {
    var worker := workers[i % |workers|];
    i < worker.SentBelow(c.cases) || (worker.Sending? && i == worker.next)
  }

  /** How often a run executes case `i`. */
  function Executions<R>(c: Config, run: nat -> R, actions: seq<Action>, i: nat): nat
    requires After(c, run, actions).Some?
  {
    if actions == [] then 0
    else
      var prefix, last := actions[..|actions| - 1], actions[|actions| - 1];
      var s := After(c, run, prefix).value;
      Executions(c, run, prefix, i) + if last.Execute? && s.workers[last.w].next == i then 1 else 0
  }

  lemma ExecutedStep<R>(c: Config, run: nat -> R, s: State<R>, a: Action, i: nat)
    requires Inv(c, run, s) && Enabled(c, s, a) && i < c.cases
    ensures |Apply(c, run, s, a).workers| == |s.workers| == c.workers
    ensures a.Execute? && s.workers[a.w].next == i ==>
              !Executed(c, s.workers, i) && Executed(c, Apply(c, run, s, a).workers, i)
    ensures !(a.Execute? && s.workers[a.w].next == i) ==>
              (Executed(c, Apply(c, run, s, a).workers, i) <==> Executed(c, s.workers, i))
  {
    NeverFails(c, run, s);
    match a
    case Spawn => assert s.workers[s.coordinator.spawned].Unspawned?;
    case Start(w) => if i < w { StrideStart(i, w, c.workers); }
    case Send(w) =>
      assert WorkerOk(c, run, w, s.workers[w]);
      var k := s.workers[w].next;
      if i % c.workers == w && k <= i < k + c.workers { SameStride(i, k, c.workers); }
    case Execute(w) => assert WorkerOk(c, run, w, s.workers[w]);
    case _ =>
  }

  /** No run executes a case twice, and a run that completes has executed each once. */
  lemma {:induction false} ExecutedOnce<R>(c: Config, run: nat -> R, actions: seq<Action>, i: nat)
    requires ValidConfig(c) && After(c, run, actions).Some? && i < c.cases
    ensures |After(c, run, actions).value.workers| == c.workers
    ensures Executions(c, run, actions, i) == if Executed(c, After(c, run, actions).value.workers, i) then 1 else 0
    ensures After(c, run, actions).value.coordinator.Completed? ==> Executions(c, run, actions, i) == 1
  {
    RunSafe(c, run, actions);
    if actions != [] {
      var prefix, last := actions[..|actions| - 1], actions[|actions| - 1];
      ExecutedOnce(c, run, prefix, i);
      RunSafe(c, run, prefix);
      ExecutedStep(c, run, After(c, run, prefix).value, last, i);
    }
    if After(c, run, actions).value.coordinator.Completed? {
      CaseSent(c, run, After(c, run, actions).value, i);
    }
  }

  lemma CaseSent<R>(c: Config, run: nat -> R, s: State<R>, i: nat)
    requires Inv(c, run, s) && |s.results| == c.cases && i < c.cases
    ensures Sent(c, s.workers, i)
  {
    LogBound(c, run, s.workers, Log(s));
    assert Listed(Log(s), i);
    var j :| 0 <= j < |Log(s)| && Log(s)[j].index == i;
    assert EntryOk(c, run, s.workers, Log(s)[j]);
  }

  /** For every job count, a run can stop only at the end: whatever has happened so far, some
      step is enabled until all workers have finished and the coordinator has completed. */
  lemma RunsComplete<R>(cases: nat, jobs: nat, run: nat -> R, actions: seq<Action>)
    requires cases > 0 && After(ConfigFor(cases, jobs), run, actions).Some?
    requires forall a: Action :: !Enabled(ConfigFor(cases, jobs), After(ConfigFor(cases, jobs), run, actions).value, a)
    ensures Final(After(ConfigFor(cases, jobs), run, actions).value)
  {
    var c := ConfigFor(cases, jobs);
    RunSafe(c, run, actions);
    if !Final(After(c, run, actions).value) {
      var a := NoDeadlock(c, run, After(c, run, actions).value);
    }
  }

  /** The state after `k` spawns and nothing else. */
  function Spawned<R>(c: Config, k: nat): State<R>
    requires k <= c.workers
  {
    State(seq(c.workers, (w: nat) => if w < k then Waiting else Unspawned),
          if k < c.workers then Spawning(k) else Receiving, [], [])
  }

  lemma {:induction false} SpawnRun<R>(c: Config, run: nat -> R, k: nat)
    requires ValidConfig(c) && k <= c.workers
    ensures After(c, run, seq(k, _ => Spawn)) == Some(Spawned<R>(c, k))
  {
    var actions: seq<Action> := seq(k, _ => Spawn);
    if k == 0 {
      assert Init<R>(c).workers == Spawned<R>(c, 0).workers;
    } else {
      SpawnRun(c, run, k - 1);
      assert actions[..k - 1] == seq(k - 1, _ => Spawn);
      var s := Spawned<R>(c, k - 1);
      assert Apply(c, run, s, Spawn).workers == Spawned<R>(c, k).workers;
    }
  }

  /** The reserved thread is needed: with a single pool thread, whatever the worker count,
      the run that spawns all workers reaches a state with no enabled step. */
  lemma OneThreadDeadlocks<R>(c: Config, run: nat -> R)
    requires ValidConfig(c) && c.threads == 1
    ensures After(c, run, seq(c.workers, _ => Spawn)) == Some(Spawned<R>(c, c.workers))
    ensures !Final(Spawned<R>(c, c.workers)) && forall a: Action :: !Enabled(c, Spawned<R>(c, c.workers), a)
  {
    SpawnRun(c, run, c.workers);
    NoneActive(Spawned<R>(c, c.workers).workers);
  }
}
