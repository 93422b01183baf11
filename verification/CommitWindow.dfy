/**
 The commit phase of the memory benchmark (crates/benchmark/src/memory.rs):
 commits are spawned into a window of bounded size and joined in whatever order
 they finish.
 */
module CommitWindow {
  import opened Wrappers

  // ---- One commit ----

  datatype Visibility = Visibility(commitSequence: nat, visibleSequence: nat)

  datatype Receipt = Receipt(
    versionIds: seq<string>,
    commitSequence: nat,
    durability: string,
    projectionStatus: string,
    visibility: Option<Visibility>)

  datatype Sample = Sample(index: nat, versionId: string, commitSequence: nat, lag: nat)

  datatype CommitError = CallFailed | MalformedReceipt | NotSynced | MissingVisibility | InconsistentVisibility

  /** What committing version `index` comes to, whenever its task finishes. */
  type Commit = nat -> Result<Sample, CommitError>

  /** The receipt the server returns for each index; `None` when the call fails or its task dies. */
  type Replies = nat -> Option<Receipt>

  function SaturatingSub(a: nat, b: nat): nat {
    if a < b then 0 else a - b
  }

  /** The checks of one receipt, in the tool's order. */
  function CommitOne(index: nat, reply: Option<Receipt>): Result<Sample, CommitError> {
    if reply.None? then Failure(CallFailed)
    else
      var receipt := reply.value;
      if |receipt.versionIds| != 1 || receipt.commitSequence == 0 then Failure(MalformedReceipt)
      else if receipt.durability != "SYNCED" || receipt.projectionStatus != "VISIBLE" then Failure(NotSynced)
      else if receipt.visibility.None? then Failure(MissingVisibility)
      else
        var seen := receipt.visibility.value;
        if seen.commitSequence != receipt.commitSequence || seen.visibleSequence < receipt.commitSequence then
          Failure(InconsistentVisibility)
        else
          var lag := SaturatingSub(receipt.commitSequence, seen.visibleSequence);
          Success(Sample(index, receipt.versionIds[0], receipt.commitSequence, lag))
  }

  /** A commit counts exactly when its one version is durable and already visible; so it never lags. */
  lemma CommitOneExact(index: nat, reply: Option<Receipt>)
    ensures CommitOne(index, reply).Success? <==>
      exists id, sequence: nat, visible: nat ::
        && 0 < sequence <= visible
        && reply == Some(Receipt([id], sequence, "SYNCED", "VISIBLE", Some(Visibility(sequence, visible))))
    ensures CommitOne(index, reply).Success? ==>
      var sample := CommitOne(index, reply).value;
      sample == Sample(index, reply.value.versionIds[0], reply.value.commitSequence, 0)
  {
    if CommitOne(index, reply).Success? {
      var r := reply.value;
      assert r.versionIds == [r.versionIds[0]];
      var visible := r.visibility.value.visibleSequence;
      assert reply == Some(Receipt(
        [r.versionIds[0]], r.commitSequence, "SYNCED", "VISIBLE", Some(Visibility(r.commitSequence, visible))));
    }
  }

  function Outcomes(replies: Replies): Commit {
    (i: nat) => CommitOne(i, replies(i))
  }

  ghost predicate OwnIndex(commit: Commit) {
    forall i: nat :: commit(i).Success? ==> commit(i).value.index == i
  }

  lemma OwnOutcomes(replies: Replies)
    ensures OwnIndex(Outcomes(replies))
  {
    forall i: nat | Outcomes(replies)(i).Success? ensures Outcomes(replies)(i).value.index == i {
      CommitOneExact(i, replies(i));
    }
  }

  // ---- Traces of spawned commits ----

  datatype Event = Spawn(index: nat) | Join(index: nat)

  /** The tasks started and not yet joined after the first `n` events. */
  function InFlight(trace: seq<Event>, n: nat): set<nat>
    requires n <= |trace|
  {
    if n == 0 then {}
    else
      match trace[n - 1]
      case Spawn(i) => InFlight(trace, n - 1) + {i}
      case Join(i) => InFlight(trace, n - 1) - {i}
  }

  function Joined(trace: seq<Event>, n: nat): set<nat>
    requires n <= |trace|
  {
    if n == 0 then {}
    else
      match trace[n - 1]
      case Spawn(_) => Joined(trace, n - 1)
      case Join(i) => Joined(trace, n - 1) + {i}
  }

  function SpawnCount(trace: seq<Event>, n: nat): nat
    requires n <= |trace|
  {
    if n == 0 then 0 else SpawnCount(trace, n - 1) + if trace[n - 1].Spawn? then 1 else 0
  }

  /**
   A window trace: indices are started in order, each only into a window with
   room; a task is joined only when the window is full or nothing is left to
   start, and only while it is in flight.
   */
  ghost predicate Lawful(versions: nat, concurrency: nat, trace: seq<Event>, n: nat)
    requires n <= |trace|
  {
    n == 0 || (
      && Lawful(versions, concurrency, trace, n - 1)
      && match trace[n - 1]
         case Spawn(i) => i == SpawnCount(trace, n - 1) < versions && |InFlight(trace, n - 1)| < concurrency
         case Join(i) =>
           && i in InFlight(trace, n - 1)
           && (|InFlight(trace, n - 1)| == concurrency || SpawnCount(trace, n - 1) == versions))
  }

  lemma {:induction false} TraceLonger(versions: nat, concurrency: nat, trace: seq<Event>, event: Event, n: nat)
    requires n <= |trace|
    ensures InFlight(trace + [event], n) == InFlight(trace, n)
    ensures Joined(trace + [event], n) == Joined(trace, n)
    ensures SpawnCount(trace + [event], n) == SpawnCount(trace, n)
    ensures Lawful(versions, concurrency, trace + [event], n) <==> Lawful(versions, concurrency, trace, n)
  {
    if n > 0 {
      TraceLonger(versions, concurrency, trace, event, n - 1);
    }
  }

  /** Every started index is in flight or joined, not both, and the window stays within its bound. */
  lemma {:induction false} Accounted(versions: nat, concurrency: nat, trace: seq<Event>, n: nat)
    requires n <= |trace| && Lawful(versions, concurrency, trace, n)
    ensures |InFlight(trace, n)| <= concurrency && SpawnCount(trace, n) <= versions
    ensures forall i: nat :: i < SpawnCount(trace, n) <==> i in InFlight(trace, n) || i in Joined(trace, n)
    ensures InFlight(trace, n) !! Joined(trace, n)
    ensures |InFlight(trace, n)| + |Joined(trace, n)| == SpawnCount(trace, n)
  {
    if n > 0 {
      Accounted(versions, concurrency, trace, n - 1);
    }
  }

  lemma NotStarted(versions: nat, concurrency: nat, trace: seq<Event>)
    requires Lawful(versions, concurrency, trace, |trace|)
    ensures SpawnCount(trace, |trace|) !in InFlight(trace, |trace|)
  {
    Accounted(versions, concurrency, trace, |trace|);
  }

  lemma NotJoined(versions: nat, concurrency: nat, trace: seq<Event>, n: nat)
    requires n <= |trace| && Lawful(versions, concurrency, trace, n)
    ensures InFlight(trace, n) !! Joined(trace, n)
  {
    Accounted(versions, concurrency, trace, n);
  }

  /** How often an event has happened. */
  function Times(trace: seq<Event>, event: Event, n: nat): nat
    requires n <= |trace|
  {
    if n == 0 then 0 else Times(trace, event, n - 1) + if trace[n - 1] == event then 1 else 0
  }

  /** The index is started once and joined once if it was asked for, and not at all otherwise. */
  ghost predicate OnceOnly(trace: seq<Event>, i: nat, versions: nat) {
    Times(trace, Spawn(i), |trace|) == Times(trace, Join(i), |trace|) == if i < versions then 1 else 0
  }

  /** A start has happened once if the index was started, a join once if it was joined. */
  lemma {:induction false} OnceEach(versions: nat, concurrency: nat, trace: seq<Event>, n: nat, i: nat)
    requires n <= |trace| && Lawful(versions, concurrency, trace, n)
    ensures Times(trace, Spawn(i), n) == if i < SpawnCount(trace, n) then 1 else 0
    ensures Times(trace, Join(i), n) == if i in Joined(trace, n) then 1 else 0
  {
    if n > 0 {
      OnceEach(versions, concurrency, trace, n - 1, i);
      Accounted(versions, concurrency, trace, n - 1);
    }
  }

  /** The samples of the joined commits that succeeded, in the order of joining. */
  function SamplesOf(commit: Commit, trace: seq<Event>, n: nat): seq<Sample>
    requires n <= |trace|
  {
    if n == 0 then []
    else if trace[n - 1].Join? && commit(trace[n - 1].index).Success? then
      SamplesOf(commit, trace, n - 1) + [commit(trace[n - 1].index).value]
    else SamplesOf(commit, trace, n - 1)
  }

  function ErrorsOf(commit: Commit, trace: seq<Event>, n: nat): seq<CommitError>
    requires n <= |trace|
  {
    if n == 0 then []
    else if trace[n - 1].Join? && commit(trace[n - 1].index).Failure? then
      ErrorsOf(commit, trace, n - 1) + [commit(trace[n - 1].index).error]
    else ErrorsOf(commit, trace, n - 1)
  }

  lemma {:induction false} ResultsLonger(commit: Commit, trace: seq<Event>, event: Event, n: nat)
    requires n <= |trace|
    ensures SamplesOf(commit, trace + [event], n) == SamplesOf(commit, trace, n)
    ensures ErrorsOf(commit, trace + [event], n) == ErrorsOf(commit, trace, n)
  {
    if n > 0 {
      ResultsLonger(commit, trace, event, n - 1);
    }
  }

  // ---- What a finished trace leaves ----

  function Below(n: nat): (indices: set<nat>)
    ensures forall i: nat :: i in indices <==> i < n
  {
    if n == 0 then {} else Below(n - 1) + {n - 1}
  }

  ghost function Succeeding(commit: Commit, indices: set<nat>): set<nat> {
    set i | i in indices && commit(i).Success?
  }

  /** The samples are those of the succeeding commits among the joined ones, each once. */
  ghost predicate Sampled(commit: Commit, joined: set<nat>, samples: seq<Sample>) {
    && |samples| == |Succeeding(commit, joined)|
    && (forall s :: s in samples ==> s.index in joined && commit(s.index) == Success(s))
    && (forall i :: i in joined && commit(i).Success? ==> commit(i).value in samples)
  }

  lemma JoinedOne(commit: Commit, joined: set<nat>, samples: seq<Sample>, i: nat)
    requires OwnIndex(commit) && Sampled(commit, joined, samples) && i !in joined
    ensures commit(i).Success? ==> Sampled(commit, joined + {i}, samples + [commit(i).value])
    ensures commit(i).Failure? ==> Sampled(commit, joined + {i}, samples)
  {
    if commit(i).Success? {
      assert Succeeding(commit, joined + {i}) == Succeeding(commit, joined) + {i};
    } else {
      assert Succeeding(commit, joined + {i}) == Succeeding(commit, joined);
    }
  }

  lemma {:induction false} TraceSampled(
      versions: nat, concurrency: nat, commit: Commit, trace: seq<Event>, n: nat)
    requires OwnIndex(commit) && n <= |trace| && Lawful(versions, concurrency, trace, n)
    ensures Sampled(commit, Joined(trace, n), SamplesOf(commit, trace, n))
  {
    if n > 0 {
      TraceSampled(versions, concurrency, commit, trace, n - 1);
      NotJoined(versions, concurrency, trace, n - 1);
      if trace[n - 1].Join? {
        JoinedOne(commit, Joined(trace, n - 1), SamplesOf(commit, trace, n - 1), trace[n - 1].index);
      }
    }
  }

  lemma {:induction false} TraceCounted(
      versions: nat, concurrency: nat, commit: Commit, trace: seq<Event>, n: nat)
    requires n <= |trace| && Lawful(versions, concurrency, trace, n)
    ensures |SamplesOf(commit, trace, n)| + |ErrorsOf(commit, trace, n)| == |Joined(trace, n)|
  {
    if n > 0 {
      TraceCounted(versions, concurrency, commit, trace, n - 1);
      NotJoined(versions, concurrency, trace, n - 1);
    }
  }

  // ---- The scheduler ----

  /** The set of running tasks; every start and every join goes through it. */
  class JoinSet {
    var running: set<nat>
    ghost var trace: seq<Event>

    ghost predicate Valid()
      reads this
    {
      running == InFlight(trace, |trace|)
    }

    constructor ()
      ensures Valid() && running == {} && trace == []
    {
      running, trace := {}, [];
    }

    method StartTask(index: nat)
      requires Valid()
      modifies this
      ensures Valid() && running == old(running) + {index} && trace == old(trace) + [Spawn(index)]
    {
      TraceLonger(0, 0, trace, Spawn(index), |trace|);
      running, trace := running + {index}, trace + [Spawn(index)];
    }

    /** Some running task finishes, whichever it is. */
    method JoinNext() returns (index: nat)
      requires Valid() && running != {}
      modifies this
      ensures index in old(running)
      ensures Valid() && running == old(running) - {index} && trace == old(trace) + [Join(index)]
    {
      index :| index in running;
      TraceLonger(0, 0, trace, Join(index), |trace|);
      running, trace := running - {index}, trace + [Join(index)];
    }
  }

  /** The trace is lawful so far, and the loop's variables are what it says. */
  ghost predicate Progress(
      versions: nat, concurrency: nat, commit: Commit, trace: seq<Event>,
      next: nat, samples: seq<Sample>, errors: seq<CommitError>) {
    && Lawful(versions, concurrency, trace, |trace|)
    && next == SpawnCount(trace, |trace|) <= versions
    && samples == SamplesOf(commit, trace, |trace|)
    && errors == ErrorsOf(commit, trace, |trace|)
  }

  lemma SpawnStep(
      versions: nat, concurrency: nat, commit: Commit, trace: seq<Event>,
      next: nat, samples: seq<Sample>, errors: seq<CommitError>)
    requires Progress(versions, concurrency, commit, trace, next, samples, errors)
    requires next < versions && |InFlight(trace, |trace|)| < concurrency
    ensures Progress(versions, concurrency, commit, trace + [Spawn(next)], next + 1, samples, errors)
  {
    TraceLonger(versions, concurrency, trace, Spawn(next), |trace|);
    ResultsLonger(commit, trace, Spawn(next), |trace|);
  }

  lemma JoinStep(
      versions: nat, concurrency: nat, commit: Commit, trace: seq<Event>,
      next: nat, samples: seq<Sample>, errors: seq<CommitError>, done: nat)
    requires Progress(versions, concurrency, commit, trace, next, samples, errors)
    requires done in InFlight(trace, |trace|) && (next == versions || |InFlight(trace, |trace|)| == concurrency)
    ensures match commit(done)
            case Success(sample) =>
              Progress(versions, concurrency, commit, trace + [Join(done)], next, samples + [sample], errors)
            case Failure(error) =>
              Progress(versions, concurrency, commit, trace + [Join(done)], next, samples, errors + [error])
  {
    var longer := trace + [Join(done)];
    assert |longer| == |trace| + 1 && longer[|trace|] == Join(done);
    TraceLonger(versions, concurrency, trace, Join(done), |trace|);
    ResultsLonger(commit, trace, Join(done), |trace|);
    assert Lawful(versions, concurrency, longer, |longer|) && SpawnCount(longer, |longer|) == next;
  }

  /** Starts commits until the window is full or none is left. */
  method Fill(
      tasks: JoinSet, versions: nat, concurrency: nat, next: nat,
      ghost commit: Commit, ghost samples: seq<Sample>, ghost errors: seq<CommitError>)
    returns (next': nat)
    requires tasks.Valid() && |tasks.running| <= concurrency
    requires Progress(versions, concurrency, commit, tasks.trace, next, samples, errors)
    modifies tasks
    ensures tasks.Valid() && |tasks.running| <= concurrency
    ensures Progress(versions, concurrency, commit, tasks.trace, next', samples, errors)
    ensures versions - next' + |tasks.running| == versions - next + |old(tasks.running)|
    ensures next' == versions || |tasks.running| == concurrency
  {
    next' := next;
    while next' < versions && |tasks.running| < concurrency
      invariant tasks.Valid() && |tasks.running| <= concurrency
      invariant Progress(versions, concurrency, commit, tasks.trace, next', samples, errors)
      invariant versions - next' + |tasks.running| == versions - next + |old(tasks.running)|
      decreases versions - next'
    {
      SpawnStep(versions, concurrency, commit, tasks.trace, next', samples, errors);
      NotStarted(versions, concurrency, tasks.trace);
      tasks.StartTask(next');
      next' := next' + 1;
    }
  }

  /**
   The window loop, for any order of completion.  At no moment are more than
   `concurrency` commits in flight, each index is started once and joined once
   while in flight, and the samples and errors are those of the joined commits
   in the order they were joined.
   */
  method RunWindow(versions: nat, concurrency: nat, commit: Commit)
    returns (samples: seq<Sample>, errors: seq<CommitError>, ghost trace: seq<Event>)
    requires concurrency > 0
    ensures Lawful(versions, concurrency, trace, |trace|)
    ensures forall n: nat :: n <= |trace| ==> |InFlight(trace, n)| <= concurrency
    ensures InFlight(trace, |trace|) == {} && Joined(trace, |trace|) == Below(versions)
    ensures forall i: nat :: OnceOnly(trace, i, versions)
    ensures samples == SamplesOf(commit, trace, |trace|) && errors == ErrorsOf(commit, trace, |trace|)
    ensures |samples| + |errors| == versions
    ensures OwnIndex(commit) ==> Sampled(commit, Below(versions), samples)
  {
    var tasks := new JoinSet();
    var next: nat := 0;
    samples, errors := [], [];
    while next < versions || tasks.running != {}
      invariant fresh(tasks) && tasks.Valid() && |tasks.running| <= concurrency
      invariant Progress(versions, concurrency, commit, tasks.trace, next, samples, errors)
      decreases versions - next + |tasks.running|
    {
      next := Fill(tasks, versions, concurrency, next, commit, samples, errors);
      ghost var before := tasks.trace;
      var done := tasks.JoinNext();
      JoinStep(versions, concurrency, commit, before, next, samples, errors, done);
      match commit(done) {
        case Success(sample) => samples := samples + [sample];
        case Failure(error) => errors := errors + [error];
      }
    }
    trace := tasks.trace;
    Finished(versions, concurrency, trace);
    TraceCounted(versions, concurrency, commit, trace, |trace|);
    if OwnIndex(commit) {
      TraceSampled(versions, concurrency, commit, trace, |trace|);
    }
  }

  lemma {:induction false} LawfulPrefix(versions: nat, concurrency: nat, trace: seq<Event>, m: nat, n: nat)
    requires m <= n <= |trace| && Lawful(versions, concurrency, trace, n)
    ensures Lawful(versions, concurrency, trace, m)
  {
    if m < n {
      LawfulPrefix(versions, concurrency, trace, m, n - 1);
    }
  }

  lemma Finished(versions: nat, concurrency: nat, trace: seq<Event>)
    requires Lawful(versions, concurrency, trace, |trace|)
    requires InFlight(trace, |trace|) == {} && SpawnCount(trace, |trace|) == versions
    ensures forall n: nat :: n <= |trace| ==> |InFlight(trace, n)| <= concurrency
    ensures Joined(trace, |trace|) == Below(versions) && |Joined(trace, |trace|)| == versions
    ensures forall i: nat :: OnceOnly(trace, i, versions)
  {
    forall n: nat | n <= |trace| ensures |InFlight(trace, n)| <= concurrency {
      LawfulPrefix(versions, concurrency, trace, n, |trace|);
      Accounted(versions, concurrency, trace, n);
    }
    Accounted(versions, concurrency, trace, |trace|);
    forall i: nat ensures OnceOnly(trace, i, versions) {
      OnceEach(versions, concurrency, trace, |trace|, i);
    }
  }

  datatype Report = Report(requested: nat, succeeded: nat, failed: nat, maximumLag: nat)

  function Largest(samples: seq<Sample>, n: nat): nat
    requires n <= |samples|
  {
    if n == 0 then 0
    else
      var before := Largest(samples, n - 1);
      if samples[n - 1].lag > before then samples[n - 1].lag else before
  }

  /** The largest lag is one of the lags and none exceeds it. */
  lemma {:induction false} LargestIs(samples: seq<Sample>, n: nat)
    requires n <= |samples|
    ensures forall k :: 0 <= k < n ==> samples[k].lag <= Largest(samples, n)
    ensures Largest(samples, n) == 0 || exists k :: 0 <= k < n && samples[k].lag == Largest(samples, n)
  {
    if n > 0 {
      LargestIs(samples, n - 1);
    }
  }

  /** The version a commit produced, if it succeeded. */
  function VersionOf(commit: Commit, i: nat): Option<string> {
    match commit(i)
    case Success(sample) => Some(sample.versionId)
    case Failure(_) => None
  }

  /** Every sample belongs to a requested index and carries the version of that commit. */
  ghost predicate Genuine(versions: nat, commit: Commit, samples: seq<Sample>) {
    forall n :: 0 <= n < |samples| ==>
      samples[n].index < versions && VersionOf(commit, samples[n].index) == Some(samples[n].versionId)
  }

  function IndicesOf(samples: seq<Sample>, n: nat): set<nat>
    requires n <= |samples|
  {
    if n == 0 then {} else IndicesOf(samples, n - 1) + {samples[n - 1].index}
  }

  lemma {:induction false} IndexListed(samples: seq<Sample>, n: nat, k: nat)
    requires k < n <= |samples|
    ensures samples[k].index in IndicesOf(samples, n)
  {
    if k < n - 1 {
      IndexListed(samples, n - 1, k);
    }
  }

  lemma SamplesGenuine(versions: nat, commit: Commit, samples: seq<Sample>)
    requires OwnIndex(commit) && Sampled(commit, Below(versions), samples)
    ensures Genuine(versions, commit, samples)
    ensures forall i: nat :: i < versions && i !in IndicesOf(samples, |samples|) ==> VersionOf(commit, i) == None
  {
    forall n | 0 <= n < |samples|
      ensures samples[n].index < versions && VersionOf(commit, samples[n].index) == Some(samples[n].versionId)
    {
      assert samples[n] in samples;
    }
    forall i: nat | i < versions && commit(i).Success? ensures i in IndicesOf(samples, |samples|) {
      assert i in Below(versions);
      var k :| 0 <= k < |samples| && samples[k] == commit(i).value;
      IndexListed(samples, |samples|, k);
    }
  }

  /** Lists the produced versions by index, and finds the largest lag. */
  method Tabulate(
        versions: nat, samples: seq<Sample>, ghost commit: Commit)
    returns (versionIds: seq<Option<string>>, lag: nat)
    requires Genuine(versions, commit, samples)
    ensures |versionIds| == versions
    ensures forall i: nat :: i < versions ==>
      versionIds[i] == if i in IndicesOf(samples, |samples|) then VersionOf(commit, i) else None
    ensures lag == Largest(samples, |samples|)
  {
    var ids := new Option<string>[versions](_ => None);
    lag := 0;
    for n := 0 to |samples|
      invariant lag == Largest(samples, n)
      invariant forall i :: 0 <= i < versions ==>
        ids[i] == if i in IndicesOf(samples, n) then VersionOf(commit, i) else None
    {
      var sample := samples[n];
      ids[sample.index] := Some(sample.versionId);
      lag := if sample.lag > lag then sample.lag else lag;
    }
    versionIds := ids[..];
  }

  /** A commit that is not yet visible is refused, so the largest lag is always zero. */
  lemma NeverLags(versions: nat, replies: Replies, samples: seq<Sample>)
    requires Sampled(Outcomes(replies), Below(versions), samples)
    ensures Largest(samples, |samples|) == 0
  {
    LargestIs(samples, |samples|);
    forall k | 0 <= k < |samples| ensures samples[k].lag == 0 {
      assert samples[k] in samples;
      CommitOneExact(samples[k].index, replies(samples[k].index));
    }
  }

  /**
   The whole phase, for any order of completion: every commit is accounted for
   once, position `i` of the version list is set exactly when the receipt of
   commit `i` passed its checks, to the version it named, and no counted commit
   lags.
   */
  method RunCommits(versions: nat, concurrency: nat, replies: Replies)
    returns (report: Report, versionIds: seq<Option<string>>)
    requires concurrency > 0
    ensures report.requested == versions == report.succeeded + report.failed
    ensures report.succeeded == |Succeeding(Outcomes(replies), Below(versions))|
    ensures |versionIds| == versions
    ensures forall i: nat :: i < versions ==> versionIds[i] == VersionOf(Outcomes(replies), i)
    ensures report.maximumLag == 0
  {
    var commit := Outcomes(replies);
    OwnOutcomes(replies);
    var samples, errors, _ := RunWindow(versions, concurrency, commit);
    SamplesGenuine(versions, commit, samples);
    var lag;
    versionIds, lag := Tabulate(versions, samples, commit);
    NeverLags(versions, replies, samples);
    report := Report(versions, |samples|, |errors|, lag);
  }

  // ---- Percentiles ----

  /** The nearest-rank percentile of sorted samples; zero when there are none. */
  function NearestRank(values: seq<nat>, numerator: nat, denominator: nat): nat
    requires denominator > 0
  {
    if values == [] then 0
    else
      var rank := (|values| * numerator + (denominator - 1)) / denominator;
      var atLeastOne := if rank < 1 then 1 else rank;
      values[(if atLeastOne < |values| then atLeastOne else |values|) - 1]
  }

  function AtMost(values: seq<nat>, x: nat, n: nat): nat
    requires n <= |values|
  {
    if n == 0 then 0 else AtMost(values, x, n - 1) + if values[n - 1] <= x then 1 else 0
  }

  lemma RankArithmetic(total: nat, denominator: nat)
    requires denominator > 0
    ensures var rank := (total + (denominator - 1)) / denominator;
            total <= rank * denominator < total + denominator
  {
    var sum := total + (denominator - 1);
    assert sum == sum / denominator * denominator + sum % denominator;
  }

  predicate Sorted(values: seq<nat>) {
    forall i, j :: 0 <= i < j < |values| ==> values[i] <= values[j]
  }

  lemma {:induction false} AtMostSorted(values: seq<nat>, x: nat, n: nat, k: nat)
    requires Sorted(values) && n <= |values|
    ensures k < |values| && values[k] <= x ==> AtMost(values, x, n) >= if k < n then k + 1 else n
    ensures k < |values| && values[k] > x ==> AtMost(values, x, n) <= k
    ensures AtMost(values, x, n) <= n
  {
    if n > 0 {
      AtMostSorted(values, x, n - 1, k);
    }
  }

  lemma RankBounds(count: nat, numerator: nat, denominator: nat, rank: nat)
    requires 0 < numerator <= denominator && count > 0
    requires count * numerator <= rank * denominator < count * numerator + denominator
    ensures 1 <= rank <= count
  {
    Scaled(1, count, numerator);
    Scaled(numerator, denominator, count);
    Scaled(rank, 0, denominator);
    Scaled(count + 1, rank, denominator);
    assert (count + 1) * denominator == count * denominator + denominator;
  }

  /** The percentile is the least sample with at least the asked fraction of samples at or below it. */
  lemma NearestRankExact(values: seq<nat>, numerator: nat, denominator: nat)
    requires values != [] && Sorted(values) && 0 < numerator <= denominator
    ensures var x := NearestRank(values, numerator, denominator);
            && x in values
            && AtMost(values, x, |values|) * denominator >= |values| * numerator
            && forall y: nat :: y < x ==> AtMost(values, y, |values|) * denominator < |values| * numerator
  {
    var n := |values|;
    var rank := (n * numerator + (denominator - 1)) / denominator;
    RankArithmetic(n * numerator, denominator);
    RankBounds(n, numerator, denominator, rank);
    var x := values[rank - 1];
    assert x == NearestRank(values, numerator, denominator);
    AtMostSorted(values, x, n, rank - 1);
    Scaled(rank, AtMost(values, x, n), denominator);
    forall y: nat | y < x ensures AtMost(values, y, n) * denominator < n * numerator {
      AtMostSorted(values, y, n, rank - 1);
      Scaled(AtMost(values, y, n), rank - 1, denominator);
    }
  }

  lemma Scaled(a: int, b: int, factor: nat)
    ensures a <= b ==> a * factor <= b * factor
  {
  }
}
