/**
 The numbers a run reports: how far the server can be ahead of the journal, how
 the workers' counters relate to the parsed journal, and that the shared
 counters stay far from overflow.
 */
module RecoveryCounters {
  import opened Wrappers
  import opened RecoveryJournal
  import opened RecoveryProtocol
  import opened RecoveryVerifier
  import opened RecoverySafety
  import Counting

  // ----- Merging worker summaries -----

  function Add(a: WorkerSummary, b: WorkerSummary): WorkerSummary {
    WorkerSummary(
      a.allocations + b.allocations, a.insertAcks + b.insertAcks, a.updateAcks + b.updateAcks,
      a.deleteAcks + b.deleteAcks, a.completedTargets + b.completedTargets,
      a.rpcFailures + b.rpcFailures, a.journalFailures + b.journalFailures)
  }

  /** What joining a worker contributes: its summary, or one failure if it panicked. */
  function Joined(w: Worker): WorkerSummary {
    if w.status.Panicked? then NO_WORK.(rpcFailures := 1) else w.summary
  }

  /** The merged summary of the first `n` workers. */
  function Merged(workers: seq<Worker>, n: nat): WorkerSummary
    requires n <= |workers|
  {
    if n == 0 then NO_WORK else Add(Merged(workers, n - 1), Joined(workers[n - 1]))
  }

  method MergeSummaries(workers: seq<Worker>) returns (summary: WorkerSummary)
    ensures summary == Merged(workers, |workers|)
  {
    summary := NO_WORK;
    for i := 0 to |workers|
      invariant summary == Merged(workers, i)
    {
      if workers[i].status.Panicked? {
        summary := summary.(rpcFailures := summary.rpcFailures + 1);
      } else {
        var other := workers[i].summary;
        summary := summary.(allocations := summary.allocations + other.allocations);
        summary := summary.(insertAcks := summary.insertAcks + other.insertAcks);
        summary := summary.(updateAcks := summary.updateAcks + other.updateAcks);
        summary := summary.(deleteAcks := summary.deleteAcks + other.deleteAcks);
        summary := summary.(completedTargets := summary.completedTargets + other.completedTargets);
        summary := summary.(rpcFailures := summary.rpcFailures + other.rpcFailures);
        summary := summary.(journalFailures := summary.journalFailures + other.journalFailures);
      }
    }
  }

  /** Summaries add up in any order. */
  lemma AddLaws(a: WorkerSummary, b: WorkerSummary, c: WorkerSummary)
    ensures Add(a, b) == Add(b, a) && Add(Add(a, b), c) == Add(a, Add(b, c)) && Add(a, NO_WORK) == a
  {
  }

  // ----- Bounded uncertainty -----

  /** The cycles the server is ahead of: one write more than acknowledgements. */
  function AheadCycles(s: State): set<nat> {
    set c | c in TallyOf(s).cycles && WriteCount(s, c) == AckRank(TallyOf(s).cycles[c].lastAck) + 1
  }

  lemma AheadIsAdvanced(cfg: Config, s: State)
    requires FreshPrefix(cfg) && Inv(cfg, s)
    ensures AdvancedCycles(cfg.header, TallyOf(s).cycles, Answers(cfg, s)) == AheadCycles(s)
  {
    var cycles := TallyOf(s).cycles;
    forall c | c in cycles
      ensures Advanced(cfg.header, c, cycles[c], Answers(cfg, s)(c)) <==> c in AheadCycles(s)
    {
      FreshIsClean(cfg, s, c);
      CleanPasses(cfg, s, c);
    }
  }

  predicate Stopped(s: State) {
    forall i :: 0 <= i < |s.workers| ==> !s.workers[i].status.Running?
  }

  function InterruptedWorkers(workers: seq<Worker>, n: nat): set<nat>
    requires n <= |workers|
  {
    set i: nat | i < n && Interrupted(workers[i])
  }

  lemma {:induction false} FailuresCountInterruptions(workers: seq<Worker>, n: nat)
    requires n <= |workers|
    requires forall i :: 0 <= i < n ==> WorkerOk(workers[i]) && !workers[i].status.Running?
    ensures Merged(workers, n).rpcFailures == |InterruptedWorkers(workers, n)|
  {
    if n > 0 {
      FailuresCountInterruptions(workers, n - 1);
      var before := InterruptedWorkers(workers, n - 1);
      assert InterruptedWorkers(workers, n) ==
             before + (if Interrupted(workers[n - 1]) then {n - 1} else {});
      assert n - 1 !in before;
    }
  }

  ghost function Holder(s: State, c: nat): (i: nat)
    requires Held(s, c)
    ensures i < |s.workers| && HeldCycle(s.workers[i].pc) == Some(c)
  {
    var i :| 0 <= i < |s.workers| && HeldCycle(s.workers[i].pc) == Some(c);
    i
  }

  /** An ahead cycle is held by a worker whose call was applied without being recorded. */
  lemma AheadIsHeld(cfg: Config, s: State, c: nat)
    requires Inv(cfg, s) && c in AheadCycles(s)
    ensures Held(s, c) && InFlightApplied(s.workers[Holder(s, c)].pc)
  {
    JournalAccepted(cfg, s, false);
    assert CycleInv(cfg, s, c);
    assert MatchesEvents(TallyOf(s), s.body, c);
    assert PcFits(cfg, s.workers[Holder(s, c)].pc, ViewOf(cfg, s, c));
  }

  lemma HoldersDiffer(cfg: Config, s: State, c: nat, d: nat)
    requires WorkersInv(cfg, s) && Held(s, c) && Held(s, d) && Holder(s, c) == Holder(s, d)
    ensures c == d
  {
  }

  lemma AheadAtMostInterrupted(cfg: Config, s: State)
    requires Inv(cfg, s) && Stopped(s)
    ensures |AheadCycles(s)| <= |InterruptedWorkers(s.workers, |s.workers|)|
  {
    var ahead, broken := AheadCycles(s), InterruptedWorkers(s.workers, |s.workers|);
    forall c | c in ahead ensures Held(s, c) && Holder(s, c) in broken {
      AheadIsHeld(cfg, s, c);
      assert WorkerOk(s.workers[Holder(s, c)]);
    }
    var holder := map c | c in ahead :: Holder(s, c);
    forall c, d | c in ahead && d in ahead && holder[c] == holder[d] ensures c == d {
      HoldersDiffer(cfg, s, c, d);
    }
    Counting.InjectionSize(ahead, broken, holder);
  }

  /**
   Bounded uncertainty.  When every worker has left its loop, the server is at
   most one write ahead on each journaled cycle, the verifier's advances are
   exactly the cycles it is ahead of, and their number is at most the reported
   call failures, which are at most the workers.
   */
  lemma BoundedUncertainty(cfg: Config, steps: seq<Step>)
    requires FreshPrefix(cfg) && Run(cfg, steps).Some? && Stopped(Run(cfg, steps).value)
    ensures var s := Run(cfg, steps).value;
            && (forall c :: c in TallyOf(s).cycles ==> OneStepAhead(TallyOf(s).cycles[c], WriteCount(s, c)))
            && AdvancedCycles(cfg.header, TallyOf(s).cycles, Answers(cfg, s)) == AheadCycles(s)
            && |AheadCycles(s)| <= Merged(s.workers, |s.workers|).rpcFailures <= cfg.workers
  {
    var s := Run(cfg, steps).value;
    RunInv(cfg, steps);
    FailuresCountInterruptions(s.workers, |s.workers|);
    AheadAtMostInterrupted(cfg, s);
    Counting.BoundedSize(InterruptedWorkers(s.workers, |s.workers|), cfg.workers);
    AheadIsAdvanced(cfg, s);
    forall c | c in TallyOf(s).cycles ensures OneStepAhead(TallyOf(s).cycles[c], WriteCount(s, c)) {
      WritesFollowAcks(cfg, s, c);
    }
  }

  // ----- Conservation between workers and parser -----

  /** Everything the first `n` workers counted, panicked workers included. */
  function Total(workers: seq<Worker>, n: nat): WorkerSummary
    requires n <= |workers|
  {
    if n == 0 then NO_WORK else Add(Total(workers, n - 1), workers[n - 1].summary)
  }

  lemma AddSwapped(a: WorkerSummary, b: WorkerSummary, old': WorkerSummary, new': WorkerSummary, more: WorkerSummary)
    requires Add(a, old') == Add(b, new')
    ensures Add(Add(a, more), old') == Add(Add(b, more), new')
  {
  }

  lemma {:induction false} TotalUpdate(workers: seq<Worker>, n: nat, w: nat, worker: Worker)
    requires w < |workers| && n <= |workers|
    ensures Add(Total(workers[w := worker], n), if w < n then workers[w].summary else NO_WORK) ==
            Add(Total(workers, n), if w < n then worker.summary else NO_WORK)
  {
    if n > 0 {
      TotalUpdate(workers, n - 1, w, worker);
      if w < n - 1 {
        var a, b := Total(workers[w := worker], n - 1), Total(workers, n - 1);
        AddSwapped(a, b, workers[w].summary, worker.summary, workers[n - 1].summary);
      }
    }
  }

  lemma {:induction false} TotalIsMerged(workers: seq<Worker>, n: nat)
    requires n <= |workers| && forall i :: 0 <= i < n ==> !workers[i].status.Panicked?
    ensures Total(workers, n) == Merged(workers, n)
  {
    if n > 0 {
      TotalIsMerged(workers, n - 1);
    }
  }

  /** The cycles whose last acknowledgement is their target's final operation. */
  function CompletedCycles(t: Tally): set<nat> {
    set c | c in t.cycles && AckRank(t.cycles[c].lastAck) == LastStep(c)
  }

  /** What a record adds to the workers' counters. */
  function Delta(r: JournalRecord): WorkerSummary {
    if r.Header? then NO_WORK
    else if r.Allocate? then NO_WORK.(allocations := 1)
    else
      var counted := CountAck(NO_WORK, r.operation);
      if RevisionOf(r.operation) == LastStep(r.cycle) then counted.(completedTargets := 1) else counted
  }

  function CountsOf(t: Tally): WorkerSummary {
    WorkerSummary(|t.cycles|, t.insertAcks, t.updateAcks, t.deleteAcks, |CompletedCycles(t)|, 0, 0)
  }

  lemma CompletedAfter(t: Tally, r: JournalRecord)
    requires ReplayRecord(t, r).Success?
    requires forall c :: c in t.cycles ==> t.cycles[c].target == TargetForCycle(c)
    ensures |CompletedCycles(ReplayRecord(t, r).value)| == |CompletedCycles(t)| + Delta(r).completedTargets
  {
    var t' := ReplayRecord(t, r).value;
    var before, after := CompletedCycles(t), CompletedCycles(t');
    assert r.cycle !in before;
    forall c | c != r.cycle ensures c in after <==> c in before {
      StepKeepsOthers(t, r, c);
    }
    if Delta(r).completedTargets == 1 {
      assert after == before + {r.cycle};
    } else {
      assert after == before;
    }
  }

  lemma CountsAfter(t: Tally, r: JournalRecord)
    requires ReplayRecord(t, r).Success?
    requires forall c :: c in t.cycles ==> t.cycles[c].target == TargetForCycle(c)
    ensures CountsOf(ReplayRecord(t, r).value) == Add(CountsOf(t), Delta(r))
  {
    CompletedAfter(t, r);
    StepWeight(t, r);
  }

  ghost predicate Balanced(workers: seq<Worker>, t: Tally) {
    Work(Total(workers, |workers|)) == CountsOf(t)
  }

  ghost predicate Conserved(s: State) {
    Balanced(s.workers, TallyOf(s))
  }

  /** A worker's counters move exactly with the record its step appends. */
  lemma SummaryAfter(cfg: Config, s: State, step: Step)
    requires Enabled(cfg, s, step)
    ensures var w, w' := s.workers[step.worker].summary, NextWorker(s, step).summary;
            Work(w') == Work(Add(w, Contribution(Appended(s, step))))
  {
  }

  function Contribution(appended: seq<JournalRecord>): WorkerSummary {
    if appended == [] then NO_WORK else Delta(appended[0])
  }

  lemma TallyAfter(body: seq<JournalRecord>, r: JournalRecord, t: Tally, t': Tally)
    requires Replay(body) == Success(t) && Replay(body + [r]) == Success(t') && CyclesMatch(t, body)
    ensures CountsOf(t') == Add(CountsOf(t), Delta(r))
  {
    assert (body + [r])[..|body|] == body;
    assert ReplayRecord(t, r) == Success(t');
    forall c | c in t.cycles ensures t.cycles[c].target == TargetForCycle(c) {
      assert MatchesEvents(t, body, c);
    }
    CountsAfter(t, r);
  }

  lemma AddNothing(a: WorkerSummary)
    ensures Add(a, NO_WORK) == a
  {
  }

  /** The parsed counts move exactly with the records appended. */
  lemma CountsAfterAppend(body: seq<JournalRecord>, appended: seq<JournalRecord>, t: Tally, t': Tally)
    requires Replay(body) == Success(t) && Replay(body + appended) == Success(t') && CyclesMatch(t, body)
    requires |appended| <= 1
    ensures CountsOf(t') == Add(CountsOf(t), Contribution(appended))
  {
    if appended == [] {
      assert body + appended == body;
      assert t' == t;
      AddNothing(CountsOf(t));
    } else {
      assert appended == [appended[0]];
      TallyAfter(body, appended[0], t, t');
    }
  }

  /** Summaries without the failure counters. */
  function Work(a: WorkerSummary): WorkerSummary {
    a.(rpcFailures := 0, journalFailures := 0)
  }

  lemma Balance(total': WorkerSummary, total: WorkerSummary, old': WorkerSummary, new': WorkerSummary,
                delta: WorkerSummary, counts: WorkerSummary)
    requires Add(total', old') == Add(total, new')
    requires Work(new') == Work(Add(old', delta))
    requires Work(total) == counts
    ensures Work(total') == Work(Add(counts, delta))
  {
  }

  /** Replacing one worker moves the total by what that worker gained. */
  lemma BalancedAfter(workers: seq<Worker>, w: nat, worker: Worker, delta: WorkerSummary, t: Tally, t': Tally)
    requires w < |workers| && Balanced(workers, t)
    requires Work(worker.summary) == Work(Add(workers[w].summary, delta)) && Work(delta) == delta
    requires CountsOf(t') == Add(CountsOf(t), delta)
    ensures Balanced(workers[w := worker], t')
  {
    var n := |workers|;
    TotalUpdate(workers, n, w, worker);
    Balance(Total(workers[w := worker], n), Total(workers, n), workers[w].summary, worker.summary, delta, CountsOf(t));
    WorkOfCounts(CountsOf(t), delta);
  }

  lemma TalliesAfter(cfg: Config, s: State, step: Step)
    requires Inv(cfg, s) && Enabled(cfg, s, step)
    ensures CountsOf(TallyOf(Next(cfg, s, step))) == Add(CountsOf(TallyOf(s)), Contribution(Appended(s, step)))
  {
    var s' := Next(cfg, s, step);
    JournalAccepted(cfg, s, false);
    InvKept(cfg, s, step);
    JournalAccepted(cfg, s', false);
    CountsAfterAppend(s.body, Appended(s, step), TallyOf(s), TallyOf(s'));
  }

  lemma ConservedKept(cfg: Config, s: State, step: Step)
    requires Enabled(cfg, s, step) && Conserved(s)
    requires CountsOf(TallyOf(Next(cfg, s, step))) == Add(CountsOf(TallyOf(s)), Contribution(Appended(s, step)))
    ensures Conserved(Next(cfg, s, step))
  {
    var delta := Contribution(Appended(s, step));
    SummaryAfter(cfg, s, step);
    BalancedAfter(s.workers, step.worker, NextWorker(s, step), delta, TallyOf(s), TallyOf(Next(cfg, s, step)));
  }

  lemma WorkOfCounts(counts: WorkerSummary, delta: WorkerSummary)
    requires Work(counts) == counts && Work(delta) == delta
    ensures Work(Add(counts, delta)) == Add(counts, delta)
  {
  }

  lemma {:induction false} RunConserves(cfg: Config, steps: seq<Step>)
    requires Run(cfg, steps).Some?
    ensures Conserved(Run(cfg, steps).value)
  {
    if steps == [] {
      NothingCounted(Init(cfg).workers, cfg.workers);
    } else {
      var front := steps[..|steps| - 1];
      RunConserves(cfg, front);
      RunInv(cfg, front);
      TalliesAfter(cfg, Run(cfg, front).value, steps[|steps| - 1]);
      ConservedKept(cfg, Run(cfg, front).value, steps[|steps| - 1]);
    }
  }

  lemma {:induction false} NothingCounted(workers: seq<Worker>, n: nat)
    requires n <= |workers| && forall i :: 0 <= i < |workers| ==> workers[i].summary == NO_WORK
    ensures Total(workers, n) == NO_WORK
  {
    if n > 0 {
      NothingCounted(workers, n - 1);
    }
  }

  /**
   Conservation.  In every run without a panic, at every moment, the merged
   worker counters equal what the parser counts in the journal.
   */
  lemma CountersMatchJournal(cfg: Config, steps: seq<Step>)
    requires Run(cfg, steps).Some?
    requires forall i :: 0 <= i < |Run(cfg, steps).value.workers| ==>
               !Run(cfg, steps).value.workers[i].status.Panicked?
    ensures var s := Run(cfg, steps).value;
            var merged, t := Merged(s.workers, |s.workers|), TallyOf(s);
            && merged.allocations == |t.cycles|
            && merged.insertAcks == t.insertAcks
            && merged.updateAcks == t.updateAcks
            && merged.deleteAcks == t.deleteAcks
            && merged.completedTargets == |CompletedCycles(t)|
            && |Journal(cfg, s)| == 1 + merged.allocations + merged.insertAcks + merged.updateAcks + merged.deleteAcks
  {
    var s := Run(cfg, steps).value;
    RunConserves(cfg, steps);
    TotalIsMerged(s.workers, |s.workers|);
    RunInv(cfg, steps);
    JournalAccepted(cfg, s, false);
  }

  // ----- What a complete run acknowledges -----

  /** The cycles below `n` that go at least `rank` operations far. */
  function ReachingBelow(n: nat, rank: nat): (cycles: set<nat>)
    ensures forall c: nat :: c in cycles <==> c < n && LastStep(c) >= rank
  {
    if n == 0 then {}
    else if LastStep(n - 1) >= rank then ReachingBelow(n - 1, rank) + {n - 1}
    else ReachingBelow(n - 1, rank)
  }

  /** How many cycles below `n` go that far. */
  function HowMany(n: nat, rank: nat): nat {
    if n == 0 then 0 else HowMany(n - 1, rank) + if LastStep(n - 1) >= rank then 1 else 0
  }

  lemma {:induction false} ReachingSize(n: nat, rank: nat)
    ensures |ReachingBelow(n, rank)| == HowMany(n, rank)
  {
    if n > 0 {
      ReachingSize(n - 1, rank);
    }
  }

  lemma StepsInTurn(c: nat)
    ensures LastStep(c) == 1 + c % 3
  {
  }

  /** All cycles are inserted, two in three updated and one in three deleted. */
  lemma {:induction false} HowManyIs(n: nat)
    ensures HowMany(n, 1) == n && HowMany(n, 2) == n - (n + 2) / 3 && HowMany(n, 3) == n / 3
  {
    if n > 0 {
      HowManyIs(n - 1);
      StepsInTurn(n - 1);
    }
  }

  /**
   A journal whose cycles are the first `n`, all complete: every cycle was
   inserted, two in three updated and one in three deleted, starting with one
   that is only inserted.
   */
  lemma CompleteRunAcks(records: seq<JournalRecord>, n: nat)
    requires Replay(records).Success?
    requires var t := Replay(records).value;
             (forall c: nat :: c in t.cycles <==> c < n) && CompletedCycles(t) == t.cycles.Keys
    ensures var t := Replay(records).value;
            t.insertAcks == n && t.updateAcks == n - (n + 2) / 3 && t.deleteAcks == n / 3
  {
    var t := Replay(records).value;
    ReplayExact(records);
    HowManyIs(n);
    ReachingSize(n, 1);
    ReachingSize(n, 2);
    ReachingSize(n, 3);
    forall rank: nat | 1 <= rank <= 3 ensures AckedCycles(t, rank) == ReachingBelow(n, rank) {
      forall c: nat ensures c in AckedCycles(t, rank) <==> c in ReachingBelow(n, rank) {
        if c in t.cycles {
          assert c in CompletedCycles(t);
        }
      }
    }
    assert AckedCycles(t, 1) == ReachingBelow(n, 1);
    assert AckedCycles(t, 2) == ReachingBelow(n, 2);
    assert AckedCycles(t, 3) == ReachingBelow(n, 3);
  }

  // ----- Counters never overflow -----

  function Range(lo: nat, hi: nat): (range: set<nat>)
    requires lo <= hi
    ensures |range| == hi - lo && forall c :: c in range <==> lo <= c < hi
  {
    if lo == hi then {} else Range(lo, hi - 1) + {hi - 1}
  }

  lemma OverrunsAreHeld(cfg: Config, s: State)
    requires Inv(cfg, s) && s.nextCycle > cfg.maxCycles
    ensures s.nextCycle - cfg.maxCycles <= cfg.workers
  {
    var over, indices := Range(cfg.maxCycles, s.nextCycle), Range(0, cfg.workers);
    forall c | c in over ensures Held(s, c) {
      assert CycleInv(cfg, s, c);
    }
    var holder := map c | c in over :: Holder(s, c);
    forall c, d | c in over && d in over && holder[c] == holder[d] ensures c == d {
      HoldersDiffer(cfg, s, c, d);
    }
    Counting.InjectionSize(over, indices, holder);
  }

  /**
   The shared cycle counter stays within one claim per worker of the limit, and
   the journal within four records per cycle: neither 64-bit counter can wrap.
   */
  lemma CountersBounded(cfg: Config, steps: seq<Step>)
    requires Run(cfg, steps).Some?
    ensures var s := Run(cfg, steps).value;
            s.nextCycle <= cfg.maxCycles + cfg.workers && |Journal(cfg, s)| <= 1 + 4 * cfg.maxCycles
  {
    var s := Run(cfg, steps).value;
    RunInv(cfg, steps);
    JournalAccepted(cfg, s, false);
    AckCountsOrdered(s.body);
    forall c | c in TallyOf(s).cycles ensures c < cfg.maxCycles {
      WritesFollowAcks(cfg, s, c);
    }
    Counting.BoundedSize(TallyOf(s).cycles.Keys, cfg.maxCycles);
    if s.nextCycle > cfg.maxCycles {
      OverrunsAreHeld(cfg, s);
    }
  }
}
