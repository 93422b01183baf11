/**
 What the stop flag achieves (crates/benchmark/src/recovery.rs): a failed call
 sets it, and from then on no worker takes up a new cycle except those that are
 past the check already.
 */
module RecoveryStop {
  import opened Wrappers
  import opened RecoveryJournal
  import opened RecoveryProtocol

  ghost predicate SomeCallFailed(steps: seq<Step>) {
    exists i :: 0 <= i < |steps| && steps[i].action.CallFails?
  }

  lemma FailedAfter(steps: seq<Step>, step: Step)
    ensures SomeCallFailed(steps + [step]) <==> SomeCallFailed(steps) || step.action.CallFails?
  {
    var longer := steps + [step];
    assert longer[|steps|] == step;
    if i :| 0 <= i < |steps| && steps[i].action.CallFails? {
      assert longer[i] == steps[i];
    }
  }

  /** The stop flag is set exactly by a failed call. */
  lemma {:induction false} StopExactly(cfg: Config, steps: seq<Step>)
    requires Run(cfg, steps).Some?
    ensures Run(cfg, steps).value.stop <==> SomeCallFailed(steps)
  {
    if steps != [] {
      var front := steps[..|steps| - 1];
      StopExactly(cfg, front);
      FailedAfter(front, steps[|steps| - 1]);
      assert steps == front + [steps[|steps| - 1]];
    }
  }

  /** Running workers past the loop's check of the flag that have not claimed a cycle yet. */
  ghost function Claimers(workers: seq<Worker>): set<nat> {
    set i: nat | i < |workers| && workers[i].status.Running? && workers[i].pc.Claiming?
  }

  /** Running workers past the second check of the flag that have not recorded their cycle yet. */
  ghost function Starters(workers: seq<Worker>): set<nat> {
    set i: nat | i < |workers| && workers[i].status.Running? && workers[i].pc.Allocating?
  }

  /** How many cycles were taken up, by the journal. */
  function Allocations(body: seq<JournalRecord>): nat {
    if body == [] then 0
    else Allocations(body[..|body| - 1]) + if body[|body| - 1].Allocate? then 1 else 0
  }

  lemma AllocationsAfter(body: seq<JournalRecord>, more: seq<JournalRecord>)
    requires |more| <= 1
    ensures Allocations(body + more) == Allocations(body) + if more != [] && more[0].Allocate? then 1 else 0
  {
    if more == [] {
      assert body + more == body;
    } else {
      assert (body + more)[..|body|] == body;
    }
  }

  /** One worker changed: it alone can join or leave either group. */
  lemma GroupsAfter(workers: seq<Worker>, i: nat, w: Worker)
    requires i < |workers|
    ensures Claimers(workers[i := w]) ==
      if w.status.Running? && w.pc.Claiming? then Claimers(workers) + {i} else Claimers(workers) - {i}
    ensures Starters(workers[i := w]) ==
      if w.status.Running? && w.pc.Allocating? then Starters(workers) + {i} else Starters(workers) - {i}
  {
  }

  /** Once stopped, the claims made and those still to come do not grow. */
  lemma NoNewClaims(cfg: Config, s: State, step: Step)
    requires Enabled(cfg, s, step) && s.stop
    ensures var t := Next(cfg, s, step);
            t.nextCycle + |Claimers(t.workers)| <= s.nextCycle + |Claimers(s.workers)|
  {
    GroupsAfter(s.workers, step.worker, NextWorker(s, step));
  }

  /** Nor do the cycles recorded and those still to be recorded. */
  lemma NoNewCycles(cfg: Config, s: State, step: Step)
    requires Enabled(cfg, s, step) && s.stop
    ensures var t := Next(cfg, s, step);
            Allocations(t.body) + |Starters(t.workers)| <= Allocations(s.body) + |Starters(s.workers)|
  {
    GroupsAfter(s.workers, step.worker, NextWorker(s, step));
    AllocationsAfter(s.body, Appended(s, step));
  }

  /**
   From the moment a call has failed, every run claims at most one more cycle
   for each worker past the loop's check, and takes up at most one more for each
   worker past the second.
   */
  lemma {:induction false} AfterStop(cfg: Config, steps: seq<Step>, k: nat)
    requires k <= |steps| && Run(cfg, steps).Some?
    ensures Run(cfg, steps[..k]).Some?
    ensures var s, t := Run(cfg, steps[..k]).value, Run(cfg, steps).value;
            s.stop ==>
              && t.stop
              && t.nextCycle + |Claimers(t.workers)| <= s.nextCycle + |Claimers(s.workers)|
              && Allocations(t.body) + |Starters(t.workers)| <= Allocations(s.body) + |Starters(s.workers)|
  {
    if k == |steps| {
      assert steps[..k] == steps;
    } else {
      var front := steps[..|steps| - 1];
      assert front[..k] == steps[..k];
      AfterStop(cfg, front, k);
      if Run(cfg, front).value.stop {
        NoNewClaims(cfg, Run(cfg, front).value, steps[|steps| - 1]);
        NoNewCycles(cfg, Run(cfg, front).value, steps[|steps| - 1]);
      }
    }
  }
}
