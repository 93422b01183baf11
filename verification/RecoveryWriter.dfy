/**
 The journal writer inside the protocol: performing the appends of a run on a
 real writer leaves exactly the journal the protocol speaks of, and no append
 is ever refused.
 */
module RecoveryWriter {
  import opened Wrappers
  import opened RecoveryJournal
  import opened RecoveryProtocol
  import opened RecoverySafety
  import opened RecoveryCounters
  import JF = JournalFile

  const MAX_CYCLES: nat := 1_000_000

  predicate IsAppend(action: Action) {
    action.AppendAllocation? || action.AppendAck?
  }

  /** The writer holds the journal of the state. */
  ghost predicate Holds(writer: JF.JournalWriter, cfg: Config, s: State)
    reads writer
  {
    writer.Valid() && writer.records == Journal(cfg, s)
  }

  /** No journal of a run comes near the last sequence number. */
  lemma RoomLeft(cfg: Config, steps: seq<Step>)
    requires cfg.maxCycles <= MAX_CYCLES && Run(cfg, steps).Some?
    ensures |Journal(cfg, Run(cfg, steps).value)| < JF.U64_MAX
  {
    CountersBounded(cfg, steps);
  }

  /** What a step appends is exactly what the journal grows by. */
  lemma JournalAfter(cfg: Config, s: State, step: Step)
    requires Enabled(cfg, s, step)
    ensures Journal(cfg, Next(cfg, s, step)) == Journal(cfg, s) + Appended(s, step)
  {
  }

  /**
   One append step of any run, on the writer: it is accepted, never found out of
   sequence and never out of numbers, and the writer then holds the journal of
   the next state.
   */
  method PerformAppend(writer: JF.JournalWriter, cfg: Config, ghost steps: seq<Step>, s: State, step: Step)
    returns (outcome: JF.AppendOutcome)
    requires cfg.maxCycles <= MAX_CYCLES && Run(cfg, steps) == Some(s)
    requires Enabled(cfg, s, step) && IsAppend(step.action) && Holds(writer, cfg, s)
    modifies writer
    ensures outcome == JF.Appended && Holds(writer, cfg, Next(cfg, s, step))
  {
    RoomLeft(cfg, steps);
    JournalAfter(cfg, s, step);
    var pc := s.workers[step.worker].pc;
    if step.action.AppendAllocation? {
      outcome := writer.RecordAllocation(pc.cycle, TargetForCycle(pc.cycle));
    } else {
      outcome := writer.RecordAck(pc.cycle, pc.operation, RevisionOf(pc.operation), step.action.now);
    }
  }

  lemma {:induction false} PrefixRuns(cfg: Config, steps: seq<Step>, k: nat)
    requires k <= |steps| && Run(cfg, steps).Some?
    ensures Run(cfg, steps[..k]).Some?
    decreases |steps|
  {
    if k == |steps| {
      assert steps[..k] == steps;
    } else {
      var front := steps[..|steps| - 1];
      assert front[..k] == steps[..k];
      PrefixRuns(cfg, front, k);
    }
  }

  lemma NextOfRun(cfg: Config, steps: seq<Step>, k: nat)
    requires k < |steps| && Run(cfg, steps).Some?
    ensures Run(cfg, steps[..k]).Some? && Enabled(cfg, Run(cfg, steps[..k]).value, steps[k])
    ensures Run(cfg, steps[..k + 1]) == Some(Next(cfg, Run(cfg, steps[..k]).value, steps[k]))
  {
    PrefixRuns(cfg, steps, k);
    PrefixRuns(cfg, steps, k + 1);
    assert steps[..k + 1][..k] == steps[..k];
  }

  /**
   A whole run on one writer.  The bytes it leaves are the encoded journal of
   the final state, no append was refused, and they parse to what the run
   durably recorded.
   */
  method WriteRun(cfg: Config, steps: seq<Step>, codec: JF.RecordCodec) returns (file: seq<Byte>, refused: nat)
    requires cfg.maxCycles <= MAX_CYCLES && Run(cfg, steps).Some?
    ensures refused == 0
    ensures file == DiskBytes(cfg, Run(cfg, steps).value, codec, [])
    ensures JF.Faithful(codec) ==>
      var s := Run(cfg, steps).value;
      JF.ParseBytes(codec, file) == Success(JF.JournalSnapshot(cfg.header, TallyOf(s), |Journal(cfg, s)|, false))
  {
    var writer := new JF.JournalWriter.Create(codec, cfg.header, cfg.startedAt);
    var s := Init(cfg);
    refused := 0;
    assert steps[..0] == [];
    for k := 0 to |steps|
      invariant fresh(writer) && writer.codec == codec
      invariant Run(cfg, steps[..k]) == Some(s) && Holds(writer, cfg, s) && refused == 0
    {
      NextOfRun(cfg, steps, k);
      if IsAppend(steps[k].action) {
        var outcome := PerformAppend(writer, cfg, steps[..k], s, steps[k]);
        refused := refused + if outcome == JF.Appended then 0 else 1;
      } else {
        JournalAfter(cfg, s, steps[k]);
      }
      s := Next(cfg, s, steps[k]);
    }
    assert steps[..|steps|] == steps;
    file := writer.file;
    assert file == DiskBytes(cfg, s, codec, []);
    RunInv(cfg, steps);
    if JF.Faithful(codec) {
      DiskParses(cfg, s, codec, []);
    }
  }
}
