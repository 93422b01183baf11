/**
 What every run of the mutation protocol guarantees about the journal on disk
 and the server behind it: the journal parses wherever it was torn, and every
 surviving record is one the verifier accepts, exactly when no earlier record
 sits under an identifier of the run.
 */
module RecoverySafety {
  import opened Wrappers
  import opened RecoveryJournal
  import opened RecoveryProtocol
  import opened RecoveryVerifier
  import JF = JournalFile

  /** The server's answer to a Get: the metadata and vector the writer sent, whichever run it belonged to. */
  function AnswerFrom(header: JournalHeader, stored: Option<Stored>): GetResponse {
    match stored
    case None => NotFound
    case Some(Probe(runId, owner, revision)) =>
      Found(Metadata(true, runId, owner, revision), ProbeVector(header.dimensions, owner, revision))
    case Some(Foreign(_)) => Found(Unreadable, [])
  }

  function Answer(cfg: Config, s: State, cycle: nat): GetResponse {
    AnswerFrom(cfg.header, Lookup(s.server, IdOf(cfg, cycle)))
  }

  function Answers(cfg: Config, s: State): nat -> GetResponse {
    (cycle: nat) => Answer(cfg, s, cycle)
  }

  function TallyOf(s: State): Tally {
    var replayed := Replay(s.body);
    if replayed.Success? then replayed.value else EMPTY_TALLY
  }

  function WriteCount(s: State, cycle: nat): nat {
    |WritesOf(s.applied, cycle)|
  }

  // ----- The journal parses -----

  lemma BodyFollowsScripts(cfg: Config, s: State)
    requires Inv(cfg, s)
    ensures FollowsScripts(s.body)
  {
    forall c ensures OnScript(EventsOf(s.body, c), c) {
      assert CycleInv(cfg, s, c);
    }
  }

  /** The records of any reachable journal are accepted, and parse to the tally of its body. */
  lemma JournalAccepted(cfg: Config, s: State, partialTail: bool)
    requires Inv(cfg, s)
    ensures Replay(s.body) == Success(TallyOf(s)) && Summarises(TallyOf(s), s.body)
    ensures JF.ParseRecords(Journal(cfg, s), partialTail) ==
            Success(JF.JournalSnapshot(cfg.header, TallyOf(s), 1 + |s.body|, partialTail))
  {
    BodyFollowsScripts(cfg, s);
    ReplayExact(s.body);
    var records := Journal(cfg, s);
    assert records[1..] == s.body;
    forall i | 0 <= i < |records| ensures records[i].sequence == i {
      if i > 0 {
        assert records[i] == s.body[i - 1];
      }
    }
  }

  /** The file on disk while a worker is part-way through an append. */
  function DiskBytes(cfg: Config, s: State, codec: JF.RecordCodec, torn: seq<Byte>): seq<Byte> {
    JF.EncodeAll(codec, Journal(cfg, s)) + torn
  }

  lemma DiskParses(cfg: Config, s: State, codec: JF.RecordCodec, torn: seq<Byte>)
    requires Inv(cfg, s) && JF.Faithful(codec) && JF.NEWLINE !in torn
    ensures JF.ParseBytes(codec, DiskBytes(cfg, s, codec, torn)) ==
            Success(JF.JournalSnapshot(cfg.header, TallyOf(s), 1 + |s.body|, torn != []))
  {
    JF.WrittenReadsBack(codec, Journal(cfg, s));
    JournalAccepted(cfg, s, false);
    var bytes := JF.EncodeAll(codec, Journal(cfg, s));
    if torn == [] {
      assert bytes + torn == bytes;
    } else {
      JF.PartialTailIgnored(codec, bytes, torn);
    }
  }

  // ----- The server is explainable -----

  /** The server made as many writes as were acknowledged, or one more. */
  predicate OneStepAhead(state: CycleState, writes: nat) {
    && AckRank(state.lastAck) <= writes <= AckRank(state.lastAck) + 1
    && writes <= Steps(state.target)
  }

  lemma WritesFollowAcks(cfg: Config, s: State, c: nat)
    requires Inv(cfg, s) && c in TallyOf(s).cycles
    ensures c < cfg.maxCycles && EventsOf(s.body, c) != []
    ensures OneStepAhead(TallyOf(s).cycles[c], WriteCount(s, c))
  {
    JournalAccepted(cfg, s, false);
    assert CycleInv(cfg, s, c);
    assert MatchesEvents(TallyOf(s), s.body, c);
  }

  /** Nothing foreign is stored under the cycle's identifier. */
  predicate Clean(cfg: Config, s: State, c: nat) {
    WriteCount(s, c) > 0 || IdOf(cfg, c) !in cfg.baseline
  }

  lemma CleanStored(cfg: Config, s: State, c: nat)
    requires Inv(cfg, s)
    ensures Lookup(s.server, IdOf(cfg, c)) ==
            if Clean(cfg, s, c) then StoredAt(cfg.header.runId, c, WriteCount(s, c))
            else Lookup(cfg.baseline, IdOf(cfg, c))
  {
    assert CycleInv(cfg, s, c);
  }

  /** A record left by `writes` operations passes, and is flagged exactly when one step ahead. */
  lemma OwnRecordPasses(header: JournalHeader, c: nat, state: CycleState, writes: nat)
    requires OneStepAhead(state, writes)
    ensures var response := AnswerFrom(header, StoredAt(header.runId, c, writes));
            && Explained(header, c, state, response)
            && (Advanced(header, c, state, response) <==> writes == AckRank(state.lastAck) + 1)
  {
    var response := AnswerFrom(header, StoredAt(header.runId, c, writes));
    if response.Found? {
      SelfMatch(ProbeVector(header.dimensions, c, writes));
      assert OwnFields(header, c, response.metadata, writes);
    }
    assert ActualRevision(header, c, response) == ObservedAt(writes);
    assert ExplainedBy(state, ObservedAt(writes), writes);
    AcceptanceExact(state, ObservedAt(writes));
  }

  lemma SelfMatch(v: seq<real>)
    ensures VectorMatches(v, v)
  {
  }

  /**
   The baseline record under the cycle's identifier looks like the first insert
   of this very cycle by this very run.
   */
  predicate LooksOwn(cfg: Config, c: nat) {
    Lookup(cfg.baseline, IdOf(cfg, c)) == Some(Probe(cfg.header.runId, c, 1))
  }

  ghost predicate SafeAt(cfg: Config, s: State) {
    forall c :: c in TallyOf(s).cycles ==> Explained(cfg.header, c, TallyOf(s).cycles[c], Answer(cfg, s, c))
  }

  lemma CleanPasses(cfg: Config, s: State, c: nat)
    requires Inv(cfg, s) && c in TallyOf(s).cycles && Clean(cfg, s, c)
    ensures var state := TallyOf(s).cycles[c];
            && Explained(cfg.header, c, state, Answer(cfg, s, c))
            && (Advanced(cfg.header, c, state, Answer(cfg, s, c)) <==>
                  WriteCount(s, c) == AckRank(state.lastAck) + 1)
  {
    WritesFollowAcks(cfg, s, c);
    CleanStored(cfg, s, c);
    OwnRecordPasses(cfg.header, c, TallyOf(s).cycles[c], WriteCount(s, c));
  }

  /** A baseline record under an unwritten cycle passes exactly when it looks like the run's own first insert. */
  lemma BaselinePasses(cfg: Config, s: State, c: nat)
    requires Inv(cfg, s) && c in TallyOf(s).cycles && !Clean(cfg, s, c)
    ensures Explained(cfg.header, c, TallyOf(s).cycles[c], Answer(cfg, s, c)) <==> LooksOwn(cfg, c)
  {
    WritesFollowAcks(cfg, s, c);
    CleanStored(cfg, s, c);
    var state, stored := TallyOf(s).cycles[c], cfg.baseline[IdOf(cfg, c)];
    assert Answer(cfg, s, c) == AnswerFrom(cfg.header, Some(stored));
    if LooksOwn(cfg, c) {
      SelfMatch(ProbeVector(cfg.header.dimensions, c, 1));
      assert OwnFields(cfg.header, c, Answer(cfg, s, c).metadata, 1);
      assert ExplainedBy(state, Some(1), 1);
    }
    if Explained(cfg.header, c, state, Answer(cfg, s, c)) {
      var revision, p :| OwnFields(cfg.header, c, Answer(cfg, s, c).metadata, revision)
        && ExplainedBy(state, Some(revision), p);
      assert p == 1;
    }
  }

  /**
   A state is safe exactly when every allocated cycle that was not written yet
   shows no earlier record, or one that looks like its own first insert.  The
   baseline may hold anything, probe records of other runs included.
   */
  lemma SafeExactly(cfg: Config, s: State)
    requires Inv(cfg, s)
    ensures SafeAt(cfg, s) <==> forall c :: c in TallyOf(s).cycles ==> Clean(cfg, s, c) || LooksOwn(cfg, c)
  {
    forall c | c in TallyOf(s).cycles
      ensures Explained(cfg.header, c, TallyOf(s).cycles[c], Answer(cfg, s, c)) <==>
        Clean(cfg, s, c) || LooksOwn(cfg, c)
    {
      if Clean(cfg, s, c) {
        CleanPasses(cfg, s, c);
      } else {
        BaselinePasses(cfg, s, c);
      }
    }
  }

  lemma FreshIsClean(cfg: Config, s: State, c: nat)
    requires FreshPrefix(cfg) && Inv(cfg, s) && c in TallyOf(s).cycles
    ensures Clean(cfg, s, c)
  {
    WritesFollowAcks(cfg, s, c);
  }

  /**
   Safety over every run.  Whatever the interleaving, lost responses and late
   writes, and wherever an append was torn, the journal parses to what was
   durably recorded, and the verifier passes every cycle in it.
   */
  lemma SafetyOverEveryRun(cfg: Config, steps: seq<Step>, codec: JF.RecordCodec, torn: seq<Byte>)
    requires FreshPrefix(cfg) && Run(cfg, steps).Some? && JF.Faithful(codec) && JF.NEWLINE !in torn
    ensures var s := Run(cfg, steps).value;
            var parsed := JF.ParseBytes(codec, DiskBytes(cfg, s, codec, torn));
            && parsed.Success?
            && parsed.value.header == cfg.header
            && parsed.value.completeRecords == |Journal(cfg, s)|
            && (parsed.value.ignoredPartialTail <==> torn != [])
            && CyclesMatch(parsed.value.tally, s.body)
            && forall c :: c in parsed.value.tally.cycles ==>
                 Explained(cfg.header, c, parsed.value.tally.cycles[c], Answer(cfg, s, c))
  {
    var s := Run(cfg, steps).value;
    RunInv(cfg, steps);
    DiskParses(cfg, s, codec, torn);
    JournalAccepted(cfg, s, false);
    forall c | c in TallyOf(s).cycles
      ensures Explained(cfg.header, c, TallyOf(s).cycles[c], Answer(cfg, s, c))
    {
      FreshIsClean(cfg, s, c);
      CleanPasses(cfg, s, c);
    }
  }

  // ----- The fresh prefix is necessary -----

  /** Worker 0 is at its loop head, nothing has failed, and cycles from `next` on are untouched. */
  ghost predicate Poised(cfg: Config, s: State, next: nat) {
    && Reachable(cfg, s) && !s.stop && s.nextCycle == next
    && |s.workers| > 0 && s.workers[0].pc.LoopHead? && s.workers[0].status.Running?
  }

  lemma ReachNext(cfg: Config, s: State, step: Step)
    requires Reachable(cfg, s) && Enabled(cfg, s, step)
    ensures Reachable(cfg, Next(cfg, s, step))
  {
    var steps :| Run(cfg, steps) == Some(s);
    RunAfter(cfg, steps, s, step);
  }

  lemma RunAfter(cfg: Config, steps: seq<Step>, s: State, step: Step)
    requires Run(cfg, steps) == Some(s) && Enabled(cfg, s, step)
    ensures Run(cfg, steps + [step]) == Some(Next(cfg, s, step))
  {
    assert (steps + [step])[..|steps|] == steps;
  }

  lemma ReachableInv(cfg: Config, s: State)
    requires Reachable(cfg, s)
    ensures Inv(cfg, s)
  {
    var steps :| Run(cfg, steps) == Some(s);
    RunInv(cfg, steps);
  }

  /** Worker 0 is inside a call on `cycle` that has not been applied. */
  ghost predicate InCall(cfg: Config, s: State, cycle: nat, operation: Operation) {
    && Reachable(cfg, s) && !s.stop && s.nextCycle == cycle + 1
    && |s.workers| > 0 && s.workers[0].pc == Calling(cycle, operation, false) && s.workers[0].status.Running?
  }

  /** From the loop head worker 0 can claim and allocate the next cycle. */
  lemma CanAllocate(cfg: Config, s: State, c: nat) returns (s': State)
    requires Poised(cfg, s, c) && c < cfg.maxCycles
    ensures InCall(cfg, s', c, Insert)
  {
    var s1 := Next(cfg, s, Step(0, EnterLoop));
    ReachNext(cfg, s, Step(0, EnterLoop));
    var s2 := Next(cfg, s1, Step(0, Claim));
    ReachNext(cfg, s1, Step(0, Claim));
    var s3 := Next(cfg, s2, Step(0, Commit));
    ReachNext(cfg, s2, Step(0, Commit));
    s' := Next(cfg, s3, Step(0, AppendAllocation));
    ReachNext(cfg, s3, Step(0, AppendAllocation));
  }

  /** A call can be applied, answered and acknowledged without interference. */
  lemma CanFinishCall(cfg: Config, s: State, c: nat, operation: Operation) returns (s': State)
    requires InCall(cfg, s, c, operation)
    ensures if RevisionOf(operation) == LastStep(c) then Poised(cfg, s', c + 1)
            else InCall(cfg, s', c, NextOperation(operation))
  {
    var s1 := Next(cfg, s, Step(0, ServerApplies));
    ReachNext(cfg, s, Step(0, ServerApplies));
    var s2 := Next(cfg, s1, Step(0, CallSucceeds));
    ReachNext(cfg, s1, Step(0, CallSucceeds));
    s' := Next(cfg, s2, Step(0, AppendAck(0)));
    ReachNext(cfg, s2, Step(0, AppendAck(0)));
  }

  lemma CanFinishCycle(cfg: Config, s: State, c: nat) returns (s': State)
    requires InCall(cfg, s, c, Insert)
    ensures Poised(cfg, s', c + 1)
  {
    s' := CanFinishCall(cfg, s, c, Insert);
    if LastStep(c) > 1 {
      s' := CanFinishCall(cfg, s', c, Update);
    }
    if LastStep(c) > 2 {
      s' := CanFinishCall(cfg, s', c, Delete);
    }
  }

  lemma {:induction false} CanReachCycle(cfg: Config, c: nat) returns (s: State)
    requires cfg.workers > 0 && c <= cfg.maxCycles
    ensures Poised(cfg, s, c)
  {
    if c == 0 {
      s := Init(cfg);
      assert Run(cfg, []) == Some(s);
    } else {
      s := CanReachCycle(cfg, c - 1);
      s := CanAllocate(cfg, s, c - 1);
      s := CanFinishCycle(cfg, s, c - 1);
    }
  }

  lemma InsertCallUnwritten(cfg: Config, s: State, c: nat)
    requires Inv(cfg, s) && |s.workers| > 0 && s.workers[0].pc == Calling(c, Insert, false)
    ensures c in TallyOf(s).cycles && WriteCount(s, c) == 0
  {
    JournalAccepted(cfg, s, false);
    assert HeldCycle(s.workers[0].pc) == Some(c);
    assert PcFits(cfg, s.workers[0].pc, ViewOf(cfg, s, c));
    assert MatchesEvents(TallyOf(s), s.body, c);
  }

  /** No identifier the run may write is taken, except by a record that looks like its own first insert. */
  ghost predicate HarmlessBaseline(cfg: Config) {
    forall c: nat :: c < cfg.maxCycles ==> IdOf(cfg, c) !in cfg.baseline || LooksOwn(cfg, c)
  }

  /** All runs are safe if and only if the baseline is harmless, whatever it holds. */
  lemma SafetyExactly(cfg: Config)
    requires cfg.workers > 0
    ensures (forall s :: Reachable(cfg, s) ==> SafeAt(cfg, s)) <==> HarmlessBaseline(cfg)
  {
    if HarmlessBaseline(cfg) {
      forall s | Reachable(cfg, s) ensures SafeAt(cfg, s) {
        ReachableInv(cfg, s);
        forall c | c in TallyOf(s).cycles ensures Clean(cfg, s, c) || LooksOwn(cfg, c) {
          WritesFollowAcks(cfg, s, c);
        }
        SafeExactly(cfg, s);
      }
    } else {
      var c: nat :| c < cfg.maxCycles && IdOf(cfg, c) in cfg.baseline && !LooksOwn(cfg, c);
      var poised := CanReachCycle(cfg, c);
      var s := CanAllocate(cfg, poised, c);
      ReachableInv(cfg, s);
      InsertCallUnwritten(cfg, s, c);
      SafeExactly(cfg, s);
      assert !Clean(cfg, s, c);
    }
  }

  /** No record of the baseline carries this run's identity; records of other runs may be there. */
  ghost predicate OthersOnly(cfg: Config) {
    forall id :: id in cfg.baseline && cfg.baseline[id].Probe? ==> cfg.baseline[id].runId != cfg.header.runId
  }

  /** Over a baseline without records of this run, all runs are safe exactly when no identifier of it is taken. */
  lemma SafetyIffFreshPrefix(cfg: Config)
    requires cfg.workers > 0 && OthersOnly(cfg)
    ensures (forall s :: Reachable(cfg, s) ==> SafeAt(cfg, s)) <==> FreshPrefix(cfg)
  {
    SafetyExactly(cfg);
  }
}
