/**
 The verifier from end to end: parse the journal, check every cycle, delete the
 probe records.  After any run the deletion leaves exactly the records that
 were there before it.
 */
module RecoveryQualification {
  import opened Wrappers
  import opened RecoveryJournal
  import opened RecoveryProtocol
  import opened RecoveryVerifier
  import opened RecoverySafety
  import opened RecoveryCounters
  import JF = JournalFile

  // ----- No orphans -----

  lemma {:induction false} JournalGrows(cfg: Config, steps: seq<Step>, k: nat)
    requires k <= |steps| && Run(cfg, steps).Some?
    ensures Run(cfg, steps[..k]).Some?
    ensures Run(cfg, steps[..k]).value.body <= Run(cfg, steps).value.body
    decreases |steps|
  {
    if k == |steps| {
      assert steps[..k] == steps;
    } else {
      var front := steps[..|steps| - 1];
      assert front[..k] == steps[..k];
      JournalGrows(cfg, front, k);
    }
  }

  /** A record that differs from the baseline belongs to an allocated cycle. */
  lemma DifferenceIsAllocated(cfg: Config, s: State, id: string)
    requires Inv(cfg, s) && Lookup(s.server, id) != Lookup(cfg.baseline, id)
    ensures exists c :: IdOf(cfg, c) == id && c in TallyOf(s).cycles
  {
    assert IsProbeId(cfg, id);
    var c: nat :| IdOf(cfg, c) == id;
    assert CycleInv(cfg, s, c);
    JournalAccepted(cfg, s, false);
    assert MatchesEvents(TallyOf(s), s.body, c);
  }

  predicate InLifeOrder(writes: seq<Operation>) {
    |writes| <= 3 && writes == LIFE[..|writes|]
  }

  /**
   No orphans.  At every moment of every run, each record that is not as in the
   baseline has its allocation in the final journal too, and the server applied
   the operations of every cycle in order and at most once.
   */
  lemma NoOrphans(cfg: Config, steps: seq<Step>, k: nat, id: string)
    requires k <= |steps| && Run(cfg, steps).Some?
    ensures Run(cfg, steps[..k]).Some?
    ensures var then', now := Run(cfg, steps[..k]).value, Run(cfg, steps).value;
            && (Lookup(then'.server, id) != Lookup(cfg.baseline, id) ==>
                  exists c :: IdOf(cfg, c) == id && c in TallyOf(now).cycles)
            && (forall c :: InLifeOrder(WritesOf(then'.applied, c)))
  {
    JournalGrows(cfg, steps, k);
    RunInv(cfg, steps);
    RunInv(cfg, steps[..k]);
    var then', now := Run(cfg, steps[..k]).value, Run(cfg, steps).value;
    forall c ensures InLifeOrder(WritesOf(then'.applied, c)) {
      assert CycleInv(cfg, then', c);
    }
    if Lookup(then'.server, id) != Lookup(cfg.baseline, id) {
      DifferenceIsAllocated(cfg, then', id);
      var c :| IdOf(cfg, c) == id && c in TallyOf(then').cycles;
      StillAllocated(cfg, then', now, c);
    }
  }

  lemma AllocatedByEvents(cfg: Config, s: State, c: nat)
    requires Inv(cfg, s)
    ensures c in TallyOf(s).cycles <==> EventsOf(s.body, c) != []
  {
    JournalAccepted(cfg, s, false);
    assert MatchesEvents(TallyOf(s), s.body, c);
  }

  lemma StillAllocated(cfg: Config, earlier: State, later: State, c: nat)
    requires Inv(cfg, earlier) && Inv(cfg, later) && earlier.body <= later.body
    requires c in TallyOf(earlier).cycles
    ensures c in TallyOf(later).cycles
  {
    AllocatedByEvents(cfg, earlier, c);
    AllocatedByEvents(cfg, later, c);
    assert earlier.body == later.body[..|earlier.body|];
    EventsOfPrefix(later.body, |earlier.body|, c);
  }

  function AllConfirmed(): nat -> Delivery {
    (c: nat) => Confirmed
  }

  function ProbeIds(cfg: Config, s: State): set<string> {
    DeletedIds(cfg.header.idPrefix, TallyOf(s).cycles.Keys, AllConfirmed())
  }

  lemma OutsideProbes(cfg: Config, s: State)
    requires Inv(cfg, s)
    ensures s.server - ProbeIds(cfg, s) == cfg.baseline - ProbeIds(cfg, s)
  {
    var left, right := s.server - ProbeIds(cfg, s), cfg.baseline - ProbeIds(cfg, s);
    forall id ensures Lookup(left, id) == Lookup(right, id) {
      if Lookup(s.server, id) != Lookup(cfg.baseline, id) {
        DifferenceIsAllocated(cfg, s, id);
        var c :| IdOf(cfg, c) == id && c in TallyOf(s).cycles;
        assert TakesEffect(AllConfirmed()(c));
        assert id in ProbeIds(cfg, s);
      }
    }
    SameLookups(left, right);
  }

  /**
   Deleting every journaled cycle restores the baseline exactly, record for
   record, if and only if no baseline record used one of their identifiers.
   */
  lemma CleanupRestoresBaseline(cfg: Config, s: State)
    requires Reachable(cfg, s)
    ensures s.server - ProbeIds(cfg, s) == cfg.baseline <==>
            forall c :: c in TallyOf(s).cycles ==> IdOf(cfg, c) !in cfg.baseline
  {
    ReachableInv(cfg, s);
    OutsideProbes(cfg, s);
    forall c | c in TallyOf(s).cycles ensures IdOf(cfg, c) in ProbeIds(cfg, s) {
      assert TakesEffect(AllConfirmed()(c));
    }
    if forall c :: c in TallyOf(s).cycles ==> IdOf(cfg, c) !in cfg.baseline {
      assert cfg.baseline - ProbeIds(cfg, s) == cfg.baseline;
    }
  }

  // ----- The verifier -----

  datatype Report = Report(
    snapshot: JF.JournalSnapshot,
    checks: CheckResult,
    cleanupDeleted: nat,
    cleanupFailed: nat,
    passed: bool)

  datatype Floors = Floors(inserts: nat, updates: nat, deletes: nat)

  /** The members of `keys` below `n`, ascending. */
  function AscendingBelow(keys: set<nat>, n: nat): seq<nat> {
    if n == 0 then [] else AscendingBelow(keys, n - 1) + (if n - 1 in keys then [n - 1] else [])
  }

  lemma {:induction false} AscendingBelowExact(keys: set<nat>, n: nat)
    ensures Ascending(AscendingBelow(keys, n))
    ensures forall i :: 0 <= i < |AscendingBelow(keys, n)| ==> AscendingBelow(keys, n)[i] < n
    ensures forall c :: c in AscendingBelow(keys, n) <==> c in keys && c < n
  {
    if n > 0 {
      AscendingBelowExact(keys, n - 1);
    }
  }

  /** The ascending list of a finite set of cycles, as an ordered map iterates it. */
  method Enumerate(keys: set<nat>) returns (order: seq<nat>)
    ensures Enumerates(order, keys)
  {
    var bound: nat, rest := 0, keys;
    while rest != {}
      invariant forall c :: c in keys ==> c in rest || c < bound
      decreases |rest|
    {
      var c: nat :| c in rest;
      bound, rest := if c < bound then bound else c + 1, rest - {c};
    }
    order := AscendingBelow(keys, bound);
    AscendingBelowExact(keys, bound);
  }

  /** What the verifier is asked to hold the run to. */
  datatype Demands = Demands(expectedBaseline: nat, floors: Floors, cleanup: bool)

  /** What the verifier meets: the server's health before and after, and what comes of each Get and each delete. */
  datatype Conditions = Conditions(
    healthyBefore: bool, healthyAfter: bool, answers: nat -> bool, delivery: nat -> Delivery)

  /** A Get is answered from the records the server holds, or not at all. */
  function GetFrom(header: JournalHeader, store: map<string, Stored>, answers: nat -> bool): nat -> GetResponse {
    (cycle: nat) =>
      if answers(cycle) then AnswerFrom(header, Lookup(store, ProbeId(header.idPrefix, cycle))) else Unanswered
  }

  predicate FloorsMet(tally: Tally, floors: Floors) {
    tally.insertAcks >= floors.inserts && tally.updateAcks >= floors.updates && tally.deleteAcks >= floors.deletes
  }

  /** The records left after cleanup, or untouched when none was asked for. */
  function Remaining(
    store: map<string, Stored>, header: JournalHeader, tally: Tally, demands: Demands, conditions: Conditions)
    : map<string, Stored>
  {
    if demands.cleanup then store - DeletedIds(header.idPrefix, tally.cycles.Keys, conditions.delivery) else store
  }

  /** Every journaled cycle is answered, and what the server holds under its identifier is explained. */
  ghost predicate AllExplained(
    header: JournalHeader, cycles: map<nat, CycleState>, store: map<string, Stored>, answers: nat -> bool)
  {
    forall c :: c in cycles ==>
      answers(c) && Explained(header, c, cycles[c], AnswerFrom(header, Lookup(store, ProbeId(header.idPrefix, c))))
  }

  lemma ExplainedFrom(
    header: JournalHeader, cycles: map<nat, CycleState>, store: map<string, Stored>, answers: nat -> bool)
    ensures AllExplained(header, cycles, store, answers) <==>
      forall c :: c in cycles ==> Explained(header, c, cycles[c], GetFrom(header, store, answers)(c))
  {
    forall c | c in cycles
      ensures Explained(header, c, cycles[c], GetFrom(header, store, answers)(c)) <==>
        answers(c) && Explained(header, c, cycles[c], AnswerFrom(header, Lookup(store, ProbeId(header.idPrefix, c))))
    {
    }
  }

  /** The verdict in terms of the journal and the server: everything that must hold for a pass. */
  ghost predicate Qualifies(
    snapshot: JF.JournalSnapshot, store: map<string, Stored>, demands: Demands, conditions: Conditions)
  {
    var header, tally := snapshot.header, snapshot.tally;
    && conditions.healthyBefore
    && header.baselineActiveVectors == demands.expectedBaseline
    && FloorsMet(tally, demands.floors)
    && AllExplained(header, tally.cycles, store, conditions.answers)
    && (demands.cleanup ==>
          && (forall c :: c in tally.cycles ==> conditions.delivery(c).Confirmed?)
          && conditions.healthyAfter
          && |Remaining(store, header, tally, demands, conditions)| == demands.expectedBaseline)
  }

  lemma NoneUnconfirmed(cycles: set<nat>, delivery: nat -> Delivery)
    ensures |UnconfirmedCycles(cycles, delivery)| == 0 <==> forall c :: c in cycles ==> delivery(c).Confirmed?
  {
    if c :| c in cycles && !delivery(c).Confirmed? {
      assert c in UnconfirmedCycles(cycles, delivery);
    }
  }

  /** Parses the journal, checks every cycle against the server, cleans up if asked, and gives the verdict. */
  method RunVerify(codec: JF.RecordCodec, bytes: seq<Byte>, server: ProbeServer,
                   demands: Demands, conditions: Conditions)
    returns (result: Result<Report, ParseError>)
    modifies server
    ensures result.Failure? <==> JF.ParseBytes(codec, bytes).Failure?
    ensures result.Failure? ==> server.store == old(server.store)
    ensures result.Success? ==>
              var snapshot, report := JF.ParseBytes(codec, bytes).value, result.value;
              var header, tally := snapshot.header, snapshot.tally;
              var get := GetFrom(header, old(server.store), conditions.answers);
              && report.snapshot == snapshot
              && report.checks.verified == |VerifiedCycles(header, tally.cycles, get)|
              && report.checks.advances == |AdvancedCycles(header, tally.cycles, get)|
              && (report.checks.failures == [] <==>
                    AllExplained(header, tally.cycles, old(server.store), conditions.answers))
              && server.store == Remaining(old(server.store), header, tally, demands, conditions)
              && report.cleanupDeleted == (if demands.cleanup then
                   |StoredCycles(old(server.store), header.idPrefix, tally.cycles.Keys, conditions.delivery)| else 0)
              && report.cleanupFailed == (if demands.cleanup then
                   |UnconfirmedCycles(tally.cycles.Keys, conditions.delivery)| else 0)
              && (report.passed <==> Qualifies(snapshot, old(server.store), demands, conditions))
  {
    var parsed := JF.ParseJournal(codec, bytes);
    if parsed.Failure? {
      return Failure(parsed.error);
    }
    var snapshot := parsed.value;
    var header, tally := snapshot.header, snapshot.tally;
    var passed := conditions.healthyBefore;
    passed := passed && header.baselineActiveVectors == demands.expectedBaseline;
    var floors := demands.floors;
    if tally.insertAcks < floors.inserts || tally.updateAcks < floors.updates || tally.deleteAcks < floors.deletes {
      passed := false;
    }
    var order := Enumerate(tally.cycles.Keys);
    var checks := CheckCycles(header, tally.cycles, order, GetFrom(header, server.store, conditions.answers));
    passed := passed && checks.failures == [];
    ExplainedFrom(header, tally.cycles, server.store, conditions.answers);
    var deleted, failed := 0, 0;
    if demands.cleanup {
      deleted, failed := Cleanup(server, header.idPrefix, tally.cycles.Keys, order, conditions.delivery);
      NoneUnconfirmed(tally.cycles.Keys, conditions.delivery);
      passed := passed && failed == 0 && conditions.healthyAfter && |server.store| == demands.expectedBaseline;
    }
    return Success(Report(snapshot, checks, deleted, failed, passed));
  }

  function AllAnswered(): nat -> bool {
    (c: nat) => true
  }

  /** A server that has recovered: healthy, and answering every request. */
  function Recovered(): Conditions {
    Conditions(true, true, AllAnswered(), AllConfirmed())
  }

  /** When every cycle passes and cleanup restores the baseline, only the acknowledgement floors decide the verdict. */
  lemma FloorsDecide(
    snapshot: JF.JournalSnapshot, store: map<string, Stored>, baseline: map<string, Stored>, demands: Demands)
    requires snapshot.header.baselineActiveVectors == |baseline| == demands.expectedBaseline && demands.cleanup
    requires var header, cycles := snapshot.header, snapshot.tally.cycles;
             && AllExplained(header, cycles, store, AllAnswered())
             && store - DeletedIds(header.idPrefix, cycles.Keys, AllConfirmed()) == baseline
    ensures Qualifies(snapshot, store, demands, Recovered()) <==> FloorsMet(snapshot.tally, demands.floors)
    ensures Remaining(store, snapshot.header, snapshot.tally, demands, Recovered()) == baseline
  {
  }

  /**
   End to end: after any stopped run with a fresh prefix, with the journal torn
   anywhere, a recovered server that answers passes every cycle; the verifier
   reports exactly the cycles the server is ahead of (no more than the
   interrupted workers), counts the probe records still present, leaves the
   server as the run found it, and passes the run exactly when the
   acknowledgement floors are met.
   */
  method QualifyRun(cfg: Config, ghost steps: seq<Step>, s: State, codec: JF.RecordCodec, torn: seq<Byte>,
                    server: ProbeServer, floors: Floors)
    returns (report: Report)
    requires FreshPrefix(cfg) && Run(cfg, steps) == Some(s) && Stopped(s)
    requires cfg.header.baselineActiveVectors == |cfg.baseline|
    requires JF.Faithful(codec) && JF.NEWLINE !in torn && server.store == s.server
    modifies server
    ensures report.checks.failures == []
    ensures report.checks.verified == |report.snapshot.tally.cycles|
    ensures report.checks.advances == |AheadCycles(s)| <= Merged(s.workers, |s.workers|).rpcFailures <= cfg.workers
    ensures report.cleanupDeleted ==
            |set c | c in report.snapshot.tally.cycles && IdOf(cfg, c) in s.server|
    ensures report.cleanupFailed == 0
    ensures server.store == cfg.baseline
    ensures report.passed <==> FloorsMet(report.snapshot.tally, floors)
  {
    var demands := Demands(|cfg.baseline|, floors, true);
    var result := RunVerify(codec, DiskBytes(cfg, s, codec, torn), server, demands, Recovered());
    assert Reachable(cfg, s);
    RunInv(cfg, steps);
    BoundedUncertainty(cfg, steps);
    DiskParses(cfg, s, codec, torn);
    report := result.value;
    AllPass(cfg, s);
    CleanupRestores(cfg, s);
    FloorsDecide(report.snapshot, s.server, cfg.baseline, demands);
  }

  lemma AllPass(cfg: Config, s: State)
    requires FreshPrefix(cfg) && Inv(cfg, s)
    ensures var cycles, get := TallyOf(s).cycles, GetFrom(cfg.header, s.server, AllAnswered());
            && AllExplained(cfg.header, cycles, s.server, AllAnswered())
            && VerifiedCycles(cfg.header, cycles, get) == cycles.Keys
            && AdvancedCycles(cfg.header, cycles, get) == AheadCycles(s)
  {
    var cycles, get := TallyOf(s).cycles, GetFrom(cfg.header, s.server, AllAnswered());
    forall c | c in cycles
      ensures Explained(cfg.header, c, cycles[c], get(c)) && Verified(cfg.header, c, cycles[c], get(c))
    {
      assert get(c) == Answer(cfg, s, c);
      FreshIsClean(cfg, s, c);
      CleanPasses(cfg, s, c);
      PassesExactly(cfg.header, c, cycles[c], get(c));
    }
    ExplainedFrom(cfg.header, cycles, s.server, AllAnswered());
    AheadIsAdvanced(cfg, s);
    assert forall c :: c in cycles ==> get(c) == Answers(cfg, s)(c);
  }

  lemma CleanupRestores(cfg: Config, s: State)
    requires FreshPrefix(cfg) && Reachable(cfg, s)
    ensures s.server - ProbeIds(cfg, s) == cfg.baseline
    ensures UnconfirmedCycles(TallyOf(s).cycles.Keys, AllConfirmed()) == {}
    ensures StoredCycles(s.server, cfg.header.idPrefix, TallyOf(s).cycles.Keys, AllConfirmed()) ==
            set c | c in TallyOf(s).cycles && IdOf(cfg, c) in s.server
  {
    ReachableInv(cfg, s);
    CleanupRestoresBaseline(cfg, s);
    forall c | c in TallyOf(s).cycles ensures IdOf(cfg, c) !in cfg.baseline {
      WritesFollowAcks(cfg, s, c);
    }
  }
}
