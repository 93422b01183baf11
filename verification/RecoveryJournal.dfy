/**
 Records of the crash-recovery acknowledgement journal and the replay that the
 journal parser performs on them.  The replay is a fold with many error exits;
 `ReplayExact` states what it accepts without mentioning the fold: the records
 of every cycle, taken in journal order, are a prefix of that cycle's script.
 */
module RecoveryJournal {
  import opened Wrappers
  import Counting

  datatype TargetState = Inserted | Updated | Deleted

  datatype Operation = Insert | Update | Delete

  datatype JournalRecord =
    | Header(sequence: nat, schemaVersion: nat, header: JournalHeader, startedAt: nat)
    | Allocate(sequence: nat, cycle: nat, target: TargetState)
    | Ack(sequence: nat, cycle: nat, operation: Operation, revision: nat, acknowledgedAt: nat)

  datatype JournalHeader =
    JournalHeader(runId: string, idPrefix: string, dimensions: nat, baselineActiveVectors: nat)

  datatype CycleState = CycleState(target: TargetState, lastAck: Option<Operation>)

  datatype Tally = Tally(cycles: map<nat, CycleState>, insertAcks: nat, updateAcks: nat, deleteAcks: nat)

  datatype ParseError =
    | EmptyLine
    | InvalidRecord
    | NoRecords
    | SequenceMismatch(expected: nat)
    | UnsupportedSchema(version: nat)
    | FirstNotHeader
    | SecondHeader
    | InvalidTarget(cycle: nat)
    | AllocatedTwice(cycle: nat)
    | AckBeforeAllocation(cycle: nat)
    | ImpossibleAck(cycle: nat)
    | UnexpectedOperation(cycle: nat)
    | InvalidRevision(cycle: nat)

  const EMPTY_TALLY := Tally(map[], 0, 0, 0)

  function TargetForCycle(cycle: nat): TargetState {
    match cycle % 3
    case 0 => Inserted
    case 1 => Updated
    case _ => Deleted
  }

  function RevisionOf(operation: Operation): nat {
    match operation
    case Insert => 1
    case Update => 2
    case Delete => 3
  }

  /** The one operation that may be acknowledged next, if any. */
  function ExpectedAck(state: CycleState): Option<Operation> {
    match state.lastAck
    case None => Some(Insert)
    case Some(Insert) => if state.target != Inserted then Some(Update) else None
    case Some(Update) => if state.target == Deleted then Some(Delete) else None
    case Some(Delete) => None
  }

  function ReplayRecord(t: Tally, r: JournalRecord): Result<Tally, ParseError> {
    match r
    case Header(_, _, _, _) => Failure(SecondHeader)
    case Allocate(_, cycle, target) =>
      if target != TargetForCycle(cycle) then Failure(InvalidTarget(cycle))
      else if cycle in t.cycles then Failure(AllocatedTwice(cycle))
      else Success(t.(cycles := t.cycles[cycle := CycleState(target, None)]))
    case Ack(_, cycle, operation, revision, _) =>
      if cycle !in t.cycles then Failure(AckBeforeAllocation(cycle))
      else
        var expected := ExpectedAck(t.cycles[cycle]);
        if expected.None? then Failure(ImpossibleAck(cycle))
        else if operation != expected.value then Failure(UnexpectedOperation(cycle))
        else if revision != RevisionOf(operation) then Failure(InvalidRevision(cycle))
        else
          var cycles := t.cycles[cycle := t.cycles[cycle].(lastAck := Some(operation))];
          match operation
          case Insert => Success(t.(cycles := cycles, insertAcks := t.insertAcks + 1))
          case Update => Success(t.(cycles := cycles, updateAcks := t.updateAcks + 1))
          case Delete => Success(t.(cycles := cycles, deleteAcks := t.deleteAcks + 1))
  }

  /** Replays the records after the header; the first error wins. */
  function Replay(records: seq<JournalRecord>): Result<Tally, ParseError> {
    if records == [] then Success(EMPTY_TALLY)
    else
      var before := Replay(records[..|records| - 1]);
      if before.Failure? then before else ReplayRecord(before.value, records[|records| - 1])
  }

  /** What a reader sees of a cycle (its stored revision) after `count` of its operations. */
  function ObservedAt(count: nat): Option<nat> {
    if count == 1 then Some(1) else if count == 2 then Some(2) else None
  }

  // ----- What a journal says, cycle by cycle -----

  datatype Event = Allocated(target: TargetState) | Acked(operation: Operation, revision: nat)

  function EventsIn(r: JournalRecord, cycle: nat): seq<Event> {
    match r
    case Header(_, _, _, _) => []
    case Allocate(_, c, target) => if c == cycle then [Allocated(target)] else []
    case Ack(_, c, operation, revision, _) => if c == cycle then [Acked(operation, revision)] else []
  }

  /** The events of one cycle in journal order. */
  function EventsOf(records: seq<JournalRecord>, cycle: nat): (events: seq<Event>)
    ensures |events| <= |records|
  {
    if records == [] then []
    else EventsOf(records[..|records| - 1], cycle) + EventsIn(records[|records| - 1], cycle)
  }

  const FULL_SCRIPT: seq<Event> := [Acked(Insert, 1), Acked(Update, 2), Acked(Delete, 3)]

  /** How many operations drive a cycle to its target. */
  function Steps(target: TargetState): (n: nat)
    ensures 1 <= n <= 3
  {
    match target
    case Inserted => 1
    case Updated => 2
    case Deleted => 3
  }

  function LastStep(cycle: nat): (n: nat)
    ensures 1 <= n <= 3
  {
    Steps(TargetForCycle(cycle))
  }

  /** Everything a complete cycle writes: its allocation, then its acknowledgements. */
  function Script(cycle: nat): (script: seq<Event>)
    ensures |script| == 1 + LastStep(cycle)
  {
    [Allocated(TargetForCycle(cycle))] + FULL_SCRIPT[..LastStep(cycle)]
  }

  predicate OnScript(events: seq<Event>, cycle: nat) {
    && |events| <= |Script(cycle)|
    && events == Script(cycle)[..|events|]
  }

  ghost predicate NoHeader(records: seq<JournalRecord>) {
    forall i :: 0 <= i < |records| ==> !records[i].Header?
  }

  ghost predicate FollowsScripts(records: seq<JournalRecord>) {
    && NoHeader(records)
    && (forall cycle :: OnScript(EventsOf(records, cycle), cycle))
  }

  /** Position of an acknowledgement in the life of a cycle; 0 is none yet. */
  function AckRank(ack: Option<Operation>): nat {
    match ack
    case None => 0
    case Some(operation) => RevisionOf(operation)
  }

  /** The cycles whose events include at least the acknowledgement of that rank. */
  function AckedCycles(t: Tally, rank: nat): set<nat> {
    set c | c in t.cycles && AckRank(t.cycles[c].lastAck) >= rank
  }

  ghost predicate MatchesEvents(t: Tally, records: seq<JournalRecord>, cycle: nat) {
    var events := EventsOf(records, cycle);
    && (cycle in t.cycles <==> events != [])
    && (cycle in t.cycles ==>
          && t.cycles[cycle].target == TargetForCycle(cycle)
          && AckRank(t.cycles[cycle].lastAck) == |events| - 1)
  }

  ghost predicate CyclesMatch(t: Tally, records: seq<JournalRecord>) {
    forall cycle :: MatchesEvents(t, records, cycle)
  }

  ghost predicate CountsMatch(t: Tally) {
    && t.insertAcks == |AckedCycles(t, 1)|
    && t.updateAcks == |AckedCycles(t, 2)|
    && t.deleteAcks == |AckedCycles(t, 3)|
  }

  /** How many records a tally accounts for. */
  function Weight(t: Tally): nat {
    |t.cycles| + t.insertAcks + t.updateAcks + t.deleteAcks
  }

  /** The tally is what the events of the cycles say, and it accounts for every record. */
  ghost predicate Summarises(t: Tally, records: seq<JournalRecord>) {
    CyclesMatch(t, records) && CountsMatch(t) && Weight(t) == |records|
  }

  lemma EventsAfter(records: seq<JournalRecord>, r: JournalRecord, cycle: nat)
    ensures EventsOf(records + [r], cycle) == EventsOf(records, cycle) + EventsIn(r, cycle)
  {
    assert (records + [r])[..|records|] == records;
  }

  lemma {:induction false} EventsOfPrefix(records: seq<JournalRecord>, k: nat, cycle: nat)
    requires k <= |records|
    ensures EventsOf(records[..k], cycle) <= EventsOf(records, cycle)
    decreases |records|
  {
    if k == |records| {
      assert records[..k] == records;
    } else {
      var front := records[..|records| - 1];
      assert front[..k] == records[..k];
      EventsOfPrefix(front, k, cycle);
    }
  }

  /** Cutting whole records off the end keeps a well-formed journal well-formed. */
  lemma ScriptsPrefixClosed(records: seq<JournalRecord>, k: nat)
    requires FollowsScripts(records) && k <= |records|
    ensures FollowsScripts(records[..k])
  {
    forall cycle ensures OnScript(EventsOf(records[..k], cycle), cycle) {
      EventsOfPrefix(records, k, cycle);
      assert OnScript(EventsOf(records, cycle), cycle);
    }
  }

  /** The record is the next event of its cycle. */
  predicate IsNextEvent(records: seq<JournalRecord>, r: JournalRecord) {
    && !r.Header?
    && var n := |EventsOf(records, r.cycle)|;
       n < |Script(r.cycle)| && EventsIn(r, r.cycle) == [Script(r.cycle)[n]]
  }

  lemma OneMoreEvent(events: seq<Event>, event: Event, cycle: nat)
    requires OnScript(events, cycle)
    ensures OnScript(events + [event], cycle) <==>
            |events| < |Script(cycle)| && event == Script(cycle)[|events|]
  {
    var more, script := events + [event], Script(cycle);
    if |events| < |script| {
      assert script[..|more|] == script[..|events|] + [script[|events|]];
      assert more[|events|] == event;
    }
  }

  /** One more record keeps to the scripts exactly when it is the next event of its cycle. */
  lemma FollowsAfter(records: seq<JournalRecord>, r: JournalRecord)
    requires FollowsScripts(records)
    ensures FollowsScripts(records + [r]) <==> IsNextEvent(records, r)
  {
    var all := records + [r];
    if r.Header? {
      assert all[|records|].Header?;
    } else {
      EventsAfter(records, r, r.cycle);
      assert OnScript(EventsOf(records, r.cycle), r.cycle);
      OneMoreEvent(EventsOf(records, r.cycle), EventsIn(r, r.cycle)[0], r.cycle);
      forall cycle | cycle != r.cycle ensures OnScript(EventsOf(all, cycle), cycle) {
        EventsAfter(records, r, cycle);
        assert EventsOf(all, cycle) == EventsOf(records, cycle);
        assert OnScript(EventsOf(records, cycle), cycle);
      }
    }
  }

  /** A replay step succeeds exactly on the next event of the record's cycle. */
  lemma StepAccepts(records: seq<JournalRecord>, t: Tally, r: JournalRecord)
    requires FollowsScripts(records) && CyclesMatch(t, records)
    ensures ReplayRecord(t, r).Success? <==> IsNextEvent(records, r)
  {
    if !r.Header? {
      assert OnScript(EventsOf(records, r.cycle), r.cycle);
      assert MatchesEvents(t, records, r.cycle);
    }
  }

  lemma StepKeepsOthers(t: Tally, r: JournalRecord, cycle: nat)
    requires ReplayRecord(t, r).Success? && cycle != r.cycle
    ensures var t' := ReplayRecord(t, r).value;
            && (cycle in t'.cycles <==> cycle in t.cycles)
            && (cycle in t.cycles ==> t'.cycles[cycle] == t.cycles[cycle])
  {
  }

  lemma StepMatches(records: seq<JournalRecord>, t: Tally, r: JournalRecord)
    requires CyclesMatch(t, records)
    requires ReplayRecord(t, r).Success?
    ensures CyclesMatch(ReplayRecord(t, r).value, records + [r])
  {
    var t' := ReplayRecord(t, r).value;
    forall cycle ensures MatchesEvents(t', records + [r], cycle) {
      EventsAfter(records, r, cycle);
      assert MatchesEvents(t, records, cycle);
      if cycle != r.cycle {
        StepKeepsOthers(t, r, cycle);
      } else {
        StepMatchesOwn(t, r, |EventsOf(records, cycle)|);
      }
    }
  }

  lemma StepMatchesOwn(t: Tally, r: JournalRecord, events: nat)
    requires ReplayRecord(t, r).Success?
    requires r.cycle in t.cycles <==> events > 0
    requires r.cycle in t.cycles ==>
               t.cycles[r.cycle].target == TargetForCycle(r.cycle) && AckRank(t.cycles[r.cycle].lastAck) == events - 1
    ensures var t' := ReplayRecord(t, r).value;
            && r.cycle in t'.cycles
            && t'.cycles[r.cycle].target == TargetForCycle(r.cycle)
            && AckRank(t'.cycles[r.cycle].lastAck) == events
  {
  }

  /** A step adds at most its own cycle to the cycles acknowledged that far. */
  lemma AckedAfter(t: Tally, r: JournalRecord, rank: nat)
    requires ReplayRecord(t, r).Success? && 1 <= rank
    ensures var t' := ReplayRecord(t, r).value;
            if r.Ack? && RevisionOf(r.operation) == rank
            then r.cycle !in AckedCycles(t, rank) && AckedCycles(t', rank) == AckedCycles(t, rank) + {r.cycle}
            else AckedCycles(t', rank) == AckedCycles(t, rank)
  {
    var t' := ReplayRecord(t, r).value;
    assert forall c :: c != r.cycle ==> (c in AckedCycles(t', rank) <==> c in AckedCycles(t, rank));
    assert r.cycle in t'.cycles;
  }

  lemma AckedSizeAfter(t: Tally, r: JournalRecord, rank: nat)
    requires ReplayRecord(t, r).Success? && 1 <= rank
    ensures |AckedCycles(ReplayRecord(t, r).value, rank)|
              == |AckedCycles(t, rank)| + (if r.Ack? && RevisionOf(r.operation) == rank then 1 else 0)
  {
    AckedAfter(t, r, rank);
  }

  lemma StepCounts(t: Tally, r: JournalRecord)
    requires CountsMatch(t) && ReplayRecord(t, r).Success?
    ensures CountsMatch(ReplayRecord(t, r).value)
    ensures Weight(ReplayRecord(t, r).value) == Weight(t) + 1
  {
    AckedSizeAfter(t, r, 1);
    AckedSizeAfter(t, r, 2);
    AckedSizeAfter(t, r, 3);
    StepWeight(t, r);
  }

  lemma StepWeight(t: Tally, r: JournalRecord)
    requires ReplayRecord(t, r).Success?
    ensures Weight(ReplayRecord(t, r).value) == Weight(t) + 1
  {
    var t' := ReplayRecord(t, r).value;
    match r
    case Allocate(_, cycle, target) =>
      assert t'.cycles.Keys == t.cycles.Keys + {cycle};
    case Ack(_, cycle, operation, _, _) =>
      assert t'.cycles.Keys == t.cycles.Keys;
  }

  /**
   The replay accepts a record sequence exactly when every cycle's records
   follow its script, and what it returns is the summary of those events.
   */
  lemma {:induction false} ReplayExact(records: seq<JournalRecord>)
    ensures Replay(records).Success? <==> FollowsScripts(records)
    ensures Replay(records).Success? ==> Summarises(Replay(records).value, records)
  {
    if records != [] {
      var front, last := records[..|records| - 1], records[|records| - 1];
      assert records == front + [last];
      ReplayExact(front);
      if Replay(front).Success? {
        var t := Replay(front).value;
        FollowsAfter(front, last);
        StepAccepts(front, t, last);
        if ReplayRecord(t, last).Success? {
          StepMatches(front, t, last);
          StepCounts(t, last);
        }
      } else if FollowsScripts(records) {
        ScriptsPrefixClosed(records, |front|);
        assert false;
      }
    }
  }

  /** Acknowledgement counts can only fall along the life of a cycle. */
  lemma AckCountsOrdered(records: seq<JournalRecord>)
    requires Replay(records).Success?
    ensures var t := Replay(records).value;
            t.deleteAcks <= t.updateAcks <= t.insertAcks <= |t.cycles|
  {
    ReplayExact(records);
    var t := Replay(records).value;
    Counting.SubsetSize(AckedCycles(t, 3), AckedCycles(t, 2));
    Counting.SubsetSize(AckedCycles(t, 2), AckedCycles(t, 1));
    Counting.SubsetSize(AckedCycles(t, 1), t.cycles.Keys);
  }
}
