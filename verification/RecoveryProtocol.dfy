/**
 The mutation workers, the journal and the server as one labelled transition
 system.  Workers interleave at every shared access: the stop flag, the cycle
 counter, the journal lock and the server.  A call that fails may have been
 applied before the failure, after it, or never; a worker may panic anywhere
 outside the journal lock.  Applied writes survive a server restart, and no
 journal append fails.
 */
module RecoveryProtocol {
  import opened Wrappers
  import opened RecoveryJournal
  import JournalFile
  import Decimal

  /** Where a worker stands in its loop. */
  datatype Pc =
    | LoopHead
    | Claiming
    | Claimed(cycle: nat)
    | Allocating(cycle: nat)
    | Calling(cycle: nat, operation: Operation, applied: bool)
    | Acking(cycle: nat, operation: Operation)

  datatype Status = Running | Returned | Panicked

  datatype WorkerSummary = WorkerSummary(
    allocations: nat, insertAcks: nat, updateAcks: nat, deleteAcks: nat,
    completedTargets: nat, rpcFailures: nat, journalFailures: nat)

  datatype Worker = Worker(pc: Pc, status: Status, summary: WorkerSummary)

  /** A record on the server: a probe record of some run, or anything else. */
  datatype Stored = Foreign(content: nat) | Probe(runId: string, cycle: nat, revision: nat)

  datatype Write = Write(cycle: nat, operation: Operation)

  datatype Config = Config(
    workers: nat, maxCycles: nat, header: JournalHeader, startedAt: nat, baseline: map<string, Stored>)

  /** `body` holds the journal after its header; `applied` is the history of writes the server made. */
  datatype State = State(
    nextCycle: nat,
    stop: bool,
    body: seq<JournalRecord>,
    workers: seq<Worker>,
    server: map<string, Stored>,
    applied: seq<Write>)

  const NO_WORK := WorkerSummary(0, 0, 0, 0, 0, 0, 0)

  function ProbeId(prefix: string, cycle: nat): string {
    prefix + "-" + Decimal.Padded(cycle, 12)
  }

  /** Identifiers of different cycles differ. */
  lemma ProbeIdInjective(prefix: string, c: nat, d: nat)
    requires ProbeId(prefix, c) == ProbeId(prefix, d)
    ensures c == d
  {
    Decimal.PrefixCancels(prefix + "-", Decimal.Padded(c, 12), Decimal.Padded(d, 12));
    Decimal.PaddedInjective(c, d, 12);
  }

  function Journal(cfg: Config, s: State): seq<JournalRecord> {
    [Header(0, JournalFile.JOURNAL_SCHEMA_VERSION, cfg.header, cfg.startedAt)] + s.body
  }

  function IdOf(cfg: Config, cycle: nat): string {
    ProbeId(cfg.header.idPrefix, cycle)
  }

  /** No baseline record already uses an identifier the run may write. */
  ghost predicate FreshPrefix(cfg: Config) {
    forall c: nat :: c < cfg.maxCycles ==> IdOf(cfg, c) !in cfg.baseline
  }

  function Init(cfg: Config): State {
    State(0, false, [], seq(cfg.workers, _ => Worker(LoopHead, Running, NO_WORK)), cfg.baseline, [])
  }

  /** What one write does to the server's records. */
  function Apply(server: map<string, Stored>, runId: string, id: string, w: Write): map<string, Stored> {
    match w.operation
    case Insert => server[id := Probe(runId, w.cycle, 1)]
    case Update => if id in server then server[id := Probe(runId, w.cycle, 2)] else server
    case Delete => server - {id}
  }

  function NextOperation(operation: Operation): Operation {
    if operation == Insert then Update else Delete
  }

  function CountAck(summary: WorkerSummary, operation: Operation): WorkerSummary {
    match operation
    case Insert => summary.(insertAcks := summary.insertAcks + 1)
    case Update => summary.(updateAcks := summary.updateAcks + 1)
    case Delete => summary.(deleteAcks := summary.deleteAcks + 1)
  }

  // ----- Steps -----

  datatype Action =
    | EnterLoop          // stop flag read false before the deadline
    | LeaveLoop          // stop flag read true, or deadline passed
    | Claim              // fetch_add on the cycle counter
    | Skip               // claimed cycle beyond the limit or schedule, or stop flag set
    | Commit             // second read of the stop flag
    | AppendAllocation   // durable Allocate record
    | ServerApplies      // the call takes effect
    | CallSucceeds       // success response received
    | CallFails          // error, timeout or lost response
    | AppendAck(now: nat)
    | Panic

  datatype Step = Step(worker: nat, action: Action)

  predicate Enabled(cfg: Config, s: State, step: Step) {
    && step.worker < |s.workers|
    && var w := s.workers[step.worker];
       && (w.status.Running? || step.action.ServerApplies?)
       && match step.action
          case EnterLoop => w.pc.LoopHead? && !s.stop
          case LeaveLoop => w.pc.LoopHead?
          case Claim => w.pc.Claiming?
          case Skip => w.pc.Claimed?
          case Commit => w.pc.Claimed? && w.pc.cycle < cfg.maxCycles && !s.stop
          case AppendAllocation => w.pc.Allocating?
          case ServerApplies => w.pc.Calling? && !w.pc.applied
          case CallSucceeds => w.pc.Calling? && w.pc.applied
          case CallFails => w.pc.Calling?
          case AppendAck(_) => w.pc.Acking?
          case Panic => true
  }

  function AfterAck(w: Worker): Worker
    requires w.pc.Acking?
  {
    var counted := CountAck(w.summary, w.pc.operation);
    if RevisionOf(w.pc.operation) == LastStep(w.pc.cycle) then
      Worker(LoopHead, w.status, counted.(completedTargets := counted.completedTargets + 1))
    else Worker(Calling(w.pc.cycle, NextOperation(w.pc.operation), false), w.status, counted)
  }

  function NextWorker(s: State, step: Step): Worker
    requires step.worker < |s.workers|
  {
    var w := s.workers[step.worker];
    match step.action
    case EnterLoop => w.(pc := Claiming)
    case LeaveLoop => w.(status := Returned)
    case Claim => w.(pc := Claimed(s.nextCycle))
    case Skip => w.(status := Returned)
    case Commit => if w.pc.Claimed? then w.(pc := Allocating(w.pc.cycle)) else w
    case AppendAllocation =>
      if w.pc.Allocating? then
        w.(pc := Calling(w.pc.cycle, Insert, false),
           summary := w.summary.(allocations := w.summary.allocations + 1))
      else w
    case ServerApplies => if w.pc.Calling? then w.(pc := w.pc.(applied := true)) else w
    case CallSucceeds => if w.pc.Calling? then w.(pc := Acking(w.pc.cycle, w.pc.operation)) else w
    case CallFails =>
      w.(status := Returned, summary := w.summary.(rpcFailures := w.summary.rpcFailures + 1))
    case AppendAck(_) => if w.pc.Acking? then AfterAck(w) else w
    case Panic => w.(status := Panicked)
  }

  /** The record the step appends, if any; the journal lock makes the append one step. */
  function Appended(s: State, step: Step): seq<JournalRecord>
    requires step.worker < |s.workers|
  {
    var pc, sequence := s.workers[step.worker].pc, |s.body| + 1;
    match step.action
    case AppendAllocation =>
      if pc.Allocating? then [Allocate(sequence, pc.cycle, TargetForCycle(pc.cycle))] else []
    case AppendAck(now) =>
      if pc.Acking? then [Ack(sequence, pc.cycle, pc.operation, RevisionOf(pc.operation), now)] else []
    case _ => []
  }

  function Written(s: State, step: Step): seq<Write>
    requires step.worker < |s.workers|
  {
    var pc := s.workers[step.worker].pc;
    if step.action.ServerApplies? && pc.Calling? then [Write(pc.cycle, pc.operation)] else []
  }

  function Next(cfg: Config, s: State, step: Step): State
    requires Enabled(cfg, s, step)
  {
    var writes := Written(s, step);
    State(
      if step.action.Claim? then s.nextCycle + 1 else s.nextCycle,
      s.stop || step.action.CallFails?,
      s.body + Appended(s, step),
      s.workers[step.worker := NextWorker(s, step)],
      if writes == [] then s.server else Apply(s.server, cfg.header.runId, IdOf(cfg, writes[0].cycle), writes[0]),
      s.applied + writes)
  }

  /** The state a run reaches, if every step of it was possible. */
  function Run(cfg: Config, steps: seq<Step>): Option<State> {
    if steps == [] then Some(Init(cfg))
    else
      var before := Run(cfg, steps[..|steps| - 1]);
      if before.Some? && Enabled(cfg, before.value, steps[|steps| - 1])
      then Some(Next(cfg, before.value, steps[|steps| - 1]))
      else None
  }

  ghost predicate Reachable(cfg: Config, s: State) {
    exists steps :: Run(cfg, steps) == Some(s)
  }

  // ----- One cycle seen from the journal and from the server -----

  function OperationsIn(w: Write, cycle: nat): seq<Operation> {
    if w.cycle == cycle then [w.operation] else []
  }

  /** The operations the server applied to one cycle, in order. */
  function WritesOf(applied: seq<Write>, cycle: nat): seq<Operation> {
    if applied == [] then []
    else WritesOf(applied[..|applied| - 1], cycle) + OperationsIn(applied[|applied| - 1], cycle)
  }

  const LIFE: seq<Operation> := [Insert, Update, Delete]

  datatype View = View(events: seq<Event>, writes: seq<Operation>, stored: Option<Stored>)

  function Lookup(server: map<string, Stored>, id: string): Option<Stored> {
    if id in server then Some(server[id]) else None
  }

  function ViewOf(cfg: Config, s: State, cycle: nat): View {
    View(EventsOf(s.body, cycle), WritesOf(s.applied, cycle), Lookup(s.server, IdOf(cfg, cycle)))
  }

  /** Acknowledgements in a list of events: all of them but the allocation. */
  function Acks(events: seq<Event>): nat {
    if events == [] then 0 else |events| - 1
  }

  /** The server holds what its own write history says, and the journal keeps to the script. */
  predicate ViewOk(cfg: Config, cycle: nat, v: View) {
    && OnScript(v.events, cycle)
    && |v.writes| <= 3 && v.writes == LIFE[..|v.writes|]
    && Acks(v.events) <= |v.writes| <= Acks(v.events) + 1
    && |v.writes| <= LastStep(cycle)
    && (v.events == [] ==> v.writes == [])
    && (v.events != [] ==> cycle < cfg.maxCycles)
    && v.stored == (if v.writes == [] then Lookup(cfg.baseline, IdOf(cfg, cycle))
                    else StoredAt(cfg.header.runId, cycle, |v.writes|))
  }

  function StoredAt(runId: string, cycle: nat, count: nat): Option<Stored> {
    match ObservedAt(count)
    case None => None
    case Some(revision) => Some(Probe(runId, cycle, revision))
  }

  function HeldCycle(pc: Pc): Option<nat> {
    match pc
    case LoopHead => None
    case Claiming => None
    case Claimed(c) => Some(c)
    case Allocating(c) => Some(c)
    case Calling(c, _, _) => Some(c)
    case Acking(c, _) => Some(c)
  }

  /** A call that has taken effect and whose acknowledgement is not in the journal yet. */
  predicate InFlightApplied(pc: Pc) {
    pc.Acking? || (pc.Calling? && pc.applied)
  }

  /** How far the worker's cycle has come, by the worker's own program counter. */
  predicate PcFits(cfg: Config, pc: Pc, v: View) {
    match pc
    case LoopHead => true
    case Claiming => true
    case Claimed(_) => v.events == [] && v.writes == []
    case Allocating(c) => v.events == [] && v.writes == [] && c < cfg.maxCycles
    case Calling(c, operation, applied) =>
      && |v.events| == RevisionOf(operation) <= LastStep(c)
      && |v.writes| == |v.events| - 1 + (if applied then 1 else 0)
    case Acking(c, operation) =>
      && |v.events| == RevisionOf(operation) <= LastStep(c)
      && |v.writes| == |v.events|
  }

  predicate Untouched(v: View) {
    v.events == [] && v.writes == []
  }

  /** Every record is written and every write acknowledged. */
  predicate Complete(cycle: nat, v: View) {
    |v.events| == |Script(cycle)| && |v.writes| == LastStep(cycle)
  }

  predicate Held(s: State, cycle: nat) {
    exists i :: 0 <= i < |s.workers| && HeldCycle(s.workers[i].pc) == Some(cycle)
  }

  predicate Interrupted(w: Worker) {
    w.status.Panicked? || (w.status.Returned? && w.pc.Calling?)
  }

  predicate WorkerOk(w: Worker) {
    && (w.status.Returned? ==> w.pc.LoopHead? || w.pc.Claimed? || w.pc.Calling?)
    && w.summary.rpcFailures == (if w.status.Returned? && w.pc.Calling? then 1 else 0)
    && w.summary.journalFailures == 0
  }

  // ----- The inductive invariant, in four parts -----

  ghost predicate Numbered(s: State) {
    forall i :: 0 <= i < |s.body| ==> s.body[i].sequence == i + 1 && !s.body[i].Header?
  }

  ghost predicate WorkersInv(cfg: Config, s: State) {
    && |s.workers| == cfg.workers
    && (forall i :: 0 <= i < |s.workers| ==> WorkerOk(s.workers[i]))
    && (forall i, c :: 0 <= i < |s.workers| && HeldCycle(s.workers[i].pc) == Some(c) ==>
          c < s.nextCycle && PcFits(cfg, s.workers[i].pc, ViewOf(cfg, s, c)))
    && (forall i, j :: 0 <= i < j < |s.workers| && HeldCycle(s.workers[i].pc).Some? ==>
          HeldCycle(s.workers[i].pc) != HeldCycle(s.workers[j].pc))
  }

  ghost predicate CyclesInv(cfg: Config, s: State) {
    forall c :: CycleInv(cfg, s, c)
  }

  ghost predicate CycleInv(cfg: Config, s: State, c: nat) {
    var v := ViewOf(cfg, s, c);
    && ViewOk(cfg, c, v)
    && (c >= s.nextCycle ==> Untouched(v))
    && (c < s.nextCycle && !Held(s, c) ==> Complete(c, v))
  }

  ghost predicate IsProbeId(cfg: Config, id: string) {
    exists c: nat :: IdOf(cfg, c) == id
  }

  /** Records the run does not own are as they were. */
  ghost predicate ForeignKept(cfg: Config, s: State) {
    forall id :: !IsProbeId(cfg, id) ==> Lookup(s.server, id) == Lookup(cfg.baseline, id)
  }

  ghost predicate Inv(cfg: Config, s: State) {
    Numbered(s) && WorkersInv(cfg, s) && CyclesInv(cfg, s) && ForeignKept(cfg, s)
  }

  lemma InitInv(cfg: Config)
    ensures Inv(cfg, Init(cfg))
  {
    var s := Init(cfg);
    forall c ensures CycleInv(cfg, s, c) {
    }
  }

  // ----- Preservation -----

  lemma WritesAfter(applied: seq<Write>, w: Write, cycle: nat)
    ensures WritesOf(applied + [w], cycle) == WritesOf(applied, cycle) + OperationsIn(w, cycle)
  {
    assert (applied + [w])[..|applied|] == applied;
  }

  /** The cycle a step works on: the one its worker held, or the one it claims. */
  function Focus(s: State, step: Step): Option<nat>
    requires step.worker < |s.workers|
  {
    if step.action.Claim? then Some(s.nextCycle) else HeldCycle(s.workers[step.worker].pc)
  }

  lemma EventsKept(cfg: Config, s: State, step: Step, d: nat)
    requires Enabled(cfg, s, step) && Focus(s, step) != Some(d)
    ensures EventsOf(Next(cfg, s, step).body, d) == EventsOf(s.body, d)
  {
    var more := Appended(s, step);
    if more == [] {
      assert s.body + more == s.body;
    } else {
      EventsAfter(s.body, more[0], d);
      assert more == [more[0]];
    }
  }

  lemma IdsDiffer(cfg: Config, c: nat, d: nat)
    requires c != d
    ensures IdOf(cfg, c) != IdOf(cfg, d)
  {
    if IdOf(cfg, c) == IdOf(cfg, d) {
      ProbeIdInjective(cfg.header.idPrefix, c, d);
    }
  }

  lemma ApplyElsewhere(server: map<string, Stored>, runId: string, id: string, w: Write, other: string)
    requires other != id
    ensures Lookup(Apply(server, runId, id, w), other) == Lookup(server, other)
  {
  }

  lemma WritesKept(cfg: Config, s: State, step: Step, d: nat)
    requires Enabled(cfg, s, step) && Focus(s, step) != Some(d)
    ensures WritesOf(Next(cfg, s, step).applied, d) == WritesOf(s.applied, d)
    ensures Lookup(Next(cfg, s, step).server, IdOf(cfg, d)) == Lookup(s.server, IdOf(cfg, d))
  {
    var more := Written(s, step);
    if more == [] {
      assert s.applied + more == s.applied;
    } else {
      WritesAfter(s.applied, more[0], d);
      assert more == [more[0]];
      IdsDiffer(cfg, d, more[0].cycle);
      ApplyElsewhere(s.server, cfg.header.runId, IdOf(cfg, more[0].cycle), more[0], IdOf(cfg, d));
    }
  }

  /** A step leaves every other cycle exactly as it was. */
  lemma ViewsKept(cfg: Config, s: State, step: Step, d: nat)
    requires Enabled(cfg, s, step) && Focus(s, step) != Some(d)
    ensures ViewOf(cfg, Next(cfg, s, step), d) == ViewOf(cfg, s, d)
  {
    EventsKept(cfg, s, step, d);
    WritesKept(cfg, s, step, d);
  }

  /** The view of the step's own cycle afterwards. */
  function NextView(cfg: Config, s: State, step: Step, c: nat, v: View): View
    requires step.worker < |s.workers|
  {
    var pc := s.workers[step.worker].pc;
    match step.action
    case AppendAllocation => v.(events := v.events + [Allocated(TargetForCycle(c))])
    case AppendAck(_) =>
      if pc.Acking? then v.(events := v.events + [Acked(pc.operation, RevisionOf(pc.operation))]) else v
    case ServerApplies =>
      if pc.Calling? then
        View(v.events, v.writes + [pc.operation], StoredAfter(v.stored, cfg.header.runId, Write(c, pc.operation)))
      else v
    case _ => v
  }

  lemma FocusEvents(cfg: Config, s: State, step: Step, c: nat)
    requires Enabled(cfg, s, step) && Focus(s, step) == Some(c)
    ensures EventsOf(Next(cfg, s, step).body, c) == NextView(cfg, s, step, c, ViewOf(cfg, s, c)).events
  {
    var more := Appended(s, step);
    if more == [] {
      assert s.body + more == s.body;
    } else {
      EventsAfter(s.body, more[0], c);
      assert more == [more[0]];
    }
  }

  /** What a reader of the written record sees afterwards. */
  function StoredAfter(stored: Option<Stored>, runId: string, w: Write): Option<Stored> {
    match w.operation
    case Insert => Some(Probe(runId, w.cycle, 1))
    case Update => if stored.Some? then Some(Probe(runId, w.cycle, 2)) else None
    case Delete => None
  }

  lemma ApplyHere(server: map<string, Stored>, runId: string, id: string, w: Write)
    ensures Lookup(Apply(server, runId, id, w), id) == StoredAfter(Lookup(server, id), runId, w)
  {
  }

  lemma FocusWrites(cfg: Config, s: State, step: Step, c: nat)
    requires Enabled(cfg, s, step) && Focus(s, step) == Some(c)
    ensures var pc := s.workers[step.worker].pc;
            WritesOf(Next(cfg, s, step).applied, c) ==
            WritesOf(s.applied, c) + (if step.action.ServerApplies? && pc.Calling? then [pc.operation] else [])
  {
    var more := Written(s, step);
    if more == [] {
      assert s.applied + more == s.applied;
    } else {
      WritesAfter(s.applied, more[0], c);
      assert more == [more[0]];
    }
  }

  lemma FocusStored(cfg: Config, s: State, step: Step, c: nat)
    requires Enabled(cfg, s, step) && Focus(s, step) == Some(c)
    ensures Lookup(Next(cfg, s, step).server, IdOf(cfg, c)) == NextView(cfg, s, step, c, ViewOf(cfg, s, c)).stored
  {
    var more := Written(s, step);
    if more != [] {
      ApplyHere(s.server, cfg.header.runId, IdOf(cfg, c), more[0]);
    }
  }

  lemma FocusView(cfg: Config, s: State, step: Step, c: nat)
    requires Enabled(cfg, s, step) && Focus(s, step) == Some(c)
    ensures ViewOf(cfg, Next(cfg, s, step), c) == NextView(cfg, s, step, c, ViewOf(cfg, s, c))
  {
    FocusEvents(cfg, s, step, c);
    FocusWrites(cfg, s, step, c);
    FocusStored(cfg, s, step, c);
  }

  /** The view fits the program counter that now holds the cycle, or is complete if none does. */
  predicate Fits(cfg: Config, pc: Pc, c: nat, v: View) {
    && ViewOk(cfg, c, v)
    && if HeldCycle(pc) == Some(c) then PcFits(cfg, pc, v) else HeldCycle(pc) == None && Complete(c, v)
  }

  lemma AllocationFits(cfg: Config, c: nat, v: View)
    requires ViewOk(cfg, c, v) && PcFits(cfg, Allocating(c), v)
    ensures Fits(cfg, Calling(c, Insert, false), c, v.(events := v.events + [Allocated(TargetForCycle(c))]))
  {
    OneMoreEvent(v.events, Allocated(TargetForCycle(c)), c);
  }

  lemma AckFits(cfg: Config, w: Worker, v: View)
    requires w.pc.Acking? && ViewOk(cfg, w.pc.cycle, v) && PcFits(cfg, w.pc, v)
    ensures Fits(cfg, AfterAck(w).pc, w.pc.cycle,
                 v.(events := v.events + [Acked(w.pc.operation, RevisionOf(w.pc.operation))]))
  {
    var c, event := w.pc.cycle, Acked(w.pc.operation, RevisionOf(w.pc.operation));
    assert Script(c)[|v.events|] == event;
    OneMoreEvent(v.events, event, c);
  }

  lemma WriteFits(cfg: Config, s: State, step: Step, c: nat, v: View)
    requires Enabled(cfg, s, step) && step.action.ServerApplies?
    requires s.workers[step.worker].pc.cycle == c
    requires ViewOk(cfg, c, v) && PcFits(cfg, s.workers[step.worker].pc, v)
    ensures Fits(cfg, NextWorker(s, step).pc, c, NextView(cfg, s, step, c, v))
  {
    var n := |v.writes|;
    assert LIFE[..n + 1] == LIFE[..n] + [LIFE[n]];
    assert LIFE[n] == s.workers[step.worker].pc.operation;
  }

  /** The step's own cycle stays consistent, and fits its worker's new program counter. */
  lemma FocusOk(cfg: Config, s: State, step: Step, c: nat, v: View)
    requires Enabled(cfg, s, step) && Focus(s, step) == Some(c)
    requires ViewOk(cfg, c, v)
    requires step.action.Claim? ==> Untouched(v)
    requires !step.action.Claim? ==> PcFits(cfg, s.workers[step.worker].pc, v)
    ensures Fits(cfg, NextWorker(s, step).pc, c, NextView(cfg, s, step, c, v))
  {
    match step.action
    case AppendAllocation => AllocationFits(cfg, c, v);
    case AppendAck(_) => AckFits(cfg, s.workers[step.worker], v);
    case ServerApplies => WriteFits(cfg, s, step, c, v);
    case _ =>
  }

  lemma WorkerOkKept(cfg: Config, s: State, step: Step)
    requires Enabled(cfg, s, step) && WorkerOk(s.workers[step.worker])
    ensures WorkerOk(NextWorker(s, step))
  {
  }

  lemma NumberedKept(cfg: Config, s: State, step: Step)
    requires Enabled(cfg, s, step) && Numbered(s)
    ensures Numbered(Next(cfg, s, step))
  {
  }

  lemma ForeignKeptKept(cfg: Config, s: State, step: Step)
    requires Enabled(cfg, s, step) && ForeignKept(cfg, s)
    ensures ForeignKept(cfg, Next(cfg, s, step))
  {
    var s' := Next(cfg, s, step);
    forall id | !IsProbeId(cfg, id) ensures Lookup(s'.server, id) == Lookup(s.server, id) {
      var writes := Written(s, step);
      if writes != [] {
        assert IdOf(cfg, writes[0].cycle) != id;
      }
    }
  }

  /** Facts about the focus cycle before the step. */
  lemma FocusBefore(cfg: Config, s: State, step: Step, c: nat)
    requires Enabled(cfg, s, step) && WorkersInv(cfg, s) && CyclesInv(cfg, s) && Focus(s, step) == Some(c)
    ensures ViewOk(cfg, c, ViewOf(cfg, s, c))
    ensures step.action.Claim? ==> Untouched(ViewOf(cfg, s, c))
    ensures !step.action.Claim? ==> c < s.nextCycle && PcFits(cfg, s.workers[step.worker].pc, ViewOf(cfg, s, c))
  {
    assert CycleInv(cfg, s, c);
  }

  lemma HeldOnlyBy(cfg: Config, s: State, step: Step, i: nat, d: nat)
    requires Enabled(cfg, s, step) && WorkersInv(cfg, s)
    requires i < |s.workers| && i != step.worker && HeldCycle(s.workers[i].pc) == Some(d)
    ensures Focus(s, step) != Some(d)
  {
    if i < step.worker {
      assert HeldCycle(s.workers[i].pc) != HeldCycle(s.workers[step.worker].pc);
    } else {
      assert HeldCycle(s.workers[step.worker].pc).Some? ==>
             HeldCycle(s.workers[step.worker].pc) != HeldCycle(s.workers[i].pc);
    }
  }

  lemma WorkerFits(cfg: Config, s: State, step: Step, i: nat, c: nat)
    requires Enabled(cfg, s, step) && WorkersInv(cfg, s) && CyclesInv(cfg, s)
    requires i < |s.workers| && HeldCycle(Next(cfg, s, step).workers[i].pc) == Some(c)
    ensures c < Next(cfg, s, step).nextCycle
    ensures PcFits(cfg, Next(cfg, s, step).workers[i].pc, ViewOf(cfg, Next(cfg, s, step), c))
  {
    if i == step.worker {
      assert Focus(s, step) == Some(c);
      FocusAfter(cfg, s, step, c);
    } else {
      HeldOnlyBy(cfg, s, step, i, c);
      ViewsKept(cfg, s, step, c);
    }
  }

  lemma HoldersDistinct(cfg: Config, s: State, step: Step, i: nat, j: nat)
    requires Enabled(cfg, s, step) && WorkersInv(cfg, s)
    requires i < j < |s.workers| && HeldCycle(Next(cfg, s, step).workers[i].pc).Some?
    ensures HeldCycle(Next(cfg, s, step).workers[i].pc) != HeldCycle(Next(cfg, s, step).workers[j].pc)
  {
    var w, w' := step.worker, NextWorker(s, step);
    assert HeldCycle(w'.pc) == None || HeldCycle(w'.pc) == Focus(s, step);
    if i == w && HeldCycle(s.workers[j].pc).Some? {
      HeldOnlyBy(cfg, s, step, j, HeldCycle(s.workers[j].pc).value);
    } else if j == w {
      HeldOnlyBy(cfg, s, step, i, HeldCycle(s.workers[i].pc).value);
    }
  }

  lemma WorkersKept(cfg: Config, s: State, step: Step)
    requires Enabled(cfg, s, step) && WorkersInv(cfg, s) && CyclesInv(cfg, s)
    ensures WorkersInv(cfg, Next(cfg, s, step))
  {
    var s' := Next(cfg, s, step);
    WorkerOkKept(cfg, s, step);
    forall i, c | 0 <= i < |s'.workers| && HeldCycle(s'.workers[i].pc) == Some(c)
      ensures c < s'.nextCycle && PcFits(cfg, s'.workers[i].pc, ViewOf(cfg, s', c))
    {
      WorkerFits(cfg, s, step, i, c);
    }
    forall i, j | 0 <= i < j < |s'.workers| && HeldCycle(s'.workers[i].pc).Some?
      ensures HeldCycle(s'.workers[i].pc) != HeldCycle(s'.workers[j].pc)
    {
      HoldersDistinct(cfg, s, step, i, j);
    }
  }

  /** The step's own cycle afterwards. */
  lemma FocusAfter(cfg: Config, s: State, step: Step, c: nat)
    requires Enabled(cfg, s, step) && WorkersInv(cfg, s) && CyclesInv(cfg, s) && Focus(s, step) == Some(c)
    ensures Fits(cfg, NextWorker(s, step).pc, c, ViewOf(cfg, Next(cfg, s, step), c))
    ensures c < Next(cfg, s, step).nextCycle
  {
    FocusBefore(cfg, s, step, c);
    FocusView(cfg, s, step, c);
    FocusOk(cfg, s, step, c, ViewOf(cfg, s, c));
  }

  /** A cycle the step does not work on. */
  lemma OtherCycleKept(cfg: Config, s: State, step: Step, c: nat)
    requires Enabled(cfg, s, step) && CycleInv(cfg, s, c) && Focus(s, step) != Some(c)
    ensures CycleInv(cfg, Next(cfg, s, step), c)
  {
    ViewsKept(cfg, s, step, c);
    if Held(s, c) {
      StillHeld(cfg, s, step, c);
    }
  }

  lemma CycleKept(cfg: Config, s: State, step: Step, c: nat)
    requires Enabled(cfg, s, step) && WorkersInv(cfg, s) && CyclesInv(cfg, s)
    ensures CycleInv(cfg, Next(cfg, s, step), c)
  {
    if Focus(s, step) == Some(c) {
      FocusAfter(cfg, s, step, c);
      assert Next(cfg, s, step).workers[step.worker] == NextWorker(s, step);
    } else {
      assert CycleInv(cfg, s, c);
      OtherCycleKept(cfg, s, step, c);
    }
  }

  lemma StillHeld(cfg: Config, s: State, step: Step, c: nat)
    requires Enabled(cfg, s, step) && Held(s, c) && Focus(s, step) != Some(c)
    ensures Held(Next(cfg, s, step), c)
  {
    var i :| 0 <= i < |s.workers| && HeldCycle(s.workers[i].pc) == Some(c);
    assert Next(cfg, s, step).workers[i] == s.workers[i];
  }

  lemma InvKept(cfg: Config, s: State, step: Step)
    requires Inv(cfg, s) && Enabled(cfg, s, step)
    ensures Inv(cfg, Next(cfg, s, step))
  {
    NumberedKept(cfg, s, step);
    WorkersKept(cfg, s, step);
    forall c ensures CycleInv(cfg, Next(cfg, s, step), c) {
      CycleKept(cfg, s, step, c);
    }
    ForeignKeptKept(cfg, s, step);
  }

  /** Every state of every run satisfies the invariant. */
  lemma {:induction false} RunInv(cfg: Config, steps: seq<Step>)
    requires Run(cfg, steps).Some?
    ensures Inv(cfg, Run(cfg, steps).value)
  {
    if steps == [] {
      InitInv(cfg);
    } else {
      var front := steps[..|steps| - 1];
      RunInv(cfg, front);
      InvKept(cfg, Run(cfg, front).value, steps[|steps| - 1]);
    }
  }
}
