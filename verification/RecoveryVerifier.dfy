/**
 The verifier that runs after the server restarts: it compares what each
 journaled cycle may have become with what the server returns, then deletes the
 probe records.  Vectors are exact reals; the 64-bit wrap-around of the probe
 arithmetic is explicit.
 */
module RecoveryVerifier {
  import opened Wrappers
  import opened RecoveryJournal
  import opened RecoveryProtocol
  import Counting

  // ----- Which observed state is explainable -----

  /** The acceptance table: (accepted, one step ahead of the last acknowledgement). */
  function StateIsAccepted(state: CycleState, actual: Option<nat>): (bool, bool) {
    match (state.lastAck, state.target, actual)
    case (None, _, None) => (true, false)
    case (None, _, Some(1)) => (true, true)
    case (Some(Insert), Inserted, Some(1)) => (true, false)
    case (Some(Insert), Updated, Some(1)) => (true, false)
    case (Some(Insert), Deleted, Some(1)) => (true, false)
    case (Some(Insert), Updated, Some(2)) => (true, true)
    case (Some(Insert), Deleted, Some(2)) => (true, true)
    case (Some(Update), Updated, Some(2)) => (true, false)
    case (Some(Update), Deleted, Some(2)) => (true, false)
    case (Some(Update), Deleted, None) => (true, true)
    case (Some(Delete), Deleted, None) => (true, false)
    case _ => (false, false)
  }

  /** The server applied `position` operations, at most one more than acknowledged. */
  predicate ExplainedBy(state: CycleState, actual: Option<nat>, position: nat) {
    && AckRank(state.lastAck) <= position <= AckRank(state.lastAck) + 1
    && position <= Steps(state.target)
    && actual == ObservedAt(position)
  }

  /** The table accepts exactly the explainable states, and flags exactly the advanced ones. */
  lemma AcceptanceExact(state: CycleState, actual: Option<nat>)
    ensures var ack := AckRank(state.lastAck);
            && (StateIsAccepted(state, actual).0 <==>
                  ExplainedBy(state, actual, ack) || ExplainedBy(state, actual, ack + 1))
            && (StateIsAccepted(state, actual).1 <==> ExplainedBy(state, actual, ack + 1))
            && !(ExplainedBy(state, actual, ack) && ExplainedBy(state, actual, ack + 1))
  {
  }

  /**
   A server that lost acknowledged writes and went back to `position` is
   rejected, unless the record is absent on a cycle that ends in deletion and
   its update was acknowledged: then a delete explains the absence.
   */
  lemma LostWriteRejected(state: CycleState, position: nat)
    requires AckRank(state.lastAck) <= Steps(state.target)
    requires position < AckRank(state.lastAck)
    ensures StateIsAccepted(state, ObservedAt(position)).0 <==>
            position == 0 && state.target == Deleted && AckRank(state.lastAck) >= 2
  {
    AcceptanceExact(state, ObservedAt(position));
  }

  // ----- Probe vectors -----

  const WORD := 0x1_0000_0000_0000_0000
  const TOLERANCE := 0.000001

  function ProbeNumber(index: nat, cycle: nat, revision: nat): (n: nat)
    ensures n < 10_000
  {
    Wrap(Wrap(Wrap(cycle * 31) + Wrap(index * 17)) + revision * 13) % 10_000
  }

  function Wrap(n: nat): nat {
    n % WORD
  }

  lemma WrapSmall(n: nat)
    requires n < WORD
    ensures Wrap(n) == n
  {
  }

  function ProbeVector(dimensions: nat, cycle: nat, revision: nat): (v: seq<real>)
    ensures |v| == dimensions
  {
    seq(dimensions, i requires 0 <= i => ProbeNumber(i, cycle, revision) as real / 10_000.0)
  }

  function Distance(a: real, b: real): real {
    if a >= b then a - b else b - a
  }

  predicate VectorMatches(actual: seq<real>, expected: seq<real>) {
    && |actual| == |expected|
    && forall i :: 0 <= i < |actual| ==> Distance(actual[i], expected[i]) <= TOLERANCE
  }

  /** No intermediate sum wraps: true of every cycle below the tool's limit. */
  predicate InRange(dimensions: nat, cycle: nat, revision: nat) {
    cycle * 31 + dimensions * 17 + revision * 13 < WORD
  }

  lemma NumberInRange(dimensions: nat, i: nat, cycle: nat, revision: nat)
    requires InRange(dimensions, cycle, revision) && i < dimensions
    ensures ProbeNumber(i, cycle, revision) == (cycle * 31 + i * 17 + revision * 13) % 10_000
  {
    assert i * 17 <= dimensions * 17;
    WrapSmall(cycle * 31);
    WrapSmall(i * 17);
    WrapSmall(cycle * 31 + i * 17);
    WrapSmall(cycle * 31 + i * 17 + revision * 13);
  }

  /** Within the limits of the tool, a coordinate is the fraction of a sum of cycle, index and revision. */
  lemma ProbeVectorAt(dimensions: nat, i: nat, cycle: nat, revision: nat) returns (whole: nat)
    requires i < dimensions <= 16_384 && cycle <= 1_000_000 && revision <= 2
    ensures InRange(dimensions, cycle, revision)
    ensures var v := ProbeVector(dimensions, cycle, revision)[i];
            0.0 <= v < 1.0 && 10_000.0 * (whole as real + v) == (31 * cycle + 17 * i + 13 * revision) as real
  {
    NumberInRange(dimensions, i, cycle, revision);
    whole := FractionOf(31 * cycle + 17 * i + 13 * revision);
  }

  lemma FractionOf(n: nat) returns (whole: nat)
    ensures var v := (n % 10_000) as real / 10_000.0;
            0.0 <= v < 1.0 && 10_000.0 * (whole as real + v) == n as real
  {
    whole := n / 10_000;
    assert n == 10_000 * whole + n % 10_000;
    assert n as real == (10_000 * whole) as real + (n % 10_000) as real;
  }

  /** A vector of which one coordinate was moved still matches exactly up to the tolerance, and no shorter one does. */
  lemma MatchBoundary(v: seq<real>, i: nat, shift: real)
    requires i < |v|
    ensures VectorMatches(v[i := v[i] + shift], v) <==> -0.000001 <= shift <= 0.000001
    ensures !VectorMatches(v[..i], v) && !VectorMatches(v, v[..i])
  {
    var moved := v[i := v[i] + shift];
    assert moved[i] == v[i] + shift;
  }

  lemma CloseIsEqual(m: nat, n: nat)
    ensures Distance(m as real / 10_000.0, n as real / 10_000.0) <= TOLERANCE <==> m == n
  {
    if m < n {
      assert n as real - m as real >= 1.0;
    } else if n < m {
      assert m as real - n as real >= 1.0;
    }
  }

  lemma SameResidue(a: int, b: int, shift: int)
    ensures (a + shift) % 10_000 == (b + shift) % 10_000 <==> (a - b) % 10_000 == 0
  {
    var qa, qb := (a + shift) / 10_000, (b + shift) / 10_000;
    assert a + shift == qa * 10_000 + (a + shift) % 10_000;
    assert b + shift == qb * 10_000 + (b + shift) % 10_000;
    if (a + shift) % 10_000 == (b + shift) % 10_000 {
      assert a - b == (qa - qb) * 10_000;
    }
    if (a - b) % 10_000 == 0 {
      var q := (a - b) / 10_000;
      assert a + shift == (qb + q) * 10_000 + (b + shift) % 10_000;
    }
  }

  /** The combination of cycle and revision difference the generator cannot tell apart. */
  predicate Indistinct(c: nat, r: nat, d: nat, q: nat) {
    (31 * (c - d) + 13 * (r - q)) % 10_000 == 0
  }

  lemma NumbersMatch(dimensions: nat, i: nat, c: nat, r: nat, d: nat, q: nat)
    requires i < dimensions && InRange(dimensions, c, r) && InRange(dimensions, d, q)
    ensures ProbeNumber(i, c, r) == ProbeNumber(i, d, q) <==> Indistinct(c, r, d, q)
  {
    NumberInRange(dimensions, i, c, r);
    NumberInRange(dimensions, i, d, q);
    SameResidue(c * 31 + r * 13, d * 31 + q * 13, i * 17);
    assert c * 31 + r * 13 - (d * 31 + q * 13) == 31 * (c - d) + 13 * (r - q);
  }

  lemma EntriesMatch(dimensions: nat, i: nat, c: nat, r: nat, d: nat, q: nat)
    requires i < dimensions && InRange(dimensions, c, r) && InRange(dimensions, d, q)
    ensures Distance(ProbeVector(dimensions, c, r)[i], ProbeVector(dimensions, d, q)[i]) <= TOLERANCE <==>
            Indistinct(c, r, d, q)
  {
    NumbersMatch(dimensions, i, c, r, d, q);
    CloseIsEqual(ProbeNumber(i, c, r), ProbeNumber(i, d, q));
  }

  /**
   Two in-range probe vectors match exactly when the cycles and revisions agree
   modulo 10000 in the combination the generator uses.
   */
  lemma ProbeVectorsMatch(dimensions: nat, c: nat, r: nat, d: nat, q: nat)
    requires dimensions >= 1 && InRange(dimensions, c, r) && InRange(dimensions, d, q)
    ensures VectorMatches(ProbeVector(dimensions, c, r), ProbeVector(dimensions, d, q)) <==>
            Indistinct(c, r, d, q)
  {
    forall i | 0 <= i < dimensions
      ensures Distance(ProbeVector(dimensions, c, r)[i], ProbeVector(dimensions, d, q)[i]) <= TOLERANCE <==>
              Indistinct(c, r, d, q)
    {
      EntriesMatch(dimensions, i, c, r, d, q);
    }
    EntriesMatch(dimensions, 0, c, r, d, q);
  }

  /** The two revisions of one cycle are never confused; equal revisions collide every 10000 cycles. */
  lemma RevisionsNeverMatch(dimensions: nat, c: nat, d: nat, r: nat)
    requires dimensions >= 1 && 1 <= r <= 2
    requires InRange(dimensions, c, 2) && InRange(dimensions, d, 2)
    ensures !VectorMatches(ProbeVector(dimensions, c, 1), ProbeVector(dimensions, c, 2))
    ensures VectorMatches(ProbeVector(dimensions, c, r), ProbeVector(dimensions, d, r)) <==> (c - d) % 10_000 == 0
  {
    ProbeVectorsMatch(dimensions, c, 1, c, 2);
    ProbeVectorsMatch(dimensions, c, r, d, r);
    ThirtyOneIsUnit(c - d);
  }

  lemma MultipleIsZero(x: int, k: int)
    requires x == 10_000 * k
    ensures x % 10_000 == 0
  {
  }

  lemma ThirtyOneIsUnit(x: int)
    ensures (31 * x) % 10_000 == 0 <==> x % 10_000 == 0
  {
    if (31 * x) % 10_000 == 0 {
      // 3871 is the inverse of 31
      var q := (31 * x) / 10_000;
      assert 31 * x == 10_000 * q;
      MultipleIsZero(x, 3871 * q - 12 * x);
    }
    if x % 10_000 == 0 {
      MultipleIsZero(31 * x, 31 * (x / 10_000));
    }
  }

  // ----- One Get per journaled cycle -----

  datatype Metadata =
    | Unreadable
    | Metadata(recoveryProbe: bool, runId: string, cycle: nat, revision: nat)

  datatype GetResponse = Unanswered | NotFound | Found(metadata: Metadata, vector: seq<real>)

  function MetadataRevision(m: Metadata, runId: string, cycle: nat): Option<nat> {
    if m.Unreadable? || !m.recoveryProbe || m.runId != runId || m.cycle != cycle then None
    else if m.revision != 1 && m.revision != 2 then None
    else Some(m.revision)
  }

  datatype Failure =
    | GetFailed(cycle: nat)
    | BadMetadata(cycle: nat)
    | VectorDiffers(cycle: nat)
    | NotAccepted(cycle: nat)

  /** What the acceptance table is asked about a found or missing record. */
  function ActualRevision(header: JournalHeader, cycle: nat, response: GetResponse): Option<nat> {
    if response.Found? then MetadataRevision(response.metadata, header.runId, cycle) else None
  }

  predicate Verified(header: JournalHeader, cycle: nat, state: CycleState, response: GetResponse) {
    !response.Unanswered? && StateIsAccepted(state, ActualRevision(header, cycle, response)).0
  }

  predicate Advanced(header: JournalHeader, cycle: nat, state: CycleState, response: GetResponse) {
    !response.Unanswered? && StateIsAccepted(state, ActualRevision(header, cycle, response)).1
  }

  /** The fields of a probe record of this run and cycle, at one of its two revisions. */
  predicate OwnFields(header: JournalHeader, cycle: nat, metadata: Metadata, revision: nat) {
    metadata == Metadata(true, header.runId, cycle, revision) && 1 <= revision <= 2
  }

  /** The verifier sees a revision exactly in a found record that is this run's, of this cycle; nothing otherwise. */
  lemma ObservedExactly(header: JournalHeader, cycle: nat, response: GetResponse, revision: nat)
    ensures ActualRevision(header, cycle, response) == Some(revision) <==>
      response.Found? && OwnFields(header, cycle, response.metadata, revision)
  {
  }

  /**
   The answer is one the crash boundary explains: a record of this run and cycle
   with the vector of its revision, or no record, at a position between the last
   acknowledgement and one step beyond.
   */
  ghost predicate Explained(header: JournalHeader, cycle: nat, state: CycleState, response: GetResponse) {
    match response
    case Unanswered => false
    case NotFound => exists p :: ExplainedBy(state, None, p)
    case Found(metadata, vector) =>
      exists revision, p ::
        && OwnFields(header, cycle, metadata, revision)
        && VectorMatches(vector, ProbeVector(header.dimensions, cycle, revision))
        && ExplainedBy(state, Some(revision), p)
  }

  lemma AcceptedExplained(state: CycleState, actual: Option<nat>)
    ensures StateIsAccepted(state, actual).0 <==> exists p :: ExplainedBy(state, actual, p)
  {
    AcceptanceExact(state, actual);
    if p :| ExplainedBy(state, actual, p) {
      assert p == AckRank(state.lastAck) || p == AckRank(state.lastAck) + 1;
    }
  }

  /** What counts as verified and as advanced: an answer, at a position the last acknowledgement explains. */
  lemma CountedExactly(header: JournalHeader, cycle: nat, state: CycleState, response: GetResponse)
    ensures var actual, ack := ActualRevision(header, cycle, response), AckRank(state.lastAck);
            && (Verified(header, cycle, state, response) <==>
                  response != Unanswered && exists p :: ExplainedBy(state, actual, p))
            && (Advanced(header, cycle, state, response) <==>
                  response != Unanswered && ExplainedBy(state, actual, ack + 1))
  {
    AcceptedExplained(state, ActualRevision(header, cycle, response));
    AcceptanceExact(state, ActualRevision(header, cycle, response));
  }

  /** The checks of one answer pass exactly when it is explained. */
  lemma PassesExactly(header: JournalHeader, cycle: nat, state: CycleState, response: GetResponse)
    ensures Genuine(header, cycle, response) && Verified(header, cycle, state, response) <==>
      Explained(header, cycle, state, response)
  {
    AcceptedExplained(state, ActualRevision(header, cycle, response));
    if response.Found? {
      var actual := ActualRevision(header, cycle, response);
      if actual.Some? {
        ObservedExactly(header, cycle, response, actual.value);
      }
      forall revision: nat | OwnFields(header, cycle, response.metadata, revision) ensures actual == Some(revision) {
        ObservedExactly(header, cycle, response, revision);
      }
    }
  }

  /** The response is internally sound: a found record carries its own metadata and vector. */
  predicate Genuine(header: JournalHeader, cycle: nat, response: GetResponse) {
    match response
    case Unanswered => false
    case NotFound => true
    case Found(metadata, vector) =>
      var revision := MetadataRevision(metadata, header.runId, cycle);
      revision.Some? && VectorMatches(vector, ProbeVector(header.dimensions, cycle, revision.value))
  }

  function FailuresOf(header: JournalHeader, cycle: nat, state: CycleState, response: GetResponse)
    : (failures: seq<Failure>)
    ensures failures == [] <==>
            Genuine(header, cycle, response) && Verified(header, cycle, state, response)
  {
    if response.Unanswered? then [GetFailed(cycle)]
    else
      ContentFailures(header, cycle, response) +
      (if Verified(header, cycle, state, response) then [] else [NotAccepted(cycle)])
  }

  function ContentFailures(header: JournalHeader, cycle: nat, response: GetResponse): (failures: seq<Failure>)
    requires !response.Unanswered?
    ensures failures == [] <==> Genuine(header, cycle, response)
  {
    if !response.Found? then []
    else
      var actual := ActualRevision(header, cycle, response);
      if actual.None? then [BadMetadata(cycle)]
      else if VectorMatches(response.vector, ProbeVector(header.dimensions, cycle, actual.value)) then []
      else [VectorDiffers(cycle)]
  }

  /** The keys of the ordered map, ascending. */
  ghost predicate Enumerates(order: seq<nat>, keys: set<nat>) {
    && Ascending(order)
    && (forall c :: c in order <==> c in keys)
  }

  datatype CheckResult = CheckResult(verified: nat, advances: nat, failures: seq<Failure>)

  /** What one Get contributes to the result. */
  datatype CycleOutcome = CycleOutcome(verified: bool, advanced: bool, failures: seq<Failure>)

  function CheckOne(header: JournalHeader, cycle: nat, state: CycleState, response: GetResponse): CycleOutcome {
    CycleOutcome(
      Verified(header, cycle, state, response),
      Advanced(header, cycle, state, response),
      FailuresOf(header, cycle, state, response))
  }

  function VerifiedIn(outcome: map<nat, CycleOutcome>): set<nat> {
    set c | c in outcome && outcome[c].verified
  }

  function AdvancedIn(outcome: map<nat, CycleOutcome>): set<nat> {
    set c | c in outcome && outcome[c].advanced
  }

  /** The check loop of the verifier, over the outcomes of the single checks. */
  method CollectOutcomes(order: seq<nat>, outcome: map<nat, CycleOutcome>) returns (result: CheckResult)
    requires Enumerates(order, outcome.Keys)
    ensures result.verified == |VerifiedIn(outcome)|
    ensures result.advances == |AdvancedIn(outcome)|
    ensures result.failures == [] <==> forall c :: c in outcome ==> outcome[c].failures == []
  {
    var verified, advances := 0, 0;
    var failures: seq<Failure> := [];
    ghost var ok, ahead := VerifiedIn(outcome), AdvancedIn(outcome);
    for i := 0 to |order|
      invariant verified == CountOf(order, i, ok) && advances == CountOf(order, i, ahead)
      invariant failures == [] <==> forall j :: 0 <= j < i ==> outcome[order[j]].failures == []
    {
      var one := outcome[order[i]];
      failures := failures + one.failures;
      if one.verified {
        verified := verified + 1;
      }
      if one.advanced {
        advances := advances + 1;
      }
    }
    CountOfAll(order, ok);
    CountOfAll(order, ahead);
    assert forall c :: c in outcome ==> exists j :: 0 <= j < |order| && order[j] == c;
    result := CheckResult(verified, advances, failures);
  }

  predicate Ascending(order: seq<nat>) {
    forall i, j :: 0 <= i < j < |order| ==> order[i] < order[j]
  }

  /** How many of the first `i` cycles of the order are marked. */
  function CountOf(order: seq<nat>, i: nat, marked: set<nat>): nat
    requires i <= |order|
  {
    if i == 0 then 0 else CountOf(order, i - 1, marked) + (if order[i - 1] in marked then 1 else 0)
  }

  lemma {:induction false} CountOfFirst(order: seq<nat>, i: nat, marked: set<nat>, counted: set<nat>)
    requires i <= |order| && Ascending(order)
    requires counted <= marked && forall c :: c in marked ==> (c in counted <==> c in order[..i])
    ensures CountOf(order, i, marked) == |counted|
  {
    if i == 0 {
      assert counted == {};
    } else {
      var c := order[i - 1];
      assert order[..i] == order[..i - 1] + [c];
      CountOfFirst(order, i - 1, marked, counted - {c});
    }
  }

  lemma CountOfAll(order: seq<nat>, marked: set<nat>)
    requires Ascending(order) && forall c :: c in marked ==> c in order
    ensures CountOf(order, |order|, marked) == |marked|
  {
    assert order[..|order|] == order;
    CountOfFirst(order, |order|, marked, marked);
  }

  /** The cycles whose answered Get the acceptance table accepts. */
  function VerifiedCycles(header: JournalHeader, cycles: map<nat, CycleState>, get: nat -> GetResponse): set<nat> {
    set c | c in cycles && Verified(header, c, cycles[c], get(c))
  }

  /** The cycles found one step ahead of their last acknowledgement. */
  function AdvancedCycles(header: JournalHeader, cycles: map<nat, CycleState>, get: nat -> GetResponse): set<nat> {
    set c | c in cycles && Advanced(header, c, cycles[c], get(c))
  }

  /** One Get per journaled cycle, in key order. */
  method CheckCycles(header: JournalHeader, cycles: map<nat, CycleState>, order: seq<nat>, get: nat -> GetResponse)
    returns (result: CheckResult)
    requires Enumerates(order, cycles.Keys)
    ensures result.verified == |VerifiedCycles(header, cycles, get)|
    ensures result.advances == |AdvancedCycles(header, cycles, get)|
    ensures result.failures == [] <==> forall c :: c in cycles ==> Explained(header, c, cycles[c], get(c))
  {
    forall c | c in cycles
      ensures FailuresOf(header, c, cycles[c], get(c)) == [] <==> Explained(header, c, cycles[c], get(c))
    {
      PassesExactly(header, c, cycles[c], get(c));
    }
    var outcome := map c | c in cycles :: CheckOne(header, c, cycles[c], get(c));
    assert outcome.Keys == cycles.Keys;
    result := CollectOutcomes(order, outcome);
    assert VerifiedIn(outcome) == VerifiedCycles(header, cycles, get);
    assert AdvancedIn(outcome) == AdvancedCycles(header, cycles, get);
    assert forall c :: c in cycles ==> outcome[c].failures == FailuresOf(header, c, cycles[c], get(c));
  }

  /**
   The verifier's count is exact: when every Get is answered, all cycles are
   verified exactly when each observation is explained by a position between
   the last acknowledgement and one step beyond it.
   */
  lemma VerifiedAllExact(header: JournalHeader, cycles: map<nat, CycleState>, get: nat -> GetResponse)
    requires forall c :: c in cycles ==> !get(c).Unanswered?
    ensures |VerifiedCycles(header, cycles, get)| == |cycles| <==>
            forall c :: c in cycles ==>
              exists p :: ExplainedBy(cycles[c], ActualRevision(header, c, get(c)), p)
  {
    var ok := VerifiedCycles(header, cycles, get);
    forall c | c in cycles
      ensures c in ok <==> exists p :: ExplainedBy(cycles[c], ActualRevision(header, c, get(c)), p)
    {
      var actual := ActualRevision(header, c, get(c));
      AcceptanceExact(cycles[c], actual);
      if p :| ExplainedBy(cycles[c], actual, p) {
        assert p == AckRank(cycles[c].lastAck) || p == AckRank(cycles[c].lastAck) + 1;
      }
    }
    assert ok <= cycles.Keys;
    if |ok| == |cycles| {
      SameSize(ok, cycles.Keys);
    }
    if forall c :: c in cycles ==> c in ok {
      assert ok == cycles.Keys;
    }
  }

  lemma SameSize(small: set<nat>, large: set<nat>)
    requires small <= large && |small| == |large|
    ensures small == large
  {
    if x :| x in large && x !in small {
      Counting.SubsetSize(small + {x}, large);
    }
  }

  // ----- Cleanup -----

  class ProbeServer {
    var store: map<string, Stored>

    constructor (store: map<string, Stored>)
      ensures this.store == store
    {
      this.store := store;
    }
  }

  /**
   What comes of one delete request: a consistent confirmation, or an error, a
   lost reply or an inconsistent reply, with the record deleted or not.
   */
  datatype Delivery = Confirmed | Failed(applied: bool)

  predicate TakesEffect(delivery: Delivery) {
    delivery.Confirmed? || delivery.applied
  }

  /** The identifiers whose delete requests took effect. */
  function DeletedIds(prefix: string, cycles: set<nat>, delivery: nat -> Delivery): set<string> {
    set c | c in cycles && TakesEffect(delivery(c)) :: ProbeId(prefix, c)
  }

  function StoredCycles(store: map<string, Stored>, prefix: string, cycles: set<nat>, delivery: nat -> Delivery)
    : set<nat>
  {
    set c | c in cycles && delivery(c).Confirmed? && ProbeId(prefix, c) in store
  }

  function UnconfirmedCycles(cycles: set<nat>, delivery: nat -> Delivery): set<nat> {
    set c | c in cycles && !delivery(c).Confirmed?
  }

  /** The server's records after the first `i` delete requests. */
  function StoreAfter(store: map<string, Stored>, prefix: string, order: seq<nat>, i: nat, delivery: nat -> Delivery)
    : map<string, Stored>
    requires i <= |order|
  {
    if i == 0 then store
    else
      var before := StoreAfter(store, prefix, order, i - 1, delivery);
      if TakesEffect(delivery(order[i - 1])) then before - {ProbeId(prefix, order[i - 1])} else before
  }

  lemma {:induction false} StoredAfterDeletes(
    store: map<string, Stored>, prefix: string, order: seq<nat>, i: nat, delivery: nat -> Delivery, id: string)
    requires i <= |order|
    ensures Lookup(StoreAfter(store, prefix, order, i, delivery), id) ==
            if exists j :: 0 <= j < i && TakesEffect(delivery(order[j])) && ProbeId(prefix, order[j]) == id
            then None else Lookup(store, id)
  {
    if i > 0 {
      StoredAfterDeletes(store, prefix, order, i - 1, delivery, id);
    }
  }

  /** A cycle not deleted yet is stored exactly if it was at the start. */
  lemma StillStored(store: map<string, Stored>, prefix: string, order: seq<nat>, i: nat, delivery: nat -> Delivery)
    requires i < |order| && Ascending(order)
    ensures ProbeId(prefix, order[i]) in StoreAfter(store, prefix, order, i, delivery) <==>
            ProbeId(prefix, order[i]) in store
  {
    var id := ProbeId(prefix, order[i]);
    StoredAfterDeletes(store, prefix, order, i, delivery, id);
    forall j | 0 <= j < i ensures ProbeId(prefix, order[j]) != id {
      if ProbeId(prefix, order[j]) == id {
        ProbeIdInjective(prefix, order[j], order[i]);
      }
    }
  }

  lemma AllDeleted(
    store: map<string, Stored>, prefix: string, order: seq<nat>, cycles: set<nat>, delivery: nat -> Delivery)
    requires Enumerates(order, cycles)
    ensures StoreAfter(store, prefix, order, |order|, delivery) == store - DeletedIds(prefix, cycles, delivery)
  {
    var left := StoreAfter(store, prefix, order, |order|, delivery);
    var right := store - DeletedIds(prefix, cycles, delivery);
    forall id ensures Lookup(left, id) == Lookup(right, id) {
      StoredAfterDeletes(store, prefix, order, |order|, delivery, id);
      if id in DeletedIds(prefix, cycles, delivery) {
        var c :| c in cycles && TakesEffect(delivery(c)) && ProbeId(prefix, c) == id;
        assert c in order;
      }
    }
    SameLookups(left, right);
  }

  lemma SameLookups(a: map<string, Stored>, b: map<string, Stored>)
    requires forall id :: Lookup(a, id) == Lookup(b, id)
    ensures a == b
  {
    forall id ensures id in a <==> id in b {
      assert Lookup(a, id) == Lookup(b, id);
    }
    forall id | id in a ensures a[id] == b[id] {
      assert Lookup(a, id) == Lookup(b, id);
    }
  }

  /** Deletes every journaled cycle and counts the records that were still there. */
  method Cleanup(server: ProbeServer, prefix: string, cycles: set<nat>, order: seq<nat>, delivery: nat -> Delivery)
    returns (deleted: nat, failed: nat)
    requires Enumerates(order, cycles)
    modifies server
    ensures server.store == old(server.store) - DeletedIds(prefix, cycles, delivery)
    ensures deleted == |StoredCycles(old(server.store), prefix, cycles, delivery)|
    ensures failed == |UnconfirmedCycles(cycles, delivery)|
  {
    deleted, failed := 0, 0;
    ghost var before := server.store;
    ghost var hit, lost := StoredCycles(before, prefix, cycles, delivery), UnconfirmedCycles(cycles, delivery);
    for i := 0 to |order|
      invariant server.store == StoreAfter(before, prefix, order, i, delivery)
      invariant deleted == CountOf(order, i, hit) && failed == CountOf(order, i, lost)
    {
      var cycle := order[i];
      var id := ProbeId(prefix, cycle);
      StillStored(before, prefix, order, i, delivery);
      var present := id in server.store;
      if TakesEffect(delivery(cycle)) {
        server.store := server.store - {id};
      }
      if !delivery(cycle).Confirmed? {
        failed := failed + 1;
      } else if present {
        deleted := deleted + 1;
      }
    }
    AllDeleted(before, prefix, order, cycles, delivery);
    CountOfAll(order, hit);
    CountOfAll(order, lost);
  }
}
