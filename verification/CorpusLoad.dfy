/**
 Loading a corpus in batches and naming its rows
 (crates/benchmark/src/ann.rs).  The loader numbers a row by what it has
 counted so far, and it counts what the server reports; row numbers are right
 as long as no report exceeds what was sent.
 */
module CorpusLoad {
  import opened Decimal
  import opened Wrappers

  const U32_BOUND: nat := 0x1_0000_0000

  // ---- Row identifiers ----

  function DatasetId(prefix: string, row: nat): string {
    prefix + ("-" + Padded(row, 10))
  }

  function ParseDatasetId(prefix: string, value: string): Option<nat> {
    if !(prefix <= value) then None
    else
      var rest := value[|prefix|..];
      if rest == "" || rest[0] != '-' then None else ParseUnsigned(rest[1..], U32_BOUND)
  }

  lemma DatasetIdInjective(prefix: string, m: nat, n: nat)
    requires DatasetId(prefix, m) == DatasetId(prefix, n)
    ensures m == n
  {
    PrefixCancels(prefix, "-" + Padded(m, 10), "-" + Padded(n, 10));
    PrefixCancels("-", Padded(m, 10), Padded(n, 10));
    PaddedInjective(m, n, 10);
  }

  function IdsOf(prefix: string): nat -> string {
    (row: nat) => DatasetId(prefix, row)
  }

  ghost predicate Distinct(name: nat -> string) {
    forall m: nat, n: nat :: name(m) == name(n) ==> m == n
  }

  lemma IdsDistinct(prefix: string)
    ensures Distinct(IdsOf(prefix))
  {
    forall m: nat, n: nat | IdsOf(prefix)(m) == IdsOf(prefix)(n) ensures m == n {
      DatasetIdInjective(prefix, m, n);
    }
  }

  ghost predicate NoDash(s: string) {
    forall i :: 0 <= i < |s| ==> s[i] != '-'
  }

  /** The last dash divides a string in one way only. */
  lemma LastDash(p: string, s: string, q: string, t: string)
    requires p + ("-" + s) == q + ("-" + t) && NoDash(s) && NoDash(t)
    ensures p == q && s == t
  {
    var whole := p + ("-" + s);
    assert whole[|p|] == '-' && whole[|q|] == '-';
    assert forall i :: |p| < i < |whole| ==> whole[i] == s[i - |p| - 1];
    assert forall i :: |q| < i < |whole| ==> whole[i] == t[i - |q| - 1];
    assert |p| == |q|;
    assert p == whole[..|p|] && q == whole[..|q|];
    assert s == whole[|p| + 1..] && t == whole[|q| + 1..];
  }

  lemma ParsedShape(prefix: string, value: string)
    requires ParseDatasetId(prefix, value).Some?
    ensures value == prefix + ("-" + value[|prefix|..][1..]) && NoDash(value[|prefix|..][1..])
  {
    var rest := value[|prefix|..];
    assert rest == "-" + rest[1..];
    var digits := if rest[1..] != "" && rest[1] == '+' then rest[2..] else rest[1..];
    assert forall i :: 0 <= i < |digits| ==> IsDigit(digits[i]);
  }

  /** An identifier parses exactly under the prefix it was printed with, and exactly when its row fits in 32 bits. */
  lemma ParsePrinted(prefix: string, other: string, row: nat)
    ensures ParseDatasetId(prefix, DatasetId(other, row))
         == if prefix == other && row < U32_BOUND then Some(row) else None
  {
    var id, digits := DatasetId(other, row), Padded(row, 10);
    assert NoDash(digits);
    ParsePadded(row, 10, U32_BOUND);
    assert id[|other|..] == "-" + digits && ("-" + digits)[1..] == digits;
    if ParseDatasetId(prefix, id).Some? {
      ParsedShape(prefix, id);
      LastDash(prefix, id[|prefix|..][1..], other, digits);
    }
  }

  // ---- Loading ----

  datatype Vector = Vector(id: string, row: nat, embedding: seq<real>)

  type Naming = nat -> string

  type Rows = seq<seq<real>>

  type Batches = seq<seq<Vector>>

  datatype Response = Response(success: bool, inserted: nat, failedIds: nat)

  /** What the server answers to the n-th batch, if the call returns. */
  type Server = (nat, seq<Vector>) -> Option<Response>

  datatype Fault = CallFailed | Inconsistent | SourceUnreadable

  datatype Loaded = Loaded(inserted: nat, failed: nat)

  /** How many inserts the server reports for a batch. */
  function Reported(server: Server, call: nat, batch: seq<Vector>): nat {
    match server(call, batch)
    case Some(response) => response.inserted
    case None => 0
  }

  function Overshoot(reported: nat, sent: nat): nat {
    if reported > sent then reported - sent else 0
  }

  /** The reply is a success that names exactly the rows it did not insert. */
  predicate Accepted(server: Server, call: nat, batch: seq<Vector>) {
    match server(call, batch)
    case None => false
    case Some(response) => response.success && response.failedIds == Overshoot(|batch|, response.inserted)
  }

  /** One batch: what is not reported inserted counts as failed, never less than none. */
  method InsertBatch(server: Server, call: nat, batch: seq<Vector>) returns (result: Result<(nat, nat), Fault>)
    ensures result.Success? <==> Accepted(server, call, batch)
    ensures result.Failure? ==> result.error != SourceUnreadable
    ensures result.Success? ==> result.value.0 == Reported(server, call, batch)
    ensures result.Success? ==> result.value.0 + result.value.1 == |batch| + Overshoot(result.value.0, |batch|)
  {
    var answer := server(call, batch);
    if answer.None? {
      return Failure(CallFailed);
    }
    var response := answer.value;
    var failed := Overshoot(|batch|, response.inserted);
    if !response.success || failed != response.failedIds {
      return Failure(Inconsistent);
    }
    return Success((response.inserted, failed));
  }

  /** How many more rows than were sent the server reports for the first `n` batches. */
  function Excess(server: Server, batches: Batches, n: nat): nat
    requires n <= |batches|
  {
    if n == 0 then 0
    else Excess(server, batches, n - 1) + Overshoot(Reported(server, n - 1, batches[n - 1]), |batches[n - 1]|)
  }

  /** How many rows the server reports inserted over the first `n` batches. */
  function InsertedIn(server: Server, batches: Batches, n: nat): nat
    requires n <= |batches|
  {
    if n == 0 then 0 else InsertedIn(server, batches, n - 1) + Reported(server, n - 1, batches[n - 1])
  }

  /** How many rows of the first `n` batches the replies leave out, batch by batch and never less than none. */
  function LeftOutIn(server: Server, batches: Batches, n: nat): nat
    requires n <= |batches|
  {
    if n == 0 then 0
    else
      var sent, reported := |batches[n - 1]|, Reported(server, n - 1, batches[n - 1]);
      LeftOutIn(server, batches, n - 1) + if reported < sent then sent - reported else 0
  }

  /** How many rows the first `n` batches hold. */
  function Offset(batches: Batches, n: nat): nat
    requires n <= |batches|
  {
    if n == 0 then 0 else Offset(batches, n - 1) + |batches[n - 1]|
  }

  lemma {:induction false} BatchAppended(server: Server, batches: Batches, more: seq<Vector>, n: nat)
    requires n <= |batches|
    ensures Excess(server, batches + [more], n) == Excess(server, batches, n)
    ensures Offset(batches + [more], n) == Offset(batches, n)
    ensures InsertedIn(server, batches + [more], n) == InsertedIn(server, batches, n)
    ensures LeftOutIn(server, batches + [more], n) == LeftOutIn(server, batches, n)
  {
    if n > 0 {
      BatchAppended(server, batches, more, n - 1);
    }
  }

  /** What is reported and what is left out make up what was sent, and the excess. */
  lemma {:induction false} CountsBalance(server: Server, batches: Batches, n: nat)
    requires n <= |batches|
    ensures InsertedIn(server, batches, n) + LeftOutIn(server, batches, n)
         == Offset(batches, n) + Excess(server, batches, n)
  {
    if n > 0 {
      CountsBalance(server, batches, n - 1);
    }
  }

  /** No batch is over-reported exactly when there is no excess. */
  lemma {:induction false} NoExcess(server: Server, batches: Batches, n: nat)
    requires n <= |batches|
    ensures Excess(server, batches, n) == 0
       <==> forall i :: 0 <= i < n ==> Reported(server, i, batches[i]) <= |batches[i]|
  {
    if n > 0 {
      NoExcess(server, batches, n - 1);
    }
  }

  lemma {:induction false} ExcessGrows(server: Server, batches: Batches, m: nat, n: nat)
    requires m <= n <= |batches|
    ensures Excess(server, batches, m) <= Excess(server, batches, n)
  {
    if m < n {
      ExcessGrows(server, batches, m, n - 1);
    }
  }

  /** A source row under the number it was given. */
  function Named(name: Naming, row: nat, embedding: seq<real>): Vector {
    Vector(name(row), row, embedding)
  }

  /** The batch holds the source rows from `start` on, numbered past the excess. */
  ghost predicate Holds(name: Naming, source: Rows, start: nat, excess: nat, batch: seq<Vector>) {
    && start + |batch| <= |source|
    && forall j :: 0 <= j < |batch| ==> batch[j] == Named(name, start + j + excess, source[start + j])
  }

  /** One more row goes into the batch, under the number the counters give. */
  lemma RowTaken(
      name: Naming, source: Rows, start: nat, excess: nat, batch: seq<Vector>, total: Loaded, read: nat)
    requires Holds(name, source, start, excess, batch)
    requires total.inserted + total.failed == start + excess && read == start + |batch| < |source|
    ensures Holds(
      name, source, start, excess, batch + [Named(name, total.inserted + total.failed + |batch|, source[read])])
  {
  }

  /** Each of the first `n` batches holds the rows after those before it, shifted by what those were over-reported. */
  ghost predicate Numbered(name: Naming, source: Rows, server: Server, batches: Batches, n: nat)
    requires n <= |batches|
  {
    n == 0 || (
      && Numbered(name, source, server, batches, n - 1)
      && Holds(name, source, Offset(batches, n - 1), Excess(server, batches, n - 1), batches[n - 1]))
  }

  lemma {:induction false} NumberedAt(name: Naming, source: Rows, server: Server, batches: Batches, n: nat, t: nat)
    requires t < n <= |batches| && Numbered(name, source, server, batches, n)
    ensures Holds(name, source, Offset(batches, t), Excess(server, batches, t), batches[t])
  {
    if t < n - 1 {
      NumberedAt(name, source, server, batches, n - 1, t);
    }
  }

  lemma {:induction false} NumberedLonger(
      name: Naming, source: Rows, server: Server, batches: Batches, batch: seq<Vector>, n: nat)
    requires n <= |batches| && Numbered(name, source, server, batches, n)
    ensures Numbered(name, source, server, batches + [batch], n)
  {
    if n > 0 {
      NumberedLonger(name, source, server, batches, batch, n - 1);
      BatchAppended(server, batches, batch, n - 1);
    }
  }

  ghost predicate FullBatches(batches: Batches, batchSize: nat) {
    forall t :: 0 <= t < |batches| ==> |batches[t]| == batchSize
  }

  /** Full batches, except that the last may be shorter, and none is empty. */
  ghost predicate Batched(batches: Batches, batchSize: nat) {
    batches == [] || (FullBatches(batches[..|batches| - 1], batchSize) && 0 < |batches[|batches| - 1]| <= batchSize)
  }

  ghost predicate AllAccepted(server: Server, batches: Batches, n: nat)
    requires n <= |batches|
  {
    forall i :: 0 <= i < n ==> Accepted(server, i, batches[i])
  }

  /** The counters are what the replies to these batches add up to. */
  ghost predicate Tallied(server: Server, batches: Batches, total: Loaded) {
    && total.inserted == InsertedIn(server, batches, |batches|)
    && total.failed == LeftOutIn(server, batches, |batches|)
  }

  /** The state between two batches. */
  ghost predicate Between(
      name: Naming, source: Rows, batchSize: nat, server: Server, batches: Batches, total: Loaded) {
    && FullBatches(batches, batchSize)
    && Numbered(name, source, server, batches, |batches|)
    && AllAccepted(server, batches, |batches|)
    && Tallied(server, batches, total)
  }

  /** One past the highest number given to a row. */
  function Top(server: Server, batches: Batches): nat {
    if batches == [] then 0 else Offset(batches, |batches|) + Excess(server, batches, |batches| - 1)
  }

  /** What one more batch, full or the last, does to the sums. */
  lemma BatchSent(
      name: Naming, source: Rows, batchSize: nat, server: Server, batches: Batches, total: Loaded, batch: seq<Vector>)
    requires 0 < |batch| <= batchSize && Between(name, source, batchSize, server, batches, total)
    requires Holds(name, source, Offset(batches, |batches|), Excess(server, batches, |batches|), batch)
    ensures var longer, n := batches + [batch], |batches| + 1;
            && Numbered(name, source, server, longer, n) && Batched(longer, batchSize)
            && AllAccepted(server, longer, n - 1)
            && Offset(longer, n) == Offset(batches, n - 1) + |batch|
            && Top(server, longer) == total.inserted + total.failed + |batch|
            && InsertedIn(server, longer, n) == total.inserted + Reported(server, n - 1, batch)
            && LeftOutIn(server, longer, n) == total.failed + Overshoot(|batch|, Reported(server, n - 1, batch))
  {
    CountsBalance(server, batches, |batches|);
    NumberedLonger(name, source, server, batches, batch, |batches|);
    BatchAppended(server, batches, batch, |batches|);
    assert (batches + [batch])[..|batches|] == batches;
  }

  lemma AllFull(batches: Batches, batchSize: nat)
    requires FullBatches(batches, batchSize) && batchSize > 0
    ensures Batched(batches, batchSize)
  {
  }

  /** The batches sent, with every reply accepted except possibly the last. */
  ghost predicate Sending(
      name: Naming, source: Rows, batchSize: nat, server: Server, batches: Batches, result: Result<Loaded, Fault>) {
    && Numbered(name, source, server, batches, |batches|) && Batched(batches, batchSize)
    && match result
       case Success(loaded) =>
         && AllAccepted(server, batches, |batches|)
         && Tallied(server, batches, loaded)
       case Failure(SourceUnreadable) => AllAccepted(server, batches, |batches|)
       case Failure(_) =>
         && batches != [] && AllAccepted(server, batches, |batches| - 1)
         && !Accepted(server, |batches| - 1, batches[|batches| - 1])
  }

  /** Sends a batch and adds up what is reported of it. */
  method Send(
      name: Naming, source: Rows, batchSize: nat, server: Server,
      total: Loaded, batch: seq<Vector>, before: Batches)
    returns (result: Result<Loaded, Fault>, batches: Batches)
    requires 0 < |batch| <= batchSize && Between(name, source, batchSize, server, before, total)
    requires Holds(name, source, Offset(before, |before|), Excess(server, before, |before|), batch)
    ensures batches == before + [batch] && Sending(name, source, batchSize, server, batches, result)
    ensures Offset(batches, |batches|) == Offset(before, |before|) + |batch|
    ensures Top(server, batches) == total.inserted + total.failed + |batch|
    ensures result.Success? && |batch| == batchSize ==>
      Between(name, source, batchSize, server, batches, result.value)
    ensures result != Failure(SourceUnreadable)
  {
    var answer := InsertBatch(server, |before|, batch);
    BatchSent(name, source, batchSize, server, before, total, batch);
    batches := before + [batch];
    if answer.Failure? {
      return Failure(answer.error), batches;
    }
    return Success(Loaded(total.inserted + answer.value.0, total.failed + answer.value.1)), batches;
  }

  /** No number reaches the limit. */
  predicate WithinLimit(limit: Option<nat>, top: nat) {
    limit.Some? ==> top <= limit.value
  }

  /** Nothing is left to send: the source ended, or the counters reached the limit. */
  predicate Complete(source: Rows, limit: Option<nat>, read: nat, counted: nat) {
    read == |source| || (limit.Some? && counted >= limit.value)
  }

  /** Somewhere in the source: the batches sent, and the rows read since then. */
  ghost predicate Loading(
      name: Naming, source: Rows, batchSize: nat, limit: Option<nat>, server: Server,
      batches: Batches, total: Loaded, batch: seq<Vector>, read: nat) {
    && |batch| < batchSize && read == Offset(batches, |batches|) + |batch| <= |source|
    && Between(name, source, batchSize, server, batches, total)
    && Holds(name, source, Offset(batches, |batches|), Excess(server, batches, |batches|), batch)
    && WithinLimit(limit, Top(server, batches))
    && (batch != [] ==> WithinLimit(limit, total.inserted + total.failed + |batch|))
  }

  /** The counters stand at the rows sent plus the excess, so the next number is theirs. */
  lemma NextNumber(
      name: Naming, source: Rows, batchSize: nat, server: Server, batches: Batches, total: Loaded)
    requires Between(name, source, batchSize, server, batches, total)
    ensures total.inserted + total.failed == Offset(batches, |batches|) + Excess(server, batches, |batches|)
  {
    CountsBalance(server, batches, |batches|);
  }

  /**
   Loads the source, at most `limit` rows of it.  `unreadable` says that reading
   fails after the given rows.  Every batch holds source rows in their place,
   numbered past what the server over-reported for the batches before it.
   */
  method LoadNamed(
      name: Naming, source: Rows, unreadable: bool, batchSize: nat, limit: Option<nat>, server: Server)
    returns (result: Result<Loaded, Fault>, batches: Batches)
    requires batchSize > 0
    ensures Sending(name, source, batchSize, server, batches, result)
    ensures WithinLimit(limit, Top(server, batches))
    ensures result.Success? ==>
      Complete(source, limit, Offset(batches, |batches|), result.value.inserted + result.value.failed)
    ensures result == Failure(SourceUnreadable) ==> unreadable
  {
    var total := Loaded(0, 0);
    var batch: seq<Vector> := [];
    var read: nat := 0;
    batches := [];
    while limit.None? || total.inserted + total.failed + |batch| < limit.value
      invariant Loading(name, source, batchSize, limit, server, batches, total, batch, read)
      decreases |source| - read
    {
      if read == |source| {
        if unreadable {
          AllFull(batches, batchSize);
          return Failure(SourceUnreadable), batches;
        }
        break;
      }
      NextNumber(name, source, batchSize, server, batches, total);
      RowTaken(name, source, Offset(batches, |batches|), Excess(server, batches, |batches|), batch, total, read);
      batch := batch + [Named(name, total.inserted + total.failed + |batch|, source[read])];
      read := read + 1;
      if |batch| == batchSize {
        result, batches := Send(name, source, batchSize, server, total, batch, batches);
        if result.Failure? {
          return;
        }
        total, batch := result.value, [];
      }
    }
    if batch == [] {
      AllFull(batches, batchSize);
      return Success(total), batches;
    }
    result, batches := Send(name, source, batchSize, server, total, batch, batches);
    if result.Success? {
      TotalGrows(name, source, batchSize, server, batches, result.value);
    }
  }

  lemma TotalGrows(
      name: Naming, source: Rows, batchSize: nat, server: Server, batches: Batches, loaded: Loaded)
    requires Sending(name, source, batchSize, server, batches, Success(loaded))
    ensures loaded.inserted + loaded.failed >= Top(server, batches)
  {
    CountsBalance(server, batches, |batches|);
    if batches != [] {
      ExcessGrows(server, batches, |batches| - 1, |batches|);
    }
  }

  // ---- Row by row ----

  /** The vectors of the first `n` batches, one after the other. */
  function Sent(batches: Batches, n: nat): (sent: seq<Vector>)
    requires n <= |batches|
    ensures |sent| == Offset(batches, n)
  {
    if n == 0 then [] else Sent(batches, n - 1) + batches[n - 1]
  }

  /** The server reports more for some batch before the last than that batch held. */
  ghost predicate OverReports(server: Server, batches: Batches) {
    exists i :: 0 <= i < |batches| - 1 && Reported(server, i, batches[i]) > |batches[i]|
  }

  ghost predicate InPlace(source: Rows, sent: seq<Vector>) {
    |sent| <= |source| && forall k :: 0 <= k < |sent| ==> sent[k].embedding == source[k]
  }

  ghost predicate OwnNumbers(name: Naming, sent: seq<Vector>) {
    forall k :: 0 <= k < |sent| ==> sent[k].id == name(k)
  }

  lemma JoinedInPlace(name: Naming, source: Rows, excess: nat, sent: seq<Vector>, batch: seq<Vector>)
    requires InPlace(source, sent) && Holds(name, source, |sent|, excess, batch)
    ensures InPlace(source, sent + batch)
  {
  }

  lemma {:induction false} SentInPlace(name: Naming, source: Rows, server: Server, batches: Batches, n: nat)
    requires n <= |batches| && Numbered(name, source, server, batches, n)
    ensures InPlace(source, Sent(batches, n))
  {
    if n > 0 {
      SentInPlace(name, source, server, batches, n - 1);
      JoinedInPlace(name, source, Excess(server, batches, n - 1), Sent(batches, n - 1), batches[n - 1]);
    }
  }

  lemma {:induction false} NoExcessOwnNumbers(
      name: Naming, source: Rows, server: Server, batches: Batches, n: nat)
    requires n <= |batches| && Numbered(name, source, server, batches, n)
    requires n > 0 ==> Excess(server, batches, n - 1) == 0
    ensures OwnNumbers(name, Sent(batches, n))
  {
    if n > 0 {
      if n > 1 {
        ExcessGrows(server, batches, n - 2, n - 1);
      }
      NoExcessOwnNumbers(name, source, server, batches, n - 1);
    }
  }

  /** The first row of the last batch shows any excess before it. */
  lemma ExcessShows(name: Naming, source: Rows, server: Server, batches: Batches)
    requires Distinct(name) && Numbered(name, source, server, batches, |batches|)
    requires batches != [] && batches[|batches| - 1] != [] && Excess(server, batches, |batches| - 1) > 0
    ensures !OwnNumbers(name, Sent(batches, |batches|))
  {
    var last := |batches| - 1;
    var k := Offset(batches, last);
    assert Sent(batches, |batches|)[k] == batches[last][0];
    assert batches[last][0].id == name(k + Excess(server, batches, last));
  }

  /** Every row sent carries its own number exactly when no batch before the last is over-reported. */
  lemma NumberingExact(name: Naming, source: Rows, server: Server, batches: Batches, batchSize: nat)
    requires Distinct(name) && Batched(batches, batchSize)
    requires Numbered(name, source, server, batches, |batches|)
    ensures OwnNumbers(name, Sent(batches, |batches|)) <==> !OverReports(server, batches)
  {
    if batches != [] {
      NoExcess(server, batches, |batches| - 1);
      if Excess(server, batches, |batches| - 1) == 0 {
        NoExcessOwnNumbers(name, source, server, batches, |batches|);
      } else {
        ExcessShows(name, source, server, batches);
      }
    }
  }

  /** A server that never reports more inserts than it was sent. */
  ghost predicate Honest(server: Server) {
    forall call: nat, batch :: Reported(server, call, batch) <= |batch|
  }

  lemma HonestNoExcess(server: Server, batches: Batches, n: nat)
    requires Honest(server) && n <= |batches|
    ensures Excess(server, batches, n) == 0 && !OverReports(server, batches)
  {
    NoExcess(server, batches, n);
  }

  /** A server that inserts every row it is sent. */
  ghost predicate InsertsAll(server: Server) {
    forall call: nat, batch :: Reported(server, call, batch) == |batch|
  }

  lemma {:induction false} AllInserted(server: Server, batches: Batches, n: nat)
    requires InsertsAll(server) && n <= |batches|
    ensures InsertedIn(server, batches, n) == Offset(batches, n) && LeftOutIn(server, batches, n) == 0
  {
    if n > 0 {
      AllInserted(server, batches, n - 1);
    }
  }

  /**
   The loader under a prefix.  For every batch size and limit the rows sent are
   the source rows in order; each carries the identifier of its own number if
   and only if the server over-reports no batch before the last.  With a server
   that never over-reports, a completed load has sent every row up to the limit
   under its own number.  The reported counts are the sums over the replies.
   */
  method LoadTrain(
      prefix: string, source: Rows, unreadable: bool, batchSize: nat, limit: Option<nat>, server: Server)
    returns (result: Result<Loaded, Fault>, batches: Batches)
    requires batchSize > 0
    ensures Sending(IdsOf(prefix), source, batchSize, server, batches, result)
    ensures InPlace(source, Sent(batches, |batches|))
    ensures OwnNumbers(IdsOf(prefix), Sent(batches, |batches|)) <==> !OverReports(server, batches)
    ensures Honest(server) ==> OwnNumbers(IdsOf(prefix), Sent(batches, |batches|))
    ensures Honest(server) && result.Success? ==>
      && |Sent(batches, |batches|)| == (if limit.Some? && limit.value <= |source| then limit.value else |source|)
      && result.value.inserted + result.value.failed == |Sent(batches, |batches|)|
    ensures result.Success? ==>
      && result.value.inserted == InsertedIn(server, batches, |batches|)
      && result.value.failed == LeftOutIn(server, batches, |batches|)
    ensures InsertsAll(server) && result.Success? ==> result.value == Loaded(|Sent(batches, |batches|)|, 0)
    ensures result == Failure(SourceUnreadable) ==> unreadable
  {
    var name := IdsOf(prefix);
    IdsDistinct(prefix);
    result, batches := LoadNamed(name, source, unreadable, batchSize, limit, server);
    SentInPlace(name, source, server, batches, |batches|);
    NumberingExact(name, source, server, batches, batchSize);
    CountsBalance(server, batches, |batches|);
    if InsertsAll(server) {
      AllInserted(server, batches, |batches|);
    }
    if Honest(server) {
      HonestNoExcess(server, batches, |batches|);
      HonestNoExcess(server, batches, if batches == [] then 0 else |batches| - 1);
    }
  }

  /** Reports two inserts for the first batch, and every later batch as it is. */
  function BoastfulServer(): Server {
    (call: nat, batch: seq<Vector>) => Some(Response(true, if call == 0 then 2 else |batch|, 0))
  }

  /** One run of the loader, over two rows in batches of one: the second row is called number 2. */
  method OverReportRun(prefix: string) returns (batches: Batches)
    ensures batches == [[Named(IdsOf(prefix), 0, [0.0])], [Named(IdsOf(prefix), 2, [1.0])]]
  {
    var name, source := IdsOf(prefix), [[0.0], [1.0]];
    var result;
    result, batches := LoadNamed(name, source, false, 1, None, BoastfulServer());
    BoastAccepted(batches);
    TwoOnes(name, source, batches);
  }

  lemma OnesEach(batches: Batches, i: nat)
    requires Batched(batches, 1) && i < |batches|
    ensures |batches[i]| == 1
  {
    if i < |batches| - 1 {
      assert batches[..|batches| - 1][i] == batches[i];
    }
  }

  lemma BoastAccepted(batches: Batches)
    requires Batched(batches, 1)
    ensures forall i :: 0 <= i < |batches| ==> Accepted(BoastfulServer(), i, batches[i])
  {
    forall i: nat | i < |batches| ensures Accepted(BoastfulServer(), i, batches[i]) {
      OnesEach(batches, i);
    }
  }

  lemma {:induction false} OnesOffset(batches: Batches, n: nat)
    requires Batched(batches, 1) && n <= |batches|
    ensures Offset(batches, n) == n
  {
    if n > 0 {
      OnesOffset(batches, n - 1);
      OnesEach(batches, n - 1);
    }
  }

  /** The contract of the loader leaves one possibility for two rows in batches of one. */
  lemma TwoOnes(name: Naming, source: Rows, batches: Batches)
    requires source == [[0.0], [1.0]] && Batched(batches, 1) && Offset(batches, |batches|) == 2
    requires Numbered(name, source, BoastfulServer(), batches, |batches|)
    ensures batches == [[Named(name, 0, [0.0])], [Named(name, 2, [1.0])]]
  {
    OnesOffset(batches, |batches|);
    OnesEach(batches, 0);
    OnesEach(batches, 1);
    NumberedAt(name, source, BoastfulServer(), batches, 2, 0);
    NumberedAt(name, source, BoastfulServer(), batches, 2, 1);
    assert Offset(batches, 1) == 1 && Excess(BoastfulServer(), batches, 1) == 1;
    assert batches[0] == [batches[0][0]] && batches[1] == [batches[1][0]];
  }
}
