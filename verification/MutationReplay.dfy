/**
 The restore oracle's replay of canonical records
 (scripts/verify_knowledge_restore.py): the base bundle is loaded line by line,
 then the ordered mutation contracts are applied to it.  The dictionaries the
 script updates step by step are proved equal to a last-writer-wins reading of
 the whole contract sequence.

 JSON decoding and the object store are outside the model: a line carries what
 it decodes to, if it decodes, and `fetch` is what a payload reference leads
 to, if it leads anywhere.
 */
module MutationReplay {
  import opened Wrappers

  const MAX_LINE_BYTES: nat := 16 * 1024 * 1024
  const MAX_DECODED_BYTES: nat := 2 * 1024 * 1024 * 1024

  datatype Record = Record(chunkId: string, content: string)

  datatype Entry = RecordEntry(record: Record) | OtherEntry

  /** A bundle line: its UTF-8 length, and its entry when it is readable. */
  datatype Line = Line(bytes: nat, entry: Option<Entry>)

  datatype Scope = Scope(workspaceId: string, collection: string, generationId: string)

  datatype Manifest = Manifest(scope: Scope, baseSequence: int, targetSequence: int, expectedVectorCount: int)

  type Reference = string

  datatype Payload = Payload(scope: Scope, mutationId: string, sequence: int, record: Record)

  /** `payload` is `None` when the contract has none or an empty one. */
  datatype Contract = Contract(
    sequence: int, scope: Scope, mutationId: string, operation: string, chunkId: string, payload: Option<Reference>)

  type Fetch = Reference -> Option<Payload>

  datatype Fault =
    | LineTooLong
    | BudgetExceeded
    | UnreadableLine
    | DuplicateRecord
    | CountMismatch
    | UnsupportedRange
    | SequenceGap
    | ScopeMismatch
    | PayloadUnavailable
    | PayloadIdentity
    | PayloadChunk
    | InvalidOperation
    | IncompleteTail

  /** The faults found before any contract is looked at. */
  predicate BaseFault(fault: Fault) {
    fault in {LineTooLong, BudgetExceeded, UnreadableLine, DuplicateRecord, CountMismatch, UnsupportedRange}
  }

  // ---- The base bundle ----

  predicate IsRecord(line: Line) {
    line.entry.Some? && line.entry.value.RecordEntry?
  }

  function DecodedBytes(lines: seq<Line>, n: nat): nat
    requires n <= |lines|
  {
    if n == 0 then 0 else DecodedBytes(lines, n - 1) + lines[n - 1].bytes
  }

  function RecordCount(lines: seq<Line>, n: nat): nat
    requires n <= |lines|
  {
    if n == 0 then 0 else RecordCount(lines, n - 1) + if IsRecord(lines[n - 1]) then 1 else 0
  }

  ghost predicate NewChunk(lines: seq<Line>, n: nat)
    requires n < |lines|
  {
    IsRecord(lines[n]) ==>
      forall i :: 0 <= i < n && IsRecord(lines[i]) ==>
        lines[i].entry.value.record.chunkId != lines[n].entry.value.record.chunkId
  }

  /** The line fits and is readable, the lines up to it fit together, and its chunk is new. */
  ghost predicate LineLoads(lines: seq<Line>, n: nat)
    requires n < |lines|
  {
    && lines[n].bytes <= MAX_LINE_BYTES
    && lines[n].entry.Some?
    && DecodedBytes(lines, n + 1) <= MAX_DECODED_BYTES
    && NewChunk(lines, n)
  }

  ghost predicate BundleLoads(lines: seq<Line>) {
    forall n :: 0 <= n < |lines| ==> LineLoads(lines, n)
  }

  /** `record` stands in the first `n` lines of the bundle. */
  ghost predicate InBundle(lines: seq<Line>, n: nat, record: Record)
    requires n <= |lines|
  {
    exists i :: 0 <= i < n && lines[i].entry == Some(RecordEntry(record))
  }

  ghost predicate Holds(records: map<string, Record>, record: Record) {
    record.chunkId in records && records[record.chunkId] == record
  }

  ghost predicate Keyed(records: map<string, Record>) {
    forall c :: c in records ==> records[c].chunkId == c
  }

  /** The records collected so far are exactly those of the first `n` lines. */
  ghost predicate Collected(lines: seq<Line>, n: nat, records: map<string, Record>)
    requires n <= |lines|
  {
    Keyed(records) && |records| == RecordCount(lines, n) && forall r :: Holds(records, r) <==> InBundle(lines, n, r)
  }

  lemma CollectOther(lines: seq<Line>, n: nat, records: map<string, Record>)
    requires n < |lines| && Collected(lines, n, records) && !IsRecord(lines[n])
    ensures Collected(lines, n + 1, records)
  {
    forall r ensures InBundle(lines, n + 1, r) <==> InBundle(lines, n, r) {
      if InBundle(lines, n, r) {
        var i :| 0 <= i < n && lines[i].entry == Some(RecordEntry(r));
        assert lines[i].entry == Some(RecordEntry(r));
      }
    }
  }

  lemma CollectRecord(lines: seq<Line>, n: nat, records: map<string, Record>, record: Record)
    requires n < |lines| && Collected(lines, n, records)
    requires lines[n].entry == Some(RecordEntry(record)) && record.chunkId !in records
    ensures Collected(lines, n + 1, records[record.chunkId := record])
  {
    var after := records[record.chunkId := record];
    forall r ensures InBundle(lines, n + 1, r) <==> r == record || InBundle(lines, n, r) {
      if InBundle(lines, n, r) {
        var i :| 0 <= i < n && lines[i].entry == Some(RecordEntry(r));
        assert lines[i].entry == Some(RecordEntry(r));
      }
      if r == record {
        assert lines[n].entry == Some(RecordEntry(r));
      }
    }
    forall r ensures Holds(after, r) <==> r == record || Holds(records, r) {
    }
  }

  /** A chunk already collected stands in an earlier line; a chunk not collected does not. */
  lemma CollectedChunks(lines: seq<Line>, n: nat, records: map<string, Record>, c: string)
    requires n <= |lines| && Collected(lines, n, records)
    ensures c in records <==> exists i :: 0 <= i < n && IsRecord(lines[i]) && lines[i].entry.value.record.chunkId == c
  {
    if c in records {
      assert Holds(records, records[c]);
    }
    forall i | 0 <= i < n && IsRecord(lines[i]) && lines[i].entry.value.record.chunkId == c ensures c in records {
      assert InBundle(lines, n, lines[i].entry.value.record);
      assert Holds(records, lines[i].entry.value.record);
    }
  }

  /** Loading a bundle: it succeeds exactly on the bundles that load, and gives exactly their records. */
  method LoadBundle(lines: seq<Line>) returns (result: Result<map<string, Record>, Fault>)
    ensures result.Success? <==> BundleLoads(lines)
    ensures result.Success? ==> Collected(lines, |lines|, result.value)
    ensures result.Failure? ==> BaseFault(result.error)
  {
    var records: map<string, Record> := map[];
    var decoded := 0;
    for n := 0 to |lines|
      invariant decoded == DecodedBytes(lines, n)
      invariant forall i :: 0 <= i < n ==> LineLoads(lines, i)
      invariant Collected(lines, n, records)
    {
      var line := lines[n];
      if line.bytes > MAX_LINE_BYTES {
        assert !LineLoads(lines, n);
        return Failure(LineTooLong);
      }
      decoded := decoded + line.bytes;
      if decoded > MAX_DECODED_BYTES {
        assert !LineLoads(lines, n);
        return Failure(BudgetExceeded);
      }
      if line.entry.None? {
        assert !LineLoads(lines, n);
        return Failure(UnreadableLine);
      }
      if line.entry.value.RecordEntry? {
        var record := line.entry.value.record;
        CollectedChunks(lines, n, records, record.chunkId);
        if record.chunkId in records {
          assert !LineLoads(lines, n);
          return Failure(DuplicateRecord);
        }
        CollectRecord(lines, n, records, record);
        records := records[record.chunkId := record];
      } else {
        CollectOther(lines, n, records);
      }
    }
    return Success(records);
  }

  // ---- One contract ----

  predicate IsUpsert(contract: Contract) {
    contract.operation == "upsert"
  }

  predicate IsDelete(contract: Contract) {
    contract.operation == "delete"
  }

  /** The record an upsert carries, wherever its reference leads. */
  function Upserted(fetch: Fetch, contract: Contract): (record: Record)
  {
    if contract.payload.Some? && fetch(contract.payload.value).Some? then fetch(contract.payload.value).value.record
    else Record(contract.chunkId, "")
  }

  /** The script's checks of one contract, in the script's order. */
  function Check(manifest: Manifest, fetch: Fetch, contract: Contract, expected: int): Option<Fault> {
    if contract.sequence != expected then Some(SequenceGap)
    else if contract.scope != manifest.scope then Some(ScopeMismatch)
    else if contract.operation == "upsert" then
      if contract.payload.None? || fetch(contract.payload.value).None? then Some(PayloadUnavailable)
      else
        var payload := fetch(contract.payload.value).value;
        if payload.scope != contract.scope || payload.mutationId != contract.mutationId then Some(PayloadIdentity)
        else if payload.sequence != contract.sequence then Some(PayloadIdentity)
        else if payload.record.chunkId != contract.chunkId then Some(PayloadChunk)
        else None
    else if contract.operation != "delete" || contract.payload.Some? then Some(InvalidOperation)
    else None
  }

  /** What a contract must be, apart from its number. */
  ghost predicate Sound(manifest: Manifest, fetch: Fetch, contract: Contract) {
    && contract.scope == manifest.scope
    && (IsUpsert(contract) || IsDelete(contract))
    && (IsDelete(contract) ==> contract.payload == None)
    && (IsUpsert(contract) ==>
      && contract.payload.Some?
      && fetch(contract.payload.value)
         == Some(Payload(contract.scope, contract.mutationId, contract.sequence, Upserted(fetch, contract)))
      && Upserted(fetch, contract).chunkId == contract.chunkId)
  }

  lemma CheckExact(manifest: Manifest, fetch: Fetch, contract: Contract, expected: int)
    ensures Check(manifest, fetch, contract, expected) == None <==>
      contract.sequence == expected && Sound(manifest, fetch, contract)
  {
    if IsUpsert(contract) && contract.payload.Some? && fetch(contract.payload.value).Some? {
      var payload := fetch(contract.payload.value).value;
      assert payload == Payload(payload.scope, payload.mutationId, payload.sequence, payload.record);
    }
  }

  // ---- The whole contract sequence ----

  /** The numbers run from one past the target up to the required one, without a gap. */
  ghost predicate Consecutive(manifest: Manifest, contracts: seq<Contract>, required: int) {
    && (forall i :: 0 <= i < |contracts| ==> contracts[i].sequence == manifest.targetSequence + 1 + i)
    && manifest.targetSequence + |contracts| == required
  }

  /** The first `n` contracts pass every check. */
  ghost predicate Passed(manifest: Manifest, fetch: Fetch, contracts: seq<Contract>, n: nat)
    requires n <= |contracts|
  {
    forall i :: 0 <= i < n ==> Check(manifest, fetch, contracts[i], manifest.targetSequence + 1 + i) == None
  }

  /** The fault is the one found at the first contract that does not pass. */
  ghost predicate FirstFault(manifest: Manifest, fetch: Fetch, contracts: seq<Contract>, fault: Fault) {
    exists n: nat ::
      && n < |contracts| && Passed(manifest, fetch, contracts, n)
      && Check(manifest, fetch, contracts[n], manifest.targetSequence + 1 + n) == Some(fault)
  }

  /** All contracts pass exactly when they are numbered without a gap from the target and each is sound. */
  lemma PassedExact(manifest: Manifest, fetch: Fetch, contracts: seq<Contract>)
    ensures Passed(manifest, fetch, contracts, |contracts|) <==>
            && Consecutive(manifest, contracts, manifest.targetSequence + |contracts|)
            && forall i :: 0 <= i < |contracts| ==> Sound(manifest, fetch, contracts[i])
  {
    forall i | 0 <= i < |contracts|
      ensures Check(manifest, fetch, contracts[i], manifest.targetSequence + 1 + i) == None <==>
        contracts[i].sequence == manifest.targetSequence + 1 + i && Sound(manifest, fetch, contracts[i])
    {
      CheckExact(manifest, fetch, contracts[i], manifest.targetSequence + 1 + i);
    }
  }

  ghost predicate Acceptable(
        manifest: Manifest, fetch: Fetch, lines: seq<Line>, contracts: seq<Contract>, required: int)
  {
    && BundleLoads(lines)
    && RecordCount(lines, |lines|) == manifest.expectedVectorCount
    && manifest.targetSequence == manifest.baseSequence
    && Consecutive(manifest, contracts, required)
    && forall i :: 0 <= i < |contracts| ==> Sound(manifest, fetch, contracts[i])
  }

  /** Contract `i` is the last of the first `n` to touch chunk `c`. */
  ghost predicate LastTouch(contracts: seq<Contract>, n: nat, c: string, i: int)
    requires n <= |contracts|
  {
    && 0 <= i < n
    && contracts[i].chunkId == c
    && forall j :: i < j < n ==> contracts[j].chunkId != c
  }

  ghost predicate Untouched(contracts: seq<Contract>, n: nat, c: string)
    requires n <= |contracts|
  {
    forall j :: 0 <= j < n ==> contracts[j].chunkId != c
  }

  /** The record is the last upsert of its chunk, or a base record no contract touches. */
  ghost predicate Live(fetch: Fetch, lines: seq<Line>, contracts: seq<Contract>, n: nat, record: Record)
    requires n <= |contracts|
  {
    || (exists i ::
      LastTouch(contracts, n, record.chunkId, i) && IsUpsert(contracts[i]) && Upserted(fetch, contracts[i]) == record)
    || (Untouched(contracts, n, record.chunkId) && InBundle(lines, |lines|, record))
  }

  ghost predicate Deleted(contracts: seq<Contract>, n: nat, c: string)
    requires n <= |contracts|
  {
    exists i :: LastTouch(contracts, n, c, i) && IsDelete(contracts[i])
  }

  /** A later contract decides its own chunk. */
  lemma TouchedNow(contracts: seq<Contract>, n: nat, c: string)
    requires 0 < n <= |contracts| && contracts[n - 1].chunkId == c
    ensures LastTouch(contracts, n, c, n - 1)
    ensures forall i :: LastTouch(contracts, n, c, i) ==> i == n - 1
    ensures !Untouched(contracts, n, c)
  {
  }

  /** A later contract leaves every other chunk alone. */
  lemma OthersUntouched(contracts: seq<Contract>, n: nat, c: string)
    requires n < |contracts| && contracts[n].chunkId != c
    ensures forall i :: LastTouch(contracts, n + 1, c, i) <==> LastTouch(contracts, n, c, i)
    ensures Untouched(contracts, n + 1, c) <==> Untouched(contracts, n, c)
  {
  }

  lemma LiveAfter(fetch: Fetch, lines: seq<Line>, contracts: seq<Contract>, n: nat, record: Record)
    requires n < |contracts|
    ensures Live(fetch, lines, contracts, n + 1, record) <==>
      if record.chunkId == contracts[n].chunkId then IsUpsert(contracts[n]) && record == Upserted(fetch, contracts[n])
      else Live(fetch, lines, contracts, n, record)
  {
    if record.chunkId == contracts[n].chunkId {
      TouchedNow(contracts, n + 1, contracts[n].chunkId);
    } else {
      OthersUntouched(contracts, n, record.chunkId);
    }
  }

  lemma DeletedAfter(contracts: seq<Contract>, n: nat, c: string)
    requires n < |contracts|
    ensures Deleted(contracts, n + 1, c) <==>
      if c == contracts[n].chunkId then IsDelete(contracts[n]) else Deleted(contracts, n, c)
  {
    if c == contracts[n].chunkId {
      TouchedNow(contracts, n + 1, contracts[n].chunkId);
    } else {
      OthersUntouched(contracts, n, c);
    }
  }

  /** The dictionaries after the first `n` contracts are what those contracts say, last writer wins. */
  ghost predicate Reflects(
        fetch: Fetch, lines: seq<Line>, contracts: seq<Contract>, n: nat, records: map<string, Record>,
        deleted: set<string>)
    requires n <= |contracts|
  {
    && Keyed(records)
    && (forall r :: Holds(records, r) <==> Live(fetch, lines, contracts, n, r))
    && (forall c :: c in deleted <==> Deleted(contracts, n, c))
  }

  /** Before any contract, exactly the base records are live and nothing is deleted. */
  lemma BaseReflected(fetch: Fetch, lines: seq<Line>, contracts: seq<Contract>, records: map<string, Record>)
    requires Collected(lines, |lines|, records)
    ensures Reflects(fetch, lines, contracts, 0, records, {})
  {
  }

  lemma UpsertReflected(
        fetch: Fetch, lines: seq<Line>, contracts: seq<Contract>, n: nat, records: map<string, Record>,
        deleted: set<string>)
    requires n < |contracts| && Reflects(fetch, lines, contracts, n, records, deleted)
    requires IsUpsert(contracts[n]) && Upserted(fetch, contracts[n]).chunkId == contracts[n].chunkId
    ensures var after := records[contracts[n].chunkId := Upserted(fetch, contracts[n])];
            Reflects(fetch, lines, contracts, n + 1, after, deleted - {contracts[n].chunkId})
  {
    var after := records[contracts[n].chunkId := Upserted(fetch, contracts[n])];
    forall r ensures Holds(after, r) <==> Live(fetch, lines, contracts, n + 1, r) {
      LiveAfter(fetch, lines, contracts, n, r);
      assert Holds(records, r) <==> Live(fetch, lines, contracts, n, r);
    }
    forall c ensures c in deleted - {contracts[n].chunkId} <==> Deleted(contracts, n + 1, c) {
      DeletedAfter(contracts, n, c);
    }
  }

  lemma DeleteReflected(
        fetch: Fetch, lines: seq<Line>, contracts: seq<Contract>, n: nat, records: map<string, Record>,
        deleted: set<string>)
    requires n < |contracts| && Reflects(fetch, lines, contracts, n, records, deleted)
    requires IsDelete(contracts[n])
    ensures Reflects(fetch, lines, contracts, n + 1, records - {contracts[n].chunkId}, deleted + {contracts[n].chunkId})
  {
    var after := records - {contracts[n].chunkId};
    forall r ensures Holds(after, r) <==> Live(fetch, lines, contracts, n + 1, r) {
      LiveAfter(fetch, lines, contracts, n, r);
      assert Holds(records, r) <==> Live(fetch, lines, contracts, n, r);
    }
    forall c ensures c in deleted + {contracts[n].chunkId} <==> Deleted(contracts, n + 1, c) {
      DeletedAfter(contracts, n, c);
    }
  }

  /** No chunk is both live and deleted. */
  lemma LiveNotDeleted(
        fetch: Fetch, lines: seq<Line>, contracts: seq<Contract>, records: map<string, Record>, deleted: set<string>)
    requires Reflects(fetch, lines, contracts, |contracts|, records, deleted)
    ensures records.Keys !! deleted
  {
    forall c | c in records.Keys ensures c !in deleted {
      assert Holds(records, records[c]);
      assert Live(fetch, lines, contracts, |contracts|, records[c]);
    }
  }

  /**
   Replay.  It succeeds exactly on acceptable input; on success the records are
   the live ones, each under its own chunk, and the deleted set is the chunks
   whose last operation is a delete.  A failure names the first
   thing wrong: in the base, at the first contract that does not pass, or a
   missing tail.
   */
  method LogicalRecords(manifest: Manifest, fetch: Fetch, lines: seq<Line>, contracts: seq<Contract>, required: int)
    returns (result: Result<(map<string, Record>, set<string>), Fault>)
    ensures result.Success? <==> Acceptable(manifest, fetch, lines, contracts, required)
    ensures result.Success? ==> Reflects(fetch, lines, contracts, |contracts|, result.value.0, result.value.1)
    ensures result.Success? ==> result.value.0.Keys !! result.value.1
    ensures result.Failure? ==>
      BaseFault(result.error) || result.error == IncompleteTail || FirstFault(manifest, fetch, contracts, result.error)
    ensures result == Failure(IncompleteTail) ==> manifest.targetSequence + |contracts| != required
  {
    var loaded := LoadBundle(lines);
    if loaded.Failure? {
      return Failure(loaded.error);
    }
    var records := loaded.value;
    if |records| != manifest.expectedVectorCount {
      return Failure(CountMismatch);
    }
    var after := manifest.targetSequence;
    if after != manifest.baseSequence {
      return Failure(UnsupportedRange);
    }
    var deleted: set<string> := {};
    BaseReflected(fetch, lines, contracts, records);
    PassedExact(manifest, fetch, contracts);
    for n := 0 to |contracts|
      invariant after == manifest.targetSequence + n
      invariant Passed(manifest, fetch, contracts, n)
      invariant Reflects(fetch, lines, contracts, n, records, deleted)
    {
      var contract := contracts[n];
      CheckExact(manifest, fetch, contract, after + 1);
      var fault := Check(manifest, fetch, contract, after + 1);
      if fault.Some? {
        return Failure(fault.value);
      }
      if IsUpsert(contract) {
        UpsertReflected(fetch, lines, contracts, n, records, deleted);
        var record := Upserted(fetch, contract);
        records := records[record.chunkId := record];
        deleted := deleted - {record.chunkId};
      } else {
        DeleteReflected(fetch, lines, contracts, n, records, deleted);
        records := records - {contract.chunkId};
        deleted := deleted + {contract.chunkId};
      }
      after := contract.sequence;
    }
    if after != required {
      return Failure(IncompleteTail);
    }
    LiveNotDeleted(fetch, lines, contracts, records, deleted);
    return Success((records, deleted));
  }
}
