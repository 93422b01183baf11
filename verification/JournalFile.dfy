/**
 The acknowledgement journal as bytes on disk: one encoded record per line,
 possibly with a torn last line.  JSON text encoding is a parameter: a codec
 that reads back what it wrote and writes no newline.
 */
module JournalFile {
  import opened Wrappers
  import opened RecoveryJournal
  import Counting


  const NEWLINE: Byte := 10
  const JOURNAL_SCHEMA_VERSION := 1
  const U64_MAX := 0xFFFF_FFFF_FFFF_FFFF

  datatype RecordCodec = RecordCodec(
    encode: JournalRecord -> seq<Byte>,
    decode: seq<Byte> -> Option<JournalRecord>)

  ghost predicate Faithful(codec: RecordCodec) {
    forall r :: FaithfulOn(codec, r)
  }

  ghost predicate FaithfulOn(codec: RecordCodec, r: JournalRecord) {
    var line := codec.encode(r);
    codec.decode(line) == Some(r) && NEWLINE !in line && line != []
  }

  datatype JournalLines = JournalLines(records: seq<JournalRecord>, partialTail: bool)

  datatype JournalSnapshot = JournalSnapshot(
    header: JournalHeader,
    tally: Tally,
    completeRecords: nat,
    ignoredPartialTail: bool)

  // ----- Reading lines -----

  /** Index of the first newline at or after `pos`, or the length when there is none. */
  function NewlineFrom(bytes: seq<Byte>, pos: nat): (k: nat)
    requires pos <= |bytes|
    ensures pos <= k <= |bytes|
    ensures forall i :: pos <= i < k ==> bytes[i] != NEWLINE
    ensures k < |bytes| ==> bytes[k] == NEWLINE
    decreases |bytes| - pos
  {
    if pos == |bytes| || bytes[pos] == NEWLINE then pos else NewlineFrom(bytes, pos + 1)
  }

  lemma NewlineUnique(bytes: seq<Byte>, pos: nat, k: nat)
    requires pos <= k <= |bytes|
    requires forall i :: pos <= i < k ==> bytes[i] != NEWLINE
    requires k < |bytes| ==> bytes[k] == NEWLINE
    ensures NewlineFrom(bytes, pos) == k
  {
  }

  /** The records of the complete lines from `pos` on, and whether an unterminated line follows them. */
  function ReadFrom(codec: RecordCodec, bytes: seq<Byte>, pos: nat): Result<JournalLines, ParseError>
    requires pos <= |bytes|
    decreases |bytes| - pos
  {
    var k := NewlineFrom(bytes, pos);
    if k == |bytes| then Success(JournalLines([], pos < |bytes|))
    else if k == pos then Failure(EmptyLine)
    else
      var record := codec.decode(bytes[pos..k]);
      if record.None? then Failure(InvalidRecord)
      else Prepend([record.value], ReadFrom(codec, bytes, k + 1))
  }

  function ReadRecords(codec: RecordCodec, bytes: seq<Byte>): Result<JournalLines, ParseError> {
    ReadFrom(codec, bytes, 0)
  }

  function Prepend(records: seq<JournalRecord>, rest: Result<JournalLines, ParseError>)
    : Result<JournalLines, ParseError>
  {
    if rest.Failure? then rest
    else Success(JournalLines(records + rest.value.records, rest.value.partialTail))
  }

  lemma PrependAll(a: seq<JournalRecord>, b: seq<JournalRecord>, rest: Result<JournalLines, ParseError>)
    ensures Prepend(a, Prepend(b, rest)) == Prepend(a + b, rest)
    ensures Prepend([], rest) == rest
  {
    if rest.Success? {
      assert a + (b + rest.value.records) == a + b + rest.value.records;
      assert [] + rest.value.records == rest.value.records;
    }
  }

  // ----- Interpreting records -----

  /** The first record whose sequence number is not its position, or the length. */
  function FirstOutOfSequence(records: seq<JournalRecord>, from: nat): (k: nat)
    requires from <= |records|
    ensures from <= k <= |records|
    ensures forall i :: from <= i < k ==> records[i].sequence == i
    ensures k < |records| ==> records[k].sequence != k
    decreases |records| - from
  {
    if from == |records| || records[from].sequence != from then from
    else FirstOutOfSequence(records, from + 1)
  }

  function ParseRecords(records: seq<JournalRecord>, partialTail: bool): Result<JournalSnapshot, ParseError> {
    if records == [] then Failure(NoRecords)
    else
      var k := FirstOutOfSequence(records, 0);
      if k < |records| then Failure(SequenceMismatch(k))
      else if !records[0].Header? then Failure(FirstNotHeader)
      else if records[0].schemaVersion != JOURNAL_SCHEMA_VERSION then
        Failure(UnsupportedSchema(records[0].schemaVersion))
      else
        var replayed := Replay(records[1..]);
        if replayed.Failure? then Failure(replayed.error)
        else Success(JournalSnapshot(records[0].header, replayed.value, |records|, partialTail))
  }

  function ParseBytes(codec: RecordCodec, bytes: seq<Byte>): Result<JournalSnapshot, ParseError> {
    var lines := ReadRecords(codec, bytes);
    if lines.Failure? then Failure(lines.error)
    else ParseRecords(lines.value.records, lines.value.partialTail)
  }

  /** The line loop of the parser. */
  method ReadLines(codec: RecordCodec, bytes: seq<Byte>) returns (lines: Result<JournalLines, ParseError>)
    ensures lines == ReadRecords(codec, bytes)
  {
    var records: seq<JournalRecord> := [];
    var pos := 0;
    PrependAll([], [], ReadRecords(codec, bytes));
    while pos < |bytes|
      invariant pos <= |bytes|
      invariant ReadRecords(codec, bytes) == Prepend(records, ReadFrom(codec, bytes, pos))
    {
      var end := NewlineFrom(bytes, pos);
      if end == |bytes| {
        assert records + [] == records;
        return Success(JournalLines(records, true));
      }
      if end == pos {
        return Failure(EmptyLine);
      }
      var record := codec.decode(bytes[pos..end]);
      if record.None? {
        return Failure(InvalidRecord);
      }
      PrependAll(records, [record.value], ReadFrom(codec, bytes, end + 1));
      records, pos := records + [record.value], end + 1;
    }
    assert records + [] == records;
    return Success(JournalLines(records, false));
  }

  /** The record loop of the parser. */
  method ReplayAll(records: seq<JournalRecord>) returns (replayed: Result<Tally, ParseError>)
    ensures replayed == Replay(records)
  {
    var tally := EMPTY_TALLY;
    for i := 0 to |records|
      invariant Replay(records[..i]) == Success(tally)
    {
      assert records[..i + 1][..i] == records[..i];
      var next := ReplayRecord(tally, records[i]);
      if next.Failure? {
        ReplayStops(records, i + 1);
        return next;
      }
      tally := next.value;
    }
    assert records[..|records|] == records;
    return Success(tally);
  }

  /** The parser as the tool runs it: read every line, check numbering, replay. */
  method ParseJournal(codec: RecordCodec, bytes: seq<Byte>)
    returns (snapshot: Result<JournalSnapshot, ParseError>)
    ensures snapshot == ParseBytes(codec, bytes)
  {
    var lines := ReadLines(codec, bytes);
    if lines.Failure? {
      return Failure(lines.error);
    }
    var records := lines.value.records;
    if records == [] {
      return Failure(NoRecords);
    }
    for expected := 0 to |records|
      invariant FirstOutOfSequence(records, 0) == FirstOutOfSequence(records, expected)
    {
      if records[expected].sequence != expected {
        return Failure(SequenceMismatch(expected));
      }
    }
    if !records[0].Header? {
      return Failure(FirstNotHeader);
    }
    if records[0].schemaVersion != JOURNAL_SCHEMA_VERSION {
      return Failure(UnsupportedSchema(records[0].schemaVersion));
    }
    var replayed := ReplayAll(records[1..]);
    if replayed.Failure? {
      return Failure(replayed.error);
    }
    return Success(JournalSnapshot(records[0].header, replayed.value, |records|, lines.value.partialTail));
  }

  /** A replay that has failed stays failed, with the same error. */
  lemma {:induction false} ReplayStops(records: seq<JournalRecord>, k: nat)
    requires k <= |records| && Replay(records[..k]).Failure?
    ensures Replay(records) == Replay(records[..k])
    decreases |records|
  {
    if k == |records| {
      assert records[..k] == records;
    } else {
      var front := records[..|records| - 1];
      assert front[..k] == records[..k];
      ReplayStops(front, k);
    }
  }

  // ----- What is accepted -----

  ghost predicate WellFormedJournal(records: seq<JournalRecord>) {
    && records != []
    && (forall i :: 0 <= i < |records| ==> records[i].sequence == i)
    && records[0].Header? && records[0].schemaVersion == JOURNAL_SCHEMA_VERSION
    && FollowsScripts(records[1..])
  }

  /**
   Acceptance and conservation: a record sequence is accepted exactly when it is
   numbered from zero, opens with a supported header, and every cycle keeps to
   its script; then every record is accounted for.
   */
  lemma ParseExact(records: seq<JournalRecord>, partialTail: bool)
    ensures ParseRecords(records, partialTail).Success? <==> WellFormedJournal(records)
    ensures ParseRecords(records, partialTail).Success? ==>
              var s := ParseRecords(records, partialTail).value;
              && s.header == records[0].header
              && s.ignoredPartialTail == partialTail
              && s.completeRecords == |records|
              && CyclesMatch(s.tally, records[1..])
              && s.completeRecords ==
                   1 + |s.tally.cycles| + s.tally.insertAcks + s.tally.updateAcks + s.tally.deleteAcks
              && s.tally.deleteAcks <= s.tally.updateAcks <= s.tally.insertAcks <= |s.tally.cycles|
  {
    if records != [] {
      ReplayExact(records[1..]);
      if Replay(records[1..]).Success? {
        AckCountsOrdered(records[1..]);
      }
    }
  }

  // ----- Torn journals -----

  /** Length of the longest prefix made of complete lines. */
  function CompleteLength(bytes: seq<Byte>): (n: nat)
    ensures n <= |bytes|
    ensures n > 0 ==> bytes[n - 1] == NEWLINE
    ensures forall i :: n <= i < |bytes| ==> bytes[i] != NEWLINE
  {
    if bytes == [] || bytes[|bytes| - 1] == NEWLINE then |bytes|
    else CompleteLength(bytes[..|bytes| - 1])
  }

  /** The same outcome for a file without its unterminated tail. */
  function WithoutTail(lines: Result<JournalLines, ParseError>): Result<JournalLines, ParseError> {
    if lines.Failure? then lines else Success(lines.value.(partialTail := false))
  }

  lemma {:induction false} TailIgnoredFrom(codec: RecordCodec, bytes: seq<Byte>, pos: nat, n: nat)
    requires pos <= n <= |bytes|
    requires pos < n ==> bytes[n - 1] == NEWLINE
    requires forall i :: n <= i < |bytes| ==> bytes[i] != NEWLINE
    ensures ReadFrom(codec, bytes[..n], pos) == WithoutTail(ReadFrom(codec, bytes, pos))
    ensures ReadFrom(codec, bytes, pos).Success? ==>
              (ReadFrom(codec, bytes, pos).value.partialTail <==> n < |bytes|)
    decreases n - pos
  {
    var complete := bytes[..n];
    if pos == n {
      NewlineUnique(bytes, pos, |bytes|);
      NewlineUnique(complete, pos, n);
    } else {
      var k := NewlineFrom(bytes, pos);
      assert k < n;
      NewlineUnique(complete, pos, k);
      assert complete[pos..k] == bytes[pos..k];
      TailIgnoredFrom(codec, bytes, k + 1, n);
    }
  }

  /** An unterminated tail changes nothing but the flag, errors included. */
  lemma TailIgnored(codec: RecordCodec, bytes: seq<Byte>)
    ensures ReadRecords(codec, bytes[..CompleteLength(bytes)]) == WithoutTail(ReadRecords(codec, bytes))
    ensures ReadRecords(codec, bytes).Success? ==>
              (ReadRecords(codec, bytes).value.partialTail <==> CompleteLength(bytes) < |bytes|)
  {
    TailIgnoredFrom(codec, bytes, 0, CompleteLength(bytes));
  }

  lemma CompleteLengthUnique(bytes: seq<Byte>, n: nat)
    requires n <= |bytes|
    requires n > 0 ==> bytes[n - 1] == NEWLINE
    requires forall i :: n <= i < |bytes| ==> bytes[i] != NEWLINE
    ensures CompleteLength(bytes) == n
  {
  }

  /** Cutting a readable file anywhere leaves a prefix of its records. */
  lemma {:induction false} CutReads(codec: RecordCodec, bytes: seq<Byte>, pos: nat, n: nat)
    requires pos <= n <= |bytes| && ReadFrom(codec, bytes, pos).Success?
    ensures var cut, whole := ReadFrom(codec, bytes[..n], pos), ReadFrom(codec, bytes, pos).value;
            && cut.Success?
            && cut.value.records <= whole.records
            && (cut.value.records != [] <==> NewlineFrom(bytes, pos) < n)
            && (cut.value.partialTail <==> n > pos && bytes[n - 1] != NEWLINE)
    decreases n - pos
  {
    var k := NewlineFrom(bytes, pos);
    if n <= k {
      NewlineUnique(bytes[..n], pos, n);
    } else {
      NewlineUnique(bytes[..n], pos, k);
      assert bytes[..n][pos..k] == bytes[pos..k];
      CutReads(codec, bytes, k + 1, n);
    }
  }

  /** The later snapshot knows at least as much about every cycle. */
  ghost predicate Extends(later: JournalSnapshot, earlier: JournalSnapshot) {
    && later.header == earlier.header
    && earlier.completeRecords <= later.completeRecords
    && TallyExtends(later.tally, earlier.tally)
  }

  /** The tally of a journal knows at least as much as the tally of a prefix of it. */
  ghost predicate TallyExtends(later: Tally, earlier: Tally) {
    && earlier.insertAcks <= later.insertAcks
    && earlier.updateAcks <= later.updateAcks
    && earlier.deleteAcks <= later.deleteAcks
    && (forall c :: c in earlier.cycles ==> CycleExtends(later, earlier, c))
  }

  ghost predicate CycleExtends(later: Tally, earlier: Tally, c: nat)
    requires c in earlier.cycles
  {
    && c in later.cycles
    && later.cycles[c].target == earlier.cycles[c].target
    && AckRank(earlier.cycles[c].lastAck) <= AckRank(later.cycles[c].lastAck)
  }

  lemma AckedExtends(later: Tally, earlier: Tally, rank: nat)
    requires forall c :: c in earlier.cycles ==> CycleExtends(later, earlier, c)
    ensures |AckedCycles(earlier, rank)| <= |AckedCycles(later, rank)|
  {
    forall c | c in AckedCycles(earlier, rank) ensures c in AckedCycles(later, rank) {
      assert CycleExtends(later, earlier, c);
    }
    Counting.SubsetSize(AckedCycles(earlier, rank), AckedCycles(later, rank));
  }

  lemma PrefixReplays(body: seq<JournalRecord>, k: nat)
    requires k <= |body| && Replay(body).Success?
    ensures Replay(body[..k]).Success?
    ensures TallyExtends(Replay(body).value, Replay(body[..k]).value)
  {
    ReplayExact(body);
    ReplayExact(body[..k]);
    ScriptsPrefixClosed(body, k);
    var later, earlier := Replay(body).value, Replay(body[..k]).value;
    forall c | c in earlier.cycles ensures CycleExtends(later, earlier, c) {
      EventsOfPrefix(body, k, c);
      assert MatchesEvents(earlier, body[..k], c);
      assert MatchesEvents(later, body, c);
    }
    AckedExtends(later, earlier, 1);
    AckedExtends(later, earlier, 2);
    AckedExtends(later, earlier, 3);
  }

  lemma PrefixParses(records: seq<JournalRecord>, k: nat, tail: bool, cutTail: bool)
    requires 0 < k <= |records| && ParseRecords(records, tail).Success?
    ensures ParseRecords(records[..k], cutTail).Success?
    ensures Extends(ParseRecords(records, tail).value, ParseRecords(records[..k], cutTail).value)
  {
    var cut := records[..k];
    assert cut[1..] == records[1..][..k - 1];
    PrefixReplays(records[1..], k - 1);
    assert forall i :: 0 <= i < k ==> cut[i].sequence == i;
  }

  /** Dropping the unterminated tail of a file changes only the flag of its parse. */
  lemma TailParses(codec: RecordCodec, bytes: seq<Byte>)
    requires ParseBytes(codec, bytes).Success?
    ensures ParseBytes(codec, bytes[..CompleteLength(bytes)])
              == Success(ParseBytes(codec, bytes).value.(ignoredPartialTail := false))
  {
    TailIgnored(codec, bytes);
  }

  lemma CutParses(codec: RecordCodec, bytes: seq<Byte>, n: nat)
    requires n <= |bytes| && ParseBytes(codec, bytes).Success?
    ensures ParseBytes(codec, bytes[..n]).Success? <==> NewlineFrom(bytes, 0) < n
    ensures NewlineFrom(bytes, 0) < n ==>
              var cut := ParseBytes(codec, bytes[..n]).value;
              && (cut.ignoredPartialTail <==> bytes[n - 1] != NEWLINE)
              && Extends(ParseBytes(codec, bytes).value, cut)
  {
    CutReads(codec, bytes, 0, n);
    CutLinesParse(ReadRecords(codec, bytes).value, ReadRecords(codec, bytes[..n]).value);
  }

  lemma CutLinesParse(whole: JournalLines, cut: JournalLines)
    requires cut.records <= whole.records && ParseRecords(whole.records, whole.partialTail).Success?
    ensures ParseRecords(cut.records, cut.partialTail).Success? <==> cut.records != []
    ensures cut.records != [] ==>
              Extends(ParseRecords(whole.records, whole.partialTail).value,
                      ParseRecords(cut.records, cut.partialTail).value)
  {
    if cut.records != [] {
      assert cut.records == whole.records[..|cut.records|];
      PrefixParses(whole.records, |cut.records|, whole.partialTail, cut.partialTail);
    }
  }

  /**
   Torn-journal parsing.  However an accepted journal is cut, parsing the cut
   succeeds exactly when the header line is still whole; then it equals parsing
   the complete lines only, flags a tail exactly when the cut is inside a line,
   and says nothing the whole journal would take back.
   */
  lemma TornJournal(codec: RecordCodec, bytes: seq<Byte>, n: nat)
    requires n <= |bytes| && ParseBytes(codec, bytes).Success?
    ensures ParseBytes(codec, bytes[..n]).Success? <==> NewlineFrom(bytes, 0) < n
    ensures NewlineFrom(bytes, 0) < n ==>
              var whole, cut := ParseBytes(codec, bytes).value, ParseBytes(codec, bytes[..n]).value;
              && (cut.ignoredPartialTail <==> bytes[n - 1] != NEWLINE)
              && ParseBytes(codec, bytes[..n][..CompleteLength(bytes[..n])])
                   == Success(cut.(ignoredPartialTail := false))
              && Extends(whole, cut)
  {
    CutParses(codec, bytes, n);
    if NewlineFrom(bytes, 0) < n {
      TailParses(codec, bytes[..n]);
    }
  }

  /** Any unterminated text after a complete journal is ignored and flagged. */
  lemma PartialTailIgnored(codec: RecordCodec, bytes: seq<Byte>, tail: seq<Byte>)
    requires bytes == [] || bytes[|bytes| - 1] == NEWLINE
    requires NEWLINE !in tail && tail != []
    requires ParseBytes(codec, bytes).Success?
    ensures ParseBytes(codec, bytes + tail)
              == Success(ParseBytes(codec, bytes).value.(ignoredPartialTail := true))
  {
    var torn := bytes + tail;
    forall i | |bytes| <= i < |torn| ensures torn[i] != NEWLINE {
      assert torn[i] == tail[i - |bytes|];
      assert torn[i] in tail;
    }
    CompleteLengthUnique(torn, |bytes|);
    assert torn[..|bytes|] == bytes;
    TailIgnored(codec, torn);
  }

  // ----- Writing -----

  function Line(codec: RecordCodec, r: JournalRecord): seq<Byte> {
    codec.encode(r) + [NEWLINE]
  }

  function EncodeAll(codec: RecordCodec, records: seq<JournalRecord>): seq<Byte> {
    if records == [] then [] else Line(codec, records[0]) + EncodeAll(codec, records[1..])
  }

  lemma {:induction false} EncodeAppend(codec: RecordCodec, records: seq<JournalRecord>, r: JournalRecord)
    ensures EncodeAll(codec, records + [r]) == EncodeAll(codec, records) + Line(codec, r)
  {
    var all := records + [r];
    if records == [] {
      assert all[1..] == [];
    } else {
      assert all[1..] == records[1..] + [r];
      EncodeAppend(codec, records[1..], r);
    }
  }

  lemma {:induction false} ReadsBackAfter(codec: RecordCodec, before: seq<Byte>, records: seq<JournalRecord>)
    requires Faithful(codec)
    ensures ReadFrom(codec, before + EncodeAll(codec, records), |before|)
              == Success(JournalLines(records, false))
    decreases |records|
  {
    var bytes := before + EncodeAll(codec, records);
    if records != [] {
      var r, rest := records[0], records[1..];
      assert FaithfulOn(codec, r);
      var text := codec.encode(r);
      var k := |before| + |text|;
      var through := before + Line(codec, r);
      assert bytes == through + EncodeAll(codec, rest);
      forall i | |before| <= i < k ensures bytes[i] != NEWLINE {
        assert bytes[i] == text[i - |before|];
        assert text[i - |before|] in text;
      }
      assert bytes[k] == NEWLINE;
      NewlineUnique(bytes, |before|, k);
      assert bytes[|before|..k] == text;
      ReadsBackAfter(codec, through, rest);
      assert [r] + rest == records;
    }
  }

  lemma {:induction false} EndsInNewline(codec: RecordCodec, records: seq<JournalRecord>)
    ensures var bytes := EncodeAll(codec, records); bytes == [] || bytes[|bytes| - 1] == NEWLINE
  {
    if records != [] {
      EndsInNewline(codec, records[1..]);
    }
  }

  /** What was written reads back, record for record. */
  lemma WrittenReadsBack(codec: RecordCodec, records: seq<JournalRecord>)
    requires Faithful(codec)
    ensures ReadRecords(codec, EncodeAll(codec, records)) == Success(JournalLines(records, false))
    ensures var bytes := EncodeAll(codec, records); bytes == [] || bytes[|bytes| - 1] == NEWLINE
  {
    ReadsBackAfter(codec, [], records);
    assert [] + EncodeAll(codec, records) == EncodeAll(codec, records);
    EndsInNewline(codec, records);
  }

  datatype AppendOutcome = Appended | NotContiguous | SequenceExhausted

  /** The append-only writer: one line per record, numbered without gaps. */
  class JournalWriter {
    const codec: RecordCodec
    var file: seq<Byte>
    var nextSequence: nat
    ghost var records: seq<JournalRecord>

    ghost predicate Valid()
      reads this
    {
      && file == EncodeAll(codec, records)
      && nextSequence == |records| <= U64_MAX
      && (forall i :: 0 <= i < |records| ==> records[i].sequence == i)
    }

    constructor Create(codec: RecordCodec, header: JournalHeader, now: nat)
      ensures Valid() && this.codec == codec
      ensures records == [Header(0, JOURNAL_SCHEMA_VERSION, header, now)]
    {
      this.codec := codec;
      var first := Header(0, JOURNAL_SCHEMA_VERSION, header, now);
      file := Line(codec, first);
      nextSequence := 1;
      records := [first];
    }

    /**
     A record out of sequence leaves the file alone.  Otherwise its line is
     written; at the last 64-bit sequence number the line is written and the
     append still reports an error.
     */
    method Append(record: JournalRecord) returns (outcome: AppendOutcome)
      requires Valid()
      modifies this
      ensures outcome.NotContiguous? <==> record.sequence != old(nextSequence)
      ensures outcome.SequenceExhausted? <==> record.sequence == old(nextSequence) == U64_MAX
      ensures outcome.Appended? ==> Valid() && records == old(records) + [record]
      ensures outcome.NotContiguous? ==> unchanged(this)
      ensures outcome.SequenceExhausted? ==>
                nextSequence == old(nextSequence) && file == old(file) + Line(codec, record)
    {
      if record.sequence != nextSequence {
        return NotContiguous;
      }
      EncodeAppend(codec, records, record);
      file := file + Line(codec, record);
      if nextSequence == U64_MAX {
        return SequenceExhausted;
      }
      nextSequence := nextSequence + 1;
      records := records + [record];
      return Appended;
    }

    /** The outcome of appending under the next number: appended, or written and refused at the last number. */
    twostate predicate AppendedNext(record: JournalRecord, outcome: AppendOutcome)
      reads this
    {
      if old(nextSequence) < U64_MAX then
        outcome.Appended? && Valid() && records == old(records) + [record]
      else
        outcome.SequenceExhausted? && nextSequence == U64_MAX && file == old(file) + Line(codec, record)
    }

    method RecordAllocation(cycle: nat, target: TargetState) returns (outcome: AppendOutcome)
      requires Valid()
      modifies this
      ensures AppendedNext(Allocate(old(nextSequence), cycle, target), outcome)
    {
      outcome := Append(Allocate(nextSequence, cycle, target));
    }

    method RecordAck(cycle: nat, operation: Operation, revision: nat, now: nat)
      returns (outcome: AppendOutcome)
      requires Valid()
      modifies this
      ensures AppendedNext(Ack(old(nextSequence), cycle, operation, revision, now), outcome)
    {
      outcome := Append(Ack(nextSequence, cycle, operation, revision, now));
    }
  }
}
