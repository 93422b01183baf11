/**
 A record encoding that meets what the journal results ask of one: every record
 has its own line, without a newline in it.  Numbers are written in unary and
 closed by a zero byte, so that each field ends where it says.
 */
module JournalCodec {
  import opened Wrappers
  import opened RecoveryJournal
  import JF = JournalFile

  function Number(n: nat): (bytes: seq<Byte>)
    ensures bytes != [] && JF.NEWLINE !in bytes
  {
    if n == 0 then [0] else [1] + Number(n - 1)
  }

  function Text(s: string): (bytes: seq<Byte>)
    ensures bytes != [] && JF.NEWLINE !in bytes
  {
    if s == "" then [0] else Number(1 + s[0] as int) + Text(s[1..])
  }

  function TargetCode(target: TargetState): nat {
    match target
    case Inserted => 0
    case Updated => 1
    case Deleted => 2
  }

  function HeaderBody(header: JournalHeader): (bytes: seq<Byte>)
    ensures bytes != [] && JF.NEWLINE !in bytes
  {
    Text(header.runId) + (Text(header.idPrefix) + (Number(header.dimensions) + Number(header.baselineActiveVectors)))
  }

  /** What follows the kind and the sequence number of a record. */
  function Body(r: JournalRecord): (bytes: seq<Byte>)
    ensures bytes != [] && JF.NEWLINE !in bytes
  {
    match r
    case Header(_, version, header, startedAt) => Number(version) + (Number(startedAt) + HeaderBody(header))
    case Allocate(_, cycle, target) => Number(cycle) + Number(TargetCode(target))
    case Ack(_, cycle, operation, revision, at) =>
      Number(cycle) + (Number(RevisionOf(operation)) + (Number(revision) + Number(at)))
  }

  function Kind(r: JournalRecord): nat {
    match r
    case Header(_, _, _, _) => 0
    case Allocate(_, _, _) => 1
    case Ack(_, _, _, _, _) => 2
  }

  function Encode(r: JournalRecord): (bytes: seq<Byte>)
    ensures bytes != [] && JF.NEWLINE !in bytes
  {
    Number(Kind(r)) + (Number(r.sequence) + Body(r))
  }

  /** A number ends where it says, whatever follows. */
  lemma {:induction false} NumberEnds(m: nat, s: seq<Byte>, n: nat, t: seq<Byte>)
    requires Number(m) + s == Number(n) + t
    ensures m == n && s == t
  {
    assert (Number(m) + s)[0] == (Number(n) + t)[0];
    if m == 0 || n == 0 {
      assert m == n;
      assert s == (Number(m) + s)[1..] && t == (Number(n) + t)[1..];
    } else {
      assert Number(m - 1) + s == (Number(m) + s)[1..] && Number(n - 1) + t == (Number(n) + t)[1..];
      NumberEnds(m - 1, s, n - 1, t);
    }
  }

  lemma {:induction false} TextEnds(a: string, s: seq<Byte>, b: string, t: seq<Byte>)
    requires Text(a) + s == Text(b) + t
    ensures a == b && s == t
  {
    var left := if a == "" then s else Text(a[1..]) + s;
    var right := if b == "" then t else Text(b[1..]) + t;
    var m: nat, n: nat := if a == "" then 0 else 1 + a[0] as int, if b == "" then 0 else 1 + b[0] as int;
    assert Text(a) + s == Number(m) + left && Text(b) + t == Number(n) + right;
    NumberEnds(m, left, n, right);
    if a != "" {
      TextEnds(a[1..], s, b[1..], t);
      assert a == [a[0]] + a[1..] && b == [b[0]] + b[1..];
    }
  }

  lemma LastNumber(m: nat, n: nat)
    requires Number(m) == Number(n)
    ensures m == n
  {
    assert Number(m) + [] == Number(m) && Number(n) + [] == Number(n);
    NumberEnds(m, [], n, []);
  }

  lemma HeaderBodyInjective(h: JournalHeader, k: JournalHeader)
    requires HeaderBody(h) == HeaderBody(k)
    ensures h == k
  {
    var h1 := Number(h.dimensions) + Number(h.baselineActiveVectors);
    var k1 := Number(k.dimensions) + Number(k.baselineActiveVectors);
    TextEnds(h.runId, Text(h.idPrefix) + h1, k.runId, Text(k.idPrefix) + k1);
    TextEnds(h.idPrefix, h1, k.idPrefix, k1);
    NumberEnds(h.dimensions, Number(h.baselineActiveVectors), k.dimensions, Number(k.baselineActiveVectors));
    LastNumber(h.baselineActiveVectors, k.baselineActiveVectors);
  }

  lemma BodyInjective(q: JournalRecord, r: JournalRecord)
    requires Kind(q) == Kind(r) && q.sequence == r.sequence && Body(q) == Body(r)
    ensures q == r
  {
    match q {
      case Header(_, version, header, startedAt) =>
        NumberEnds(version, Number(startedAt) + HeaderBody(header),
                   r.schemaVersion, Number(r.startedAt) + HeaderBody(r.header));
        NumberEnds(startedAt, HeaderBody(header), r.startedAt, HeaderBody(r.header));
        HeaderBodyInjective(header, r.header);
      case Allocate(_, cycle, target) =>
        NumberEnds(cycle, Number(TargetCode(target)), r.cycle, Number(TargetCode(r.target)));
        LastNumber(TargetCode(target), TargetCode(r.target));
      case Ack(_, cycle, operation, revision, at) =>
        var q1, r1 := Number(revision) + Number(at), Number(r.revision) + Number(r.acknowledgedAt);
        NumberEnds(cycle, Number(RevisionOf(operation)) + q1, r.cycle, Number(RevisionOf(r.operation)) + r1);
        NumberEnds(RevisionOf(operation), q1, RevisionOf(r.operation), r1);
        NumberEnds(revision, Number(at), r.revision, Number(r.acknowledgedAt));
        LastNumber(at, r.acknowledgedAt);
    }
  }

  lemma EncodeInjective(q: JournalRecord, r: JournalRecord)
    requires Encode(q) == Encode(r)
    ensures q == r
  {
    NumberEnds(Kind(q), Number(q.sequence) + Body(q), Kind(r), Number(r.sequence) + Body(r));
    NumberEnds(q.sequence, Body(q), r.sequence, Body(r));
    BodyInjective(q, r);
  }

  /** The record a line encodes, if any. */
  ghost function Decode(bytes: seq<Byte>): Option<JournalRecord> {
    if exists r :: Encode(r) == bytes then
      var r :| Encode(r) == bytes;
      Some(r)
    else None
  }

  /** There is an encoding as the journal results ask for. */
  lemma FaithfulCodecExists() returns (codec: JF.RecordCodec)
    ensures JF.Faithful(codec)
  {
    codec := JF.RecordCodec(Encode, Decode);
    forall r ensures JF.FaithfulOn(codec, r) {
      var found :| Encode(found) == Encode(r) && Decode(Encode(r)) == Some(found);
      EncodeInjective(found, r);
    }
  }
}
