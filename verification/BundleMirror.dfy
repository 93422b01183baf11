/**
 Import of immutable bundles into a mirror addressed by digest.  The digest
 function is a parameter; the streaming hasher is its value on everything read
 so far.  The first half is one import run alone, the second half any number of
 importers interleaving at every file operation.
 */
module BundleMirror {
  import opened Wrappers

  type Digester = seq<Byte> -> string

  const BUFFER := 65536

  datatype Request = Request(sha256: string, size: nat)

  const HEX_DIGITS := "0123456789abcdef"

  /** A request the publication manifest may make: a lower-case digest and a size. */
  predicate Admissible(r: Request) {
    && |r.sha256| == 64
    && (forall i :: 0 <= i < |r.sha256| ==> r.sha256[i] in HEX_DIGITS)
    && r.size > 0
  }

  predicate IsHexDigit(c: char) {
    '0' <= c <= '9' || 'a' <= c <= 'f'
  }

  /** The two ranges are the sixteen digits. */
  lemma HexDigitExact(c: char)
    ensures IsHexDigit(c) <==> c in HEX_DIGITS
  {
    if '0' <= c <= '9' {
      assert HEX_DIGITS[c as int - '0' as int] == c;
    }
    if 'a' <= c <= 'f' {
      assert HEX_DIGITS[10 + c as int - 'a' as int] == c;
    }
  }

  /** The bytes are the published bundle. */
  predicate Matches(digest: Digester, bytes: seq<Byte>, r: Request) {
    |bytes| == r.size && digest(bytes) == r.sha256
  }

  // ----- One import -----

  /** How many bytes a read returns: some, at most the buffer, never past the end. */
  function ReadCount(wish: nat, remaining: nat): (count: nat)
    requires remaining > 0
    ensures 1 <= count <= BUFFER && count <= remaining
  {
    var capped := if wish == 0 then 1 else if wish > BUFFER then BUFFER else wish;
    if capped <= remaining then capped else remaining
  }

  /** Reads a file to its end and hashes it; stops early once it is too long. */
  method StreamFile(digest: Digester, content: seq<Byte>, r: Request, wish: nat -> nat)
    returns (matched: bool, copied: seq<Byte>)
    ensures matched <==> Matches(digest, content, r)
    ensures matched ==> copied == content
  {
    var observed := 0;
    copied := [];
    while observed < |content|
      invariant observed <= |content| && observed <= r.size
      invariant copied == content[..observed]
    {
      var count := ReadCount(wish(observed), |content| - observed);
      if observed + count > r.size {
        return false, copied;
      }
      copied := copied + content[observed..observed + count];
      observed := observed + count;
    }
    assert content[..|content|] == content;
    matched := observed == r.size && digest(copied) == r.sha256;
  }

  datatype ImportError =
    BadDigest | EmptySize | SourceSize | SourceMismatch | MirrorMismatch | StagedSync | DirectorySync

  /** Whether the two syncs of a publication succeed: of the staged file, and of the directory after the rename. */
  datatype Syncs = Syncs(staged: bool, directory: bool)

  class Mirror {
    var files: map<string, seq<Byte>>

    constructor ()
      ensures files == map[]
    {
      files := map[];
    }

    /** The existing mirror file is the published bundle. */
    method VerifyFile(digest: Digester, r: Request, wish: nat -> nat) returns (ok: bool)
      requires r.sha256 in files
      ensures ok <==> Matches(digest, files[r.sha256], r)
    {
      if |files[r.sha256]| != r.size {
        return false;
      }
      var copied;
      ok, copied := StreamFile(digest, files[r.sha256], r, wish);
    }

    /**
     Installs the source under its digest, or confirms what is there; whatever
     the sizes of the single reads.  A directory sync that fails after the
     rename leaves the file published although the import reports an error.
     */
    method Import(digest: Digester, source: seq<Byte>, r: Request, wish: nat -> nat, syncs: Syncs)
      returns (result: Result<bool, ImportError>)
      modifies this
      ensures result.Success? <==>
              && Admissible(r) && Matches(digest, source, r)
              && (if r.sha256 in old(files) then Matches(digest, old(files)[r.sha256], r)
                  else syncs.staged && syncs.directory)
      ensures result.Success? ==> result.value == (r.sha256 !in old(files))
      ensures result == Failure(DirectorySync) <==>
              && Admissible(r) && Matches(digest, source, r)
              && r.sha256 !in old(files) && syncs.staged && !syncs.directory
      ensures files == if result in {Success(true), Failure(DirectorySync)} then old(files)[r.sha256 := source]
                       else old(files)
    {
      forall c ensures IsHexDigit(c) <==> c in HEX_DIGITS {
        HexDigitExact(c);
      }
      if |r.sha256| != 64 || exists i :: 0 <= i < |r.sha256| && !IsHexDigit(r.sha256[i]) {
        return Failure(BadDigest);
      }
      if r.size == 0 {
        return Failure(EmptySize);
      }
      if |source| != r.size {
        return Failure(SourceSize);
      }
      var matched, staged := StreamFile(digest, source, r, wish);
      if !matched {
        return Failure(SourceMismatch);
      }
      if r.sha256 in files {
        var same := VerifyFile(digest, r, wish);
        return if same then Success(false) else Failure(MirrorMismatch);
      }
      if !syncs.staged {
        return Failure(StagedSync);
      }
      files := files[r.sha256 := staged];
      return if syncs.directory then Success(true) else Failure(DirectorySync);
    }
  }

  // ----- Concurrent importers -----

  datatype Pc =
    | Start
    | Staging            // copying and hashing the source
    | Staged             // copy matches the request
    | Publishing         // the target was absent when checked
    | Verifying(read: seq<Byte>)  // reading back an existing target
    | Published          // renamed, the directory not yet synced
    | Done(installed: bool)
    | Refused            // a check did not pass
    | Failed(published: bool)  // an input/output error, before or after the rename

  /** `sourceSize` is what the source's metadata said; `staged` is everything read from the source. */
  datatype Importer = Importer(request: Request, pc: Pc, sourceSize: nat, staged: seq<Byte>)

  datatype State = State(files: map<string, seq<Byte>>, importers: seq<Importer>)

  datatype Action =
    | Admit(size: nat)               // the request and the size of the source are checked
    | ReadSource(chunk: seq<Byte>)   // whatever the source holds at that moment
    | SourceEnds
    | CheckTarget
    | Publish                        // no-clobber rename
    | SyncDirectory
    | ReadTarget(count: nat)
    | TargetEnds
    | Fail                           // any input/output error

  datatype Step = Step(importer: nat, action: Action)

  predicate Final(pc: Pc) {
    pc.Done? || pc.Refused? || pc.Failed?
  }

  /** What `verify_file` checks before it reads: the size. */
  function StartVerify(files: map<string, seq<Byte>>, r: Request): Pc {
    if r.sha256 in files && |files[r.sha256]| == r.size then Verifying([]) else Refused
  }

  predicate Enabled(s: State, step: Step) {
    && step.importer < |s.importers|
    && var m := s.importers[step.importer];
       match step.action
       case Admit(_) => m.pc.Start?
       case ReadSource(chunk) => m.pc.Staging? && 1 <= |chunk| <= BUFFER
       case SourceEnds => m.pc.Staging?
       case CheckTarget => m.pc.Staged?
       case Publish => m.pc.Publishing?
       case SyncDirectory => m.pc.Published?
       case ReadTarget(count) =>
         && m.pc.Verifying? && 1 <= count <= BUFFER
         && m.request.sha256 in s.files && |m.pc.read| + count <= |s.files[m.request.sha256]|
       case TargetEnds =>
         && m.pc.Verifying?
         && m.request.sha256 in s.files && |m.pc.read| == |s.files[m.request.sha256]|
       case Fail => !Final(m.pc)
  }

  function NextImporter(digest: Digester, s: State, step: Step): Importer
    requires Enabled(s, step)
  {
    var m := s.importers[step.importer];
    var r := m.request;
    match step.action
    case Admit(size) =>
      m.(pc := if Admissible(r) && size == r.size then Staging else Refused, sourceSize := size)
    case ReadSource(chunk) =>
      m.(pc := if |m.staged| + |chunk| > r.size then Refused else Staging, staged := m.staged + chunk)
    case SourceEnds => m.(pc := if Matches(digest, m.staged, r) then Staged else Refused)
    case CheckTarget => m.(pc := if r.sha256 in s.files then StartVerify(s.files, r) else Publishing)
    case Publish => m.(pc := if r.sha256 in s.files then StartVerify(s.files, r) else Published)
    case SyncDirectory => m.(pc := Done(true))
    case ReadTarget(count) =>
      var from := |m.pc.read|;
      if from + count > r.size then m.(pc := Refused)
      else m.(pc := Verifying(m.pc.read + s.files[r.sha256][from..from + count]))
    case TargetEnds => m.(pc := if Matches(digest, m.pc.read, r) then Done(false) else Refused)
    case Fail => m.(pc := Failed(m.pc.Published?))
  }

  function NextFiles(s: State, step: Step): map<string, seq<Byte>>
    requires Enabled(s, step)
  {
    var m := s.importers[step.importer];
    if step.action.Publish? && m.request.sha256 !in s.files
    then s.files[m.request.sha256 := m.staged] else s.files
  }

  function Next(digest: Digester, s: State, step: Step): State
    requires Enabled(s, step)
  {
    State(NextFiles(s, step), s.importers[step.importer := NextImporter(digest, s, step)])
  }

  function Init(initial: map<string, seq<Byte>>, requests: seq<Request>): State {
    State(initial, seq(|requests|, i requires 0 <= i < |requests| => Importer(requests[i], Start, 0, [])))
  }

  function Run(digest: Digester, initial: map<string, seq<Byte>>, requests: seq<Request>, steps: seq<Step>)
    : Option<State>
  {
    if steps == [] then Some(Init(initial, requests))
    else
      var before := Run(digest, initial, requests, steps[..|steps| - 1]);
      if before.Some? && Enabled(before.value, steps[|steps| - 1])
      then Some(Next(digest, before.value, steps[|steps| - 1]))
      else None
  }

  /** Every file of the smaller mirror is in the larger one, unchanged. */
  predicate Preserved(smaller: map<string, seq<Byte>>, larger: map<string, seq<Byte>>) {
    forall d :: d in smaller ==> d in larger && larger[d] == smaller[d]
  }

  /** The importer renamed its copy into the mirror, whatever became of it afterwards. */
  predicate IsPublisher(m: Importer) {
    m.pc in {Published, Done(true), Failed(true)}
  }

  /** A reason to refuse the import that nothing later removes. */
  predicate Refusable(digest: Digester, files: map<string, seq<Byte>>, m: Importer) {
    var r := m.request;
    || !Admissible(r) || m.sourceSize != r.size || !Matches(digest, m.staged, r)
    || (r.sha256 in files && !Matches(digest, files[r.sha256], r))
  }

  predicate ImporterOk(digest: Digester, initial: map<string, seq<Byte>>, files: map<string, seq<Byte>>, m: Importer) {
    var r := m.request;
    && (!m.pc.Start? && !m.pc.Refused? && m.pc != Failed(false) ==> Admissible(r) && m.sourceSize == r.size)
    && (m.pc.Refused? ==> Refusable(digest, files, m))
    && (m.pc.Start? ==> m.staged == [])
    && (m.pc.Staging? ==> |m.staged| <= r.size)
    && (m.pc.Staged? || m.pc.Publishing? || m.pc.Verifying? || m.pc.Done? ==> Matches(digest, m.staged, r))
    && (m.pc.Verifying? ==> r.sha256 in files && |files[r.sha256]| == r.size && m.pc.read <= files[r.sha256])
    && (m.pc.Done? ==> r.sha256 in files && Matches(digest, files[r.sha256], r))
    && (IsPublisher(m) ==>
          && r.sha256 !in initial && r.sha256 in files
          && files[r.sha256] == m.staged && Matches(digest, m.staged, r))
  }

  /** Importer `i` published the file of this digest. */
  ghost predicate PublishedBy(s: State, d: string, i: int) {
    0 <= i < |s.importers| && IsPublisher(s.importers[i]) && s.importers[i].request.sha256 == d
  }

  /** Some importer reports having installed the digest. */
  ghost predicate Installed(s: State, d: string) {
    exists i :: PublishedBy(s, d, i) && s.importers[i].pc == Done(true)
  }

  /** No two importers published the same digest. */
  ghost predicate OnePublisher(s: State) {
    forall i, j, d :: PublishedBy(s, d, i) && PublishedBy(s, d, j) ==> i == j
  }

  ghost predicate Inv(digest: Digester, initial: map<string, seq<Byte>>, s: State) {
    && Preserved(initial, s.files)
    && (forall i :: 0 <= i < |s.importers| ==> ImporterOk(digest, initial, s.files, s.importers[i]))
    && (forall d :: d in s.files && d !in initial ==> exists i :: PublishedBy(s, d, i))
    && OnePublisher(s)
  }

  lemma FilesPreserved(s: State, step: Step)
    requires Enabled(s, step)
    ensures Preserved(s.files, NextFiles(s, step))
  {
  }

  lemma OthersOk(digest: Digester, initial: map<string, seq<Byte>>, files: map<string, seq<Byte>>,
                 files': map<string, seq<Byte>>, m: Importer)
    requires ImporterOk(digest, initial, files, m) && Preserved(files, files')
    ensures ImporterOk(digest, initial, files', m)
  {
  }

  lemma StepperOk(digest: Digester, initial: map<string, seq<Byte>>, s: State, step: Step)
    requires Enabled(s, step) && Preserved(initial, s.files)
    requires ImporterOk(digest, initial, s.files, s.importers[step.importer])
    ensures ImporterOk(digest, initial, NextFiles(s, step), NextImporter(digest, s, step))
  {
    var m := s.importers[step.importer];
    if step.action.TargetEnds? {
      assert m.pc.read == s.files[m.request.sha256];
    } else if step.action.ReadTarget? {
      var file, from := s.files[m.request.sha256], |m.pc.read|;
      assert m.pc.read + file[from..from + step.action.count] == file[..from + step.action.count];
    }
  }

  /** A step makes an importer a publisher only by the rename, which needs the name to be free. */
  lemma StillPublisher(digest: Digester, s: State, step: Step)
    requires Enabled(s, step)
    ensures var m, m' := s.importers[step.importer], NextImporter(digest, s, step);
            && m'.request == m.request
            && (IsPublisher(m) ==> IsPublisher(m'))
            && (IsPublisher(m') && !IsPublisher(m) ==> step.action.Publish? && m.request.sha256 !in s.files)
  {
  }

  lemma PublisherKept(digest: Digester, s: State, step: Step, d: string, i: int)
    requires Enabled(s, step) && PublishedBy(s, d, i)
    ensures PublishedBy(Next(digest, s, step), d, i)
  {
    StillPublisher(digest, s, step);
  }

  lemma PublisherExists(digest: Digester, initial: map<string, seq<Byte>>, s: State, step: Step, d: string)
    requires Inv(digest, initial, s) && Enabled(s, step)
    requires d in NextFiles(s, step) && d !in initial
    ensures exists i :: PublishedBy(Next(digest, s, step), d, i)
  {
    if d in s.files {
      var i :| PublishedBy(s, d, i);
      PublisherKept(digest, s, step, d, i);
    } else {
      assert PublishedBy(Next(digest, s, step), d, step.importer);
    }
  }

  /** A publisher after a step was one before, or has just taken a free name. */
  lemma PublisherBefore(digest: Digester, initial: map<string, seq<Byte>>, s: State, step: Step, d: string, i: int)
    requires Inv(digest, initial, s) && Enabled(s, step) && PublishedBy(Next(digest, s, step), d, i)
    ensures PublishedBy(s, d, i) || (i == step.importer && d !in s.files)
  {
    StillPublisher(digest, s, step);
  }

  lemma PublisherUnique(
    digest: Digester, initial: map<string, seq<Byte>>, s: State, step: Step, d: string, i: int, j: int)
    requires Inv(digest, initial, s) && Enabled(s, step)
    requires PublishedBy(Next(digest, s, step), d, i) && PublishedBy(Next(digest, s, step), d, j)
    ensures i == j
  {
    PublisherBefore(digest, initial, s, step, d, i);
    PublisherBefore(digest, initial, s, step, d, j);
    if PublishedBy(s, d, i) {
      assert ImporterOk(digest, initial, s.files, s.importers[i]);
    }
    if PublishedBy(s, d, j) {
      assert ImporterOk(digest, initial, s.files, s.importers[j]);
    }
  }

  lemma InvKept(digest: Digester, initial: map<string, seq<Byte>>, s: State, step: Step)
    requires Inv(digest, initial, s) && Enabled(s, step)
    ensures Inv(digest, initial, Next(digest, s, step))
  {
    var s' := Next(digest, s, step);
    FilesPreserved(s, step);
    StepperOk(digest, initial, s, step);
    forall i | 0 <= i < |s'.importers| ensures ImporterOk(digest, initial, s'.files, s'.importers[i]) {
      if i != step.importer {
        OthersOk(digest, initial, s.files, s'.files, s.importers[i]);
      }
    }
    forall d | d in s'.files && d !in initial ensures exists i :: PublishedBy(s', d, i) {
      PublisherExists(digest, initial, s, step, d);
    }
    forall i, j, d | PublishedBy(s', d, i) && PublishedBy(s', d, j) ensures i == j {
      PublisherUnique(digest, initial, s, step, d, i, j);
    }
  }

  lemma {:induction false} RunInv(
    digest: Digester, initial: map<string, seq<Byte>>, requests: seq<Request>, steps: seq<Step>)
    requires Run(digest, initial, requests, steps).Some?
    ensures Inv(digest, initial, Run(digest, initial, requests, steps).value)
  {
    if steps != [] {
      var front := steps[..|steps| - 1];
      RunInv(digest, initial, requests, front);
      InvKept(digest, initial, Run(digest, initial, requests, front).value, steps[|steps| - 1]);
    }
  }

  /** Nothing ever published or already present changes, from any moment of a run to any later one. */
  lemma {:induction false} NeverChanged(
    digest: Digester, initial: map<string, seq<Byte>>, requests: seq<Request>, steps: seq<Step>, k: nat)
    requires k <= |steps| && Run(digest, initial, requests, steps).Some?
    ensures Run(digest, initial, requests, steps[..k]).Some?
    ensures Preserved(Run(digest, initial, requests, steps[..k]).value.files,
                      Run(digest, initial, requests, steps).value.files)
    decreases |steps|
  {
    if k == |steps| {
      assert steps[..k] == steps;
    } else {
      var front := steps[..|steps| - 1];
      assert front[..k] == steps[..k];
      NeverChanged(digest, initial, requests, front, k);
      FilesPreserved(Run(digest, initial, requests, front).value, steps[|steps| - 1]);
    }
  }

  /** The publisher of the digest failed after its rename, when only the directory sync was left. */
  ghost predicate FailedAfterRename(s: State, d: string) {
    exists i :: PublishedBy(s, d, i) && s.importers[i].pc == Failed(true)
  }

  ghost predicate StillSyncing(s: State, d: string) {
    exists i :: PublishedBy(s, d, i) && s.importers[i].pc == Published
  }

  /**
   Concurrent import safety, from any mirror and for any interleaving and any
   chunking of reads: a published file hashes to its own name and was read whole
   by the one importer that published it; every importer that succeeds finds the
   published bundle, and had itself read exactly that bundle.
   */
  lemma ConcurrentImportSafety(
    digest: Digester, initial: map<string, seq<Byte>>, requests: seq<Request>, steps: seq<Step>)
    requires Run(digest, initial, requests, steps).Some?
    ensures var s := Run(digest, initial, requests, steps).value;
            && (forall d :: d in s.files && d !in initial ==>
                  digest(s.files[d]) == d && exists i :: PublishedBy(s, d, i) && s.importers[i].staged == s.files[d])
            && OnePublisher(s)
            && (forall i :: 0 <= i < |s.importers| && s.importers[i].pc.Done? ==>
                  var r := s.importers[i].request;
                  && Admissible(r) && Matches(digest, s.importers[i].staged, r)
                  && r.sha256 in s.files && Matches(digest, s.files[r.sha256], r)
                  && (s.importers[i].pc.installed ==>
                        r.sha256 !in initial && s.files[r.sha256] == s.importers[i].staged))
  {
    var s := Run(digest, initial, requests, steps).value;
    RunInv(digest, initial, requests, steps);
    forall d | d in s.files && d !in initial
      ensures digest(s.files[d]) == d && exists i :: PublishedBy(s, d, i) && s.importers[i].staged == s.files[d]
    {
      var i :| PublishedBy(s, d, i);
      assert ImporterOk(digest, initial, s.files, s.importers[i]);
    }
  }

  /**
   A published digest has an importer that reports installing it, and only one,
   exactly when its publisher is past the directory sync and did not fail there.
   */
  lemma InstalledExactly(
    digest: Digester, initial: map<string, seq<Byte>>, requests: seq<Request>, steps: seq<Step>, d: string)
    requires Run(digest, initial, requests, steps).Some?
    requires d in Run(digest, initial, requests, steps).value.files && d !in initial
    ensures var s := Run(digest, initial, requests, steps).value;
            && (Installed(s, d) <==> !FailedAfterRename(s, d) && !StillSyncing(s, d))
            && (forall i, j ::
                  (0 <= i < |s.importers| && 0 <= j < |s.importers|
                   && s.importers[i].pc == s.importers[j].pc == Done(true)
                   && s.importers[i].request.sha256 == s.importers[j].request.sha256) ==> i == j)
  {
    var s := Run(digest, initial, requests, steps).value;
    RunInv(digest, initial, requests, steps);
    var p :| PublishedBy(s, d, p);
    forall i | PublishedBy(s, d, i) ensures i == p {
    }
    forall i, j | 0 <= i < |s.importers| && 0 <= j < |s.importers|
      && s.importers[i].pc == s.importers[j].pc == Done(true)
      && s.importers[i].request.sha256 == s.importers[j].request.sha256
      ensures i == j
    {
      assert PublishedBy(s, s.importers[i].request.sha256, i) && PublishedBy(s, s.importers[i].request.sha256, j);
    }
  }

  // ----- Outcomes in terms of the steps taken -----

  predicate NeverFails(steps: seq<Step>, i: nat) {
    Step(i, Fail) !in steps
  }

  /** Everything importer `i` read from its source. */
  function ReadBy(steps: seq<Step>, i: nat): seq<Byte> {
    if steps == [] then []
    else
      var last, before := steps[|steps| - 1], ReadBy(steps[..|steps| - 1], i);
      if last.importer == i && last.action.ReadSource? then before + last.action.chunk else before
  }

  /** The source size importer `i` was shown. */
  function SizeShown(steps: seq<Step>, i: nat): nat {
    if steps == [] then 0
    else
      var last := steps[|steps| - 1];
      if last.importer == i && last.action.Admit? then last.action.size else SizeShown(steps[..|steps| - 1], i)
  }

  /** Importer `i` renamed its copy into the mirror under a name that was free. */
  ghost predicate Renamed(
    digest: Digester, initial: map<string, seq<Byte>>, requests: seq<Request>, steps: seq<Step>, i: nat)
  {
    i < |requests| && exists k :: RenamedAt(digest, initial, requests, steps, i, k)
  }

  ghost predicate RenamedAt(
    digest: Digester, initial: map<string, seq<Byte>>, requests: seq<Request>, steps: seq<Step>, i: nat, k: int)
    requires i < |requests|
  {
    && 0 <= k < |steps| && steps[k] == Step(i, Publish)
    && Run(digest, initial, requests, steps[..k]).Some?
    && requests[i].sha256 !in Run(digest, initial, requests, steps[..k]).value.files
  }

  lemma {:induction false} RenamedBefore(
    digest: Digester, initial: map<string, seq<Byte>>, requests: seq<Request>, steps: seq<Step>, i: nat)
    requires steps != [] && Run(digest, initial, requests, steps).Some? && i < |requests|
    ensures var front, last := steps[..|steps| - 1], steps[|steps| - 1];
            && Run(digest, initial, requests, front).Some?
            && (Renamed(digest, initial, requests, steps, i) <==>
                  || Renamed(digest, initial, requests, front, i)
                  || (last == Step(i, Publish)
                      && requests[i].sha256 !in Run(digest, initial, requests, front).value.files))
  {
    var front, n := steps[..|steps| - 1], |steps| - 1;
    if k :| RenamedAt(digest, initial, requests, steps, i, k) {
      if k < n {
        assert front[..k] == steps[..k];
        assert RenamedAt(digest, initial, requests, front, i, k);
      }
    }
    if k :| RenamedAt(digest, initial, requests, front, i, k) {
      assert front[..k] == steps[..k];
      assert RenamedAt(digest, initial, requests, steps, i, k);
    }
    if steps[n] == Step(i, Publish) && requests[i].sha256 !in Run(digest, initial, requests, front).value.files {
      assert RenamedAt(digest, initial, requests, steps, i, n);
    }
  }

  /** What the steps of a run say about an importer is what its state says. */
  lemma {:induction false} History(
    digest: Digester, initial: map<string, seq<Byte>>, requests: seq<Request>, steps: seq<Step>, i: nat)
    requires Run(digest, initial, requests, steps).Some? && i < |requests|
    ensures |Run(digest, initial, requests, steps).value.importers| == |requests|
    ensures var m := Run(digest, initial, requests, steps).value.importers[i];
            && m.request == requests[i]
            && m.staged == ReadBy(steps, i) && m.sourceSize == SizeShown(steps, i)
            && (m.pc.Failed? <==> !NeverFails(steps, i))
            && (IsPublisher(m) <==> Renamed(digest, initial, requests, steps, i))
  {
    if steps != [] {
      var front, last := steps[..|steps| - 1], steps[|steps| - 1];
      History(digest, initial, requests, front, i);
      RenamedBefore(digest, initial, requests, steps, i);
      assert steps == front + [last];
      StillPublisher(digest, Run(digest, initial, requests, front).value, last);
    }
  }

  /**
   Outcomes, for every run.  An importer that is finished and met no
   input/output error succeeded exactly when its request is admissible, the
   source had the published size, what it read is the published bundle and the
   file under the digest is too; and it reports an installation exactly when it
   was the one to rename its copy into the mirror.
   */
  lemma OutcomeExactly(
    digest: Digester, initial: map<string, seq<Byte>>, requests: seq<Request>, steps: seq<Step>, i: nat)
    requires Run(digest, initial, requests, steps).Some? && i < |requests|
    requires |Run(digest, initial, requests, steps).value.importers| == |requests|
    requires Final(Run(digest, initial, requests, steps).value.importers[i].pc) && NeverFails(steps, i)
    ensures var s, r := Run(digest, initial, requests, steps).value, requests[i];
            && (s.importers[i].pc.Done? <==>
                  && Admissible(r) && SizeShown(steps, i) == r.size && Matches(digest, ReadBy(steps, i), r)
                  && r.sha256 in s.files && Matches(digest, s.files[r.sha256], r))
            && (s.importers[i].pc.Done? ==>
                  (s.importers[i].pc.installed <==> Renamed(digest, initial, requests, steps, i)))
  {
    var s := Run(digest, initial, requests, steps).value;
    RunInv(digest, initial, requests, steps);
    History(digest, initial, requests, steps, i);
    assert ImporterOk(digest, initial, s.files, s.importers[i]);
  }

  /** No importer waits for another: one that is not finished can always go on without an error. */
  lemma NeverStuck(
    digest: Digester, initial: map<string, seq<Byte>>, requests: seq<Request>, steps: seq<Step>, i: nat)
    returns (step: Step)
    requires Run(digest, initial, requests, steps).Some?
    requires i < |Run(digest, initial, requests, steps).value.importers|
    requires !Final(Run(digest, initial, requests, steps).value.importers[i].pc)
    ensures step.importer == i && !step.action.Fail? && Enabled(Run(digest, initial, requests, steps).value, step)
  {
    var s := Run(digest, initial, requests, steps).value;
    RunInv(digest, initial, requests, steps);
    var m := s.importers[i];
    assert ImporterOk(digest, initial, s.files, m);
    match m.pc {
      case Start => step := Step(i, Admit(0));
      case Staging => step := Step(i, SourceEnds);
      case Staged => step := Step(i, CheckTarget);
      case Publishing => step := Step(i, Publish);
      case Published => step := Step(i, SyncDirectory);
      case Verifying(read) =>
        var file := s.files[m.request.sha256];
        if |read| == |file| {
          step := Step(i, TargetEnds);
        } else {
          step := Step(i, ReadTarget(1));
        }
    }
  }

  // ----- Two runs -----

  /** Takes one more step of a run. */
  lemma Take(
    digest: Digester, requests: seq<Request>, steps: seq<Step>, s: State, step: Step)
    returns (steps': seq<Step>, s': State)
    requires Run(digest, map[], requests, steps) == Some(s) && Enabled(s, step)
    ensures steps' == steps + [step] && s' == Next(digest, s, step) && Run(digest, map[], requests, steps') == Some(s')
  {
    steps', s' := steps + [step], Next(digest, s, step);
    assert steps'[..|steps|] == steps;
  }

  /** A run, for any bundle that fits one read, that publishes a file no importer reports having installed. */
  lemma PublishedUninstalled(digest: Digester, bundle: seq<Byte>, r: Request) returns (steps: seq<Step>)
    requires Admissible(r) && Matches(digest, bundle, r) && |bundle| <= BUFFER
    ensures Run(digest, map[], [r], steps).Some?
    ensures var s := Run(digest, map[], [r], steps).value;
            s.files == map[r.sha256 := bundle] && !Installed(s, r.sha256)
  {
    var s := Init(map[], [r]);
    steps := [];
    steps, s := Take(digest, [r], steps, s, Step(0, Admit(r.size)));
    steps, s := Take(digest, [r], steps, s, Step(0, ReadSource(bundle)));
    assert [] + bundle == bundle;
    steps, s := Take(digest, [r], steps, s, Step(0, SourceEnds));
    steps, s := Take(digest, [r], steps, s, Step(0, CheckTarget));
    steps, s := Take(digest, [r], steps, s, Step(0, Publish));
    steps, s := Take(digest, [r], steps, s, Step(0, Fail));
  }

  /** Importer `i` stages the bundle and finds the name free. */
  lemma Stage(digest: Digester, requests: seq<Request>, bundle: seq<Byte>, steps: seq<Step>, s: State, i: nat)
    returns (steps': seq<Step>, s': State)
    requires Run(digest, map[], requests, steps) == Some(s) && i < |s.importers| && s.files == map[]
    requires s.importers[i].pc == Start && s.importers[i].staged == [] && Admissible(s.importers[i].request)
    requires Matches(digest, bundle, s.importers[i].request) && |bundle| <= BUFFER
    ensures Run(digest, map[], requests, steps') == Some(s') && s'.files == map[]
    ensures s'.importers == s.importers[i := Importer(s.importers[i].request, Publishing, |bundle|, bundle)]
  {
    steps', s' := Take(digest, requests, steps, s, Step(i, Admit(|bundle|)));
    steps', s' := Take(digest, requests, steps', s', Step(i, ReadSource(bundle)));
    assert [] + bundle == bundle;
    steps', s' := Take(digest, requests, steps', s', Step(i, SourceEnds));
    steps', s' := Take(digest, requests, steps', s', Step(i, CheckTarget));
  }

  /** Two importers of one bundle race to the rename: the first installs, the other confirms. */
  lemma InstallAndConfirm(digest: Digester, bundle: seq<Byte>, r: Request) returns (steps: seq<Step>)
    requires Admissible(r) && Matches(digest, bundle, r) && |bundle| <= BUFFER
    ensures Run(digest, map[], [r, r], steps).Some?
    ensures var s := Run(digest, map[], [r, r], steps).value;
            && s.files == map[r.sha256 := bundle] && |s.importers| == 2
            && s.importers[0].pc == Done(true) && s.importers[1].pc == Done(false)
  {
    var rs := [r, r];
    var s := Init(map[], rs);
    steps := [];
    steps, s := Stage(digest, rs, bundle, steps, s, 0);
    steps, s := Stage(digest, rs, bundle, steps, s, 1);
    steps, s := Take(digest, rs, steps, s, Step(0, Publish));
    steps, s := Take(digest, rs, steps, s, Step(0, SyncDirectory));
    steps, s := Take(digest, rs, steps, s, Step(1, Publish));
    steps, s := Take(digest, rs, steps, s, Step(1, ReadTarget(|bundle|)));
    assert [] + bundle[0..|bundle|] == bundle;
    steps, s := Take(digest, rs, steps, s, Step(1, TargetEnds));
  }
}
