# Verified model of AkiDB's qualification and benchmark tools

AkiDB ships tools that decide whether a server may be trusted: a crash-recovery
qualification that drives a server while it is killed, an importer for
content-addressed bundles, a restore oracle that replays canonical mutations,
and benchmarks that compare answers with known ones. Each of them is only worth
something if its verdict is right. This project models their logic in Dafny and
proves what the verdicts rest on.

`dafny verify dfyconfig.toml` checks everything.

## What is modelled

**Crash recovery** (`RecoveryJournal`, `JournalFile`, `RecoveryProtocol`,
`RecoveryVerifier`, `RecoverySafety`, `RecoveryCounters`, `RecoveryStop`,
`RecoveryQualification`, `RecoveryWriter`, `JournalCodec`). Workers claim cycle
numbers from a shared counter, write a durable allocation record, and drive one identifier through insert,
update and delete, writing a durable acknowledgement after each call. The
workers, the journal and the server are one transition system that interleaves
at every shared access. A verifier later parses the journal, which may end in a
torn line, and decides for every cycle whether what survived is explainable.
The main results hold for any number of workers and every run: the journal
parses wherever it was torn, the verifier passes every cycle, the server is
ahead of the journal by at most one operation on at most as many cycles as calls
failed, and cleanup restores the baseline record for record. `QualifyRun` is the
whole chain in one contract.

The premises: writes the server applied survive its restart; a call that fails
was applied before the failure, is applied later, or never; no journal append
fails in its write or sync (such a run is reported as failed by the tool itself;
that no append is refused for its number is proved, in `RecoveryWriter`); and
no record of the baseline already uses an identifier of the run. The baseline
may otherwise hold anything, probe records of other runs included. How far the
last premise is needed is proved too: `SafetyExactly` says for every baseline
exactly when all runs are safe, and `SafetyIffFreshPrefix` that this is the
premise itself as long as no baseline record carries the run's own identity.

**Bundle mirror** (`BundleMirror`). The importer as a method over the mirror,
and importers racing through staging, checking and no-clobber publishing as a
transition system. SHA-256 is an arbitrary function.

**Mutation replay** (`MutationReplay`). The restore oracle's dictionaries, proved
equal to a last-writer-wins reading of the mutation contracts.

**Known-answer graph** (`GraphIds`, `KeyedMaps`, `GraphStore`, `PathSearch`,
`GraphOracle`). Identifiers, the batched builder, the breadth-first path search
and the five known-answer queries, from arguments to verdict. The index behind
the queries is any that lists incident edges truthfully and cuts a listing only
at its limit.

**What a verdict says about any graph** (`ListingCuts`, `GraphSoundness`,
`TwoHopSoundness`, `PathSoundness`, `GraphVerdicts`). The store may hold other
edges than the builder's. For each of the five queries the truth about the edges
is stated without the index, and `GraphVerdicts.VerdictExactly` says for every
edge map exactly when every truthful index yields that truth, so that surplus
and missing edges are both caught. The graph of the builder always meets the
condition.

**Nearest-neighbour pipeline** (`VectorFile`, `GroundTruth`, `CorpusLoad`). The
vector file format with its two readers and its writer, exactness of filtered
ground truth, recall, row numbering and row identifiers.

**Memory benchmark** (`CommitWindow`) and **answer scoring** (`TokenOverlap`).

`Wrappers`, `Decimal` and `Counting` hold what the models share.

## Where the code does less than one might expect

- With a single document the negative path query of the graph benchmark asks for
  a path from a document to itself, which exists. `GraphOracle.AnswersAgree`
  states the exact condition: at least two documents. The argument checks admit
  one document.
- A known-answer query lists one edge more than it expects, so that a surplus
  shows. Parallel edges to one chunk can fill the listing and hide it:
  `GraphSoundness.ParallelEdgesMislead` is such a graph, and
  `GraphSoundness.OneHopSound` says that without parallel edges the verdict is
  right. The exact condition of each query is in `GraphVerdicts.VerdictExactly`.
- The loader counts what the server reports. A batch reported larger than it was
  shifts the numbers of all later rows. `CorpusLoad.NumberingExact` states the
  exact condition and `CorpusLoad.OverReportRun` is such a load.
- The two vector file readers differ on the empty file only
  (`VectorFile.EmptyFile`); on all others `VectorFile.ReadersAgree` holds.
- A lost acknowledged write is rejected except where a delete would explain the
  absence (`RecoveryVerifier.LostWriteRejected`).
- A bundle import that fails in the directory sync after its rename reports an
  error although the file is published (`BundleMirror.PublishedUninstalled`);
  `BundleMirror.InstalledExactly` states when a published file has an importer
  that reports it.
- The memory benchmark's visibility lag is always reported as zero: a commit that
  is not yet visible is refused first (`CommitWindow.RunCommits`).
- The ground-truth validators alone accept a row narrower than top-k when there
  is no filter; the width guard of the query loader closes that
  (`GroundTruth.CutExact`, `GroundTruth.PrepareTruth`).
- Probe vectors of equal revision repeat every 10000 cycles
  (`RecoveryVerifier.RevisionsNeverMatch`).

## Model

| member | source | states |
|---|---|---|
| `RecoveryJournal.ReplayExact` | crates/benchmark/src/recovery.rs:889-955 | replaying records succeeds exactly when the events of every cycle are a prefix of that cycle's script; then the tally is what those events say and accounts for every record |
| `RecoveryJournal.AckCountsOrdered` | crates/benchmark/src/recovery.rs:915-953 | deletes ≤ updates ≤ inserts ≤ cycles in every accepted journal |
| `RecoveryJournal.ScriptsPrefixClosed` | crates/benchmark/src/recovery.rs:889-955 | a journal whose cycles keep to their scripts still does after whole records are cut off its end |
| `JournalFile.ReadLines` | crates/benchmark/src/recovery.rs:831-855 | the line loop yields the records of the complete lines and whether an unterminated line follows, or the first error |
| `JournalFile.ReplayAll` | crates/benchmark/src/recovery.rs:889-955 | the record loop computes the replay that `ReplayExact` characterises |
| `JournalFile.ParseJournal` | crates/benchmark/src/recovery.rs:831-965 | the parser as it runs equals reading lines, checking numbers from zero, the header, and replaying |
| `JournalFile.ParseExact` | crates/benchmark/src/recovery.rs:856-964 | a record sequence is accepted exactly when it is numbered from zero, opens with a supported header and every cycle keeps to its script; complete records = 1 + cycles + acknowledgements |
| `JournalFile.TornJournal` | crates/benchmark/src/recovery.rs:831-965 | any byte prefix of an accepted journal parses exactly when the header line is whole; it equals the parse of the complete lines, flags a tail exactly when cut inside a line, and the whole journal extends it in cycles and acknowledgements |
| `JournalFile.PartialTailIgnored` | crates/benchmark/src/recovery.rs:836-855 | unterminated text after a complete journal changes the parse only in the flag |
| `JournalFile.WrittenReadsBack` | crates/benchmark/src/recovery.rs:230-246 | what the writer wrote reads back record for record |
| `JournalFile.JournalWriter.Append` | crates/benchmark/src/recovery.rs:230-246 | appends exactly the next numbered record and keeps the file the encoding of the records; refuses a gap unchanged; an exhausted counter leaves the line written |
| `JournalFile.JournalWriter.RecordAllocation` | crates/benchmark/src/recovery.rs:248-254 | appends the allocation under the next number; at the last 64-bit number the line is written and an error reported |
| `JournalFile.JournalWriter.RecordAck` | crates/benchmark/src/recovery.rs:256-264 | appends the acknowledgement under the next number; at the last 64-bit number the line is written and an error reported |
| `JournalCodec.FaithfulCodecExists` | crates/benchmark/src/recovery.rs:157-181 | an encoding exists that gives every record its own non-empty line without a newline, as the journal results ask |
| `RecoveryProtocol.ProbeIdInjective` | crates/benchmark/src/recovery.rs:550-552 | different cycles have different identifiers, however long the number |
| `RecoveryProtocol.InvKept` | crates/benchmark/src/recovery.rs:656-779 | every step of every worker and of the server keeps the protocol invariant |
| `RecoveryProtocol.RunInv` | crates/benchmark/src/recovery.rs:641-781 | the invariant holds in every run, with any workers, interleaving, lost responses, late writes and panics |
| `RecoveryVerifier.AcceptanceExact` | crates/benchmark/src/recovery.rs:1015-1032 | the acceptance table accepts exactly the states explained by the last acknowledgement or one operation more, and flags exactly the latter |
| `RecoveryVerifier.ObservedExactly` | crates/benchmark/src/recovery.rs:995-1005 | a revision is observed exactly in a found record marked as a probe, of this run and this cycle, whose revision is 1 or 2 |
| `RecoveryVerifier.CountedExactly` | crates/benchmark/src/recovery.rs:1113-1118 | a cycle counts as verified exactly when its Get is answered at a position the last acknowledgement explains, and as advanced exactly one beyond |
| `RecoveryVerifier.PassesExactly` | crates/benchmark/src/recovery.rs:1090-1120 | the checks of one answer pass exactly when it is no record, or a record of this run and cycle with the vector of its revision, at a position between the last acknowledgement and one beyond |
| `RecoveryVerifier.LostWriteRejected` | crates/benchmark/src/recovery.rs:1015-1032 | a server that went back behind an acknowledgement is accepted exactly when the record is absent on a cycle that ends in deletion with its update acknowledged |
| `RecoveryVerifier.ProbeVectorsMatch` | crates/benchmark/src/recovery.rs:554-565 | in-range probe vectors match within the tolerance iff 31(c−c')+13(r−r') is divisible by 10000 |
| `RecoveryVerifier.RevisionsNeverMatch` | crates/benchmark/src/recovery.rs:1007-1013 | the two revisions of a cycle never match; equal revisions match iff the cycles agree modulo 10000 |
| `RecoveryVerifier.ProbeVectorAt` | crates/benchmark/src/recovery.rs:554-565 | for every cycle, revision and width the tool admits, coordinate i is the fractional part of (31c+17i+13r)/10000 |
| `RecoveryVerifier.MatchBoundary` | crates/benchmark/src/recovery.rs:1007-1013 | moving one coordinate keeps the match exactly up to 0.000001, and a vector never matches a shorter one |
| `RecoveryVerifier.CollectOutcomes` | crates/benchmark/src/recovery.rs:1072-1125 | the check loop counts the verified and advanced cycles and reports no failure iff no cycle has one |
| `RecoveryVerifier.CheckCycles` | crates/benchmark/src/recovery.rs:1072-1125 | one Get per journaled cycle: exact counts, and no failure iff every answer is explained, field by field, by the crash boundary of its cycle |
| `RecoveryVerifier.VerifiedAllExact` | crates/benchmark/src/recovery.rs:1072-1125 | when every Get is answered, all cycles count as verified iff each observation is explained by some position between the last acknowledgement and one beyond |
| `RecoveryVerifier.Cleanup` | crates/benchmark/src/recovery.rs:1127-1161 | deletes exactly the journaled identifiers whose requests take effect, and counts exactly the records confirmed deleted and the requests that failed or were answered inconsistently |
| `RecoverySafety.JournalAccepted` | crates/benchmark/src/recovery.rs:831-965 | the journal of every state that satisfies the invariant is accepted and summarises its records |
| `RecoverySafety.DiskParses` | crates/benchmark/src/recovery.rs:831-965 | the bytes on disk, with any torn append after them, parse to the durable records |
| `RecoverySafety.WritesFollowAcks` | crates/benchmark/src/recovery.rs:673-777 | the server made as many writes on a journaled cycle as were acknowledged, or one more, never past the target |
| `RecoverySafety.SafeExactly` | crates/benchmark/src/recovery.rs:1072-1125 | a state passes the verifier exactly when every allocated cycle is free of earlier records or shows one that looks like its own first insert, whatever the baseline holds |
| `RecoverySafety.SafetyOverEveryRun` | crates/benchmark/src/recovery.rs:656-779 | in every run, wherever an append was torn, the journal parses to what was durably recorded and the verifier passes every cycle in it |
| `RecoverySafety.SafetyExactly` | crates/benchmark/src/recovery.rs:656-779 | for every baseline, all reachable states are safe iff each identifier the run may use is free or holds a record that looks like the run's own first insert of that cycle |
| `RecoverySafety.SafetyIffFreshPrefix` | crates/benchmark/src/recovery.rs:656-779 | over a baseline that may hold foreign records and probe records of other runs, all reachable states are safe iff no baseline record uses an identifier of the run |
| `RecoveryCounters.MergeSummaries` | crates/benchmark/src/recovery.rs:783-789 | joining the workers adds their summaries, a panicked one counting as one failure |
| `RecoveryCounters.CompleteRunAcks` | crates/benchmark/src/recovery.rs:139-148 | when the first n cycles are complete, n were inserted, n - ceil(n/3) updated and floor(n/3) deleted |
| `RecoveryCounters.FailuresCountInterruptions` | crates/benchmark/src/recovery.rs:783-789 | when all workers have left, the merged call failures number exactly the interrupted workers |
| `RecoveryCounters.BoundedUncertainty` | crates/benchmark/src/recovery.rs:658-789 | at the end of every run the server is at most one write ahead on each cycle, the verifier's advances are exactly those cycles, and their number ≤ call failures ≤ workers |
| `RecoveryCounters.CountersMatchJournal` | crates/benchmark/src/recovery.rs:679-777 | at every moment of every run without a panic the merged counters equal the parsed counts, completed targets being the cycles whose last acknowledgement is final |
| `RecoveryCounters.CountersBounded` | crates/benchmark/src/recovery.rs:659-662 | the cycle counter exceeds the limit by at most one claim per worker and the journal has at most four records per cycle |
| `RecoveryStop.StopExactly` | crates/benchmark/src/recovery.rs:695-775 | in every run the stop flag is set exactly if some call failed |
| `RecoveryStop.AfterStop` | crates/benchmark/src/recovery.rs:658-672 | from the moment a call failed a run claims at most one more cycle per worker past the loop's check of the flag, and takes up at most one more per worker past the second check |
| `RecoveryQualification.NoOrphans` | crates/benchmark/src/recovery.rs:673-777 | at every moment each record that differs from the baseline has its allocation in the final journal, and each cycle's operations were applied in order, each at most once |
| `RecoveryQualification.CleanupRestoresBaseline` | crates/benchmark/src/recovery.rs:1127-1161 | deleting the journaled cycles restores the baseline record for record iff no baseline record used one of their identifiers |
| `RecoveryQualification.RunVerify` | crates/benchmark/src/recovery.rs:1034-1220 | the verifier fails exactly on an unparsable journal, leaving the server alone; otherwise counts and cleanup are exact, and it passes iff the server is healthy, the baseline and floors agree, every cycle is answered and explained and a requested cleanup is confirmed and leaves the expected number of records |
| `RecoveryQualification.QualifyRun` | crates/benchmark/src/recovery.rs:1034-1220 | verifying any stopped run against a recovered server finds no failure, verifies every cycle, reports advances within the call failures, leaves the server as the baseline, and passes exactly when the acknowledgement floors are met |
| `RecoveryWriter.PerformAppend` | crates/benchmark/src/recovery.rs:577-598 | an append step of any run, performed on the writer, is never refused as out of sequence or out of numbers, and leaves the journal of the next state |
| `RecoveryWriter.WriteRun` | crates/benchmark/src/recovery.rs:632-779 | a whole run on one writer leaves exactly the encoded journal of its final state, which parses to what the run recorded |
| `BundleMirror.StreamFile` | crates/cli/src/bundle.rs:85-106 | however the reads are chunked, the streamed hash and size check accepts exactly the published bytes and copies them whole |
| `BundleMirror.Mirror.VerifyFile` | crates/cli/src/bundle.rs:126-152 | an existing file is confirmed exactly when it is the published bundle |
| `BundleMirror.Mirror.Import` | crates/cli/src/bundle.rs:57-124 | an import succeeds exactly on an admissible request with a matching source, a matching file present or both syncs succeeding; it publishes the source on success and also when only the directory sync fails, and changes nothing otherwise |
| `BundleMirror.InvKept` | crates/cli/src/bundle.rs:85-124 | every step of every importer keeps the mirror invariant |
| `BundleMirror.NeverChanged` | crates/cli/src/bundle.rs:107-124 | from any moment of a run to any later one, no file in the mirror changes or disappears |
| `BundleMirror.ConcurrentImportSafety` | crates/cli/src/bundle.rs:57-152 | in every interleaving each published file hashes to its name and was staged by its one publisher, and every success had read the bundle and finds it in place |
| `BundleMirror.InstalledExactly` | crates/cli/src/bundle.rs:112-123 | a published digest has an importer reporting it installed exactly when its publisher is past the directory sync and did not fail there; never more than one importer reports it |
| `BundleMirror.OutcomeExactly` | crates/cli/src/bundle.rs:57-152 | in every interleaving an importer that met no input or output error succeeded iff its request is admissible, the source had the published size, what it read is the bundle and the file in place is too; it reports an installation iff it did the rename |
| `BundleMirror.NeverStuck` | crates/cli/src/bundle.rs:57-124 | an unfinished importer can always go on, whatever the others do |
| `BundleMirror.InstallAndConfirm` | crates/cli/src/bundle.rs:107-124 | two importers of the same bundle: one installs it, the other confirms it |
| `BundleMirror.PublishedUninstalled` | crates/cli/src/bundle.rs:112-116 | a run that publishes a file no importer reports having installed |
| `MutationReplay.LoadBundle` | scripts/verify_knowledge_restore.py:125-140 | loading succeeds exactly when every line fits and is readable, the lines fit together and no chunk repeats; it collects exactly the bundle's records |
| `MutationReplay.CheckExact` | scripts/verify_knowledge_restore.py:149-174 | the checks of one contract pass exactly when it has the expected number, the manifest's scope, and a sound operation and payload |
| `MutationReplay.PassedExact` | scripts/verify_knowledge_restore.py:145-178 | all contracts pass exactly when numbered without a gap from the target and each is sound |
| `MutationReplay.LiveAfter` | scripts/verify_knowledge_restore.py:164-176 | one more contract decides its own chunk and leaves every other chunk's liveness alone |
| `MutationReplay.LogicalRecords` | scripts/verify_knowledge_restore.py:112-179 | replay succeeds exactly on acceptable input; a chunk is live iff its last operation is an upsert, with that value, or it is an untouched base record; deleted is exactly the chunks last deleted, disjoint from the live ones; a failure is the first fault |
| `GraphIds.ScopedInjective` | crates/graph/src/model.rs:20-30 | scoped identifiers determine workspace and local part, even when both contain colons |
| `GraphIds.PartsOfScoped` | crates/graph/src/model.rs:59-71 | parsing a scoped identifier returns the workspace and local part it was built from |
| `GraphIds.NodeIdInjective` | crates/benchmark/src/graph.rs:274-284 | document, chunk and entity identifiers never coincide, within or across workspaces |
| `GraphIds.EdgeIdInjective` | crates/benchmark/src/graph.rs:286-292 | containment and mention edge identifiers never coincide within a workspace |
| `GraphIds.ChunkIdExact` | crates/graph/src/model.rs:53-57 | of the graph's nodes exactly the chunks have chunk identifiers |
| `GraphIds.ChunkIdLabelled` | crates/graph/src/model.rs:38-57 | an identifier, scoped or not, is that of a chunk exactly when its local part is the chunk label followed by any text |
| `GraphStore.MergeEntries` | crates/graph/src/native.rs:293-318 | folding a batch by identifier keeps the last entry given for each |
| `GraphStore.Store.UpsertBatch` | crates/graph/src/native.rs:287-337 | merging by identifier and writing in any order leaves the store as if every node and edge of the batch had been written in turn |
| `GraphStore.AddDocument` | crates/benchmark/src/graph.rs:318-341 | a batch gains the entries of the document, its chunks and their edges in order |
| `GraphStore.NodeBatchLands` | crates/benchmark/src/graph.rs:314-343 | a batch of documents writes over no node and extends the store to the next stage of one fixed run |
| `GraphStore.LinkBatchLands` | crates/benchmark/src/graph.rs:314-343 | the same for edges |
| `GraphStore.WriteRun` | crates/benchmark/src/graph.rs:306-343 | the build loops leave the whole run in the store for every batch size, replacing nothing |
| `GraphStore.BuildGraph` | crates/benchmark/src/graph.rs:294-355 | for all counts and every batch size the store holds exactly the requested nodes and edges, no batch replaces an earlier entry, and the counts are the expected ones |
| `PathSearch.PathExists` | crates/graph/src/native.rs:534-569 | breadth-first search answers exactly whether the goal is within the depth; a depth above three is an error |
| `GraphOracle.DocumentAnswer` | crates/benchmark/src/graph.rs:526-542 | a truthful listing around a document is exactly its chunks |
| `GraphOracle.ChunkAnswer` | crates/benchmark/src/graph.rs:333-338 | a truthful listing out of a chunk is exactly the entity of its document |
| `GraphOracle.EntityAnswer` | crates/benchmark/src/graph.rs:566-580 | a truthful listing around an entity is exactly the chunks of its documents |
| `GraphOracle.ExpectedEntityChunks` | crates/benchmark/src/graph.rs:592-600 | stepping through documents by the entity count finds exactly the chunks that mention the entity |
| `GraphOracle.DocumentDistances` | crates/benchmark/src/graph.rs:316-341 | different documents are never within three hops even ignoring direction, and within four exactly when they share an entity |
| `GraphOracle.TwoHop` | crates/graph/src/native.rs:443-486 | the two-hop loop yields ends of two-hop paths with their multiplicity, all of them up to the limit, however the scores order them |
| `GraphOracle.RelatedChunks` | crates/graph/src/query.rs:61-115 | one hop of the related-chunk traversal yields exactly the chunk neighbours when they stay below the limit, and as many as the limit otherwise |
| `GraphOracle.OneHopKnown` | crates/benchmark/src/graph.rs:526-542 | true exactly when the listed neighbours are the document's chunks |
| `GraphOracle.TwoHopKnown` | crates/benchmark/src/graph.rs:543-558 | true exactly when there is one two-hop path per chunk and all end at the document's entity |
| `GraphOracle.RelatedKnown` | crates/benchmark/src/graph.rs:566-580 | true exactly when the chunk neighbours of the entity are the chunks that mention it, a surplus included |
| `GraphOracle.NegativePath` | crates/benchmark/src/graph.rs:581-588 | the next document is reachable within three hops iff there is only one document |
| `GraphOracle.KnownAnswer` | crates/benchmark/src/graph.rs:517-590 | for any index whatever, the verdict on a query says exactly whether the index's answer is the known one |
| `GraphOracle.AnswersAgree` | crates/benchmark/src/graph.rs:517-590 | on the built graph, with a truthful index, every known answer is right for every document and operation, except the negative path over a single document |
| `GraphOracle.BuildAndAsk` | crates/benchmark/src/graph.rs:302-590 | the same from arguments to verdict, for every batch size and any truthful index |
| `ListingCuts.ReliableExactly` | crates/graph/src/native.rs:403-441 | every cut of a listing tells whether the far ends are the expected ones iff the edges fit the limit, or have those ends with too few edges elsewhere to hide one, or have not and too few conform for a cut to look right |
| `ListingCuts.SimpleIsTelling` | crates/graph/src/native.rs:403-441 | edges to different ends, all relevant, are always told apart by a listing one longer than expected |
| `GraphSoundness.TruthfulIndexExists` | crates/graph/src/native.rs:403-441 | every edge map has a truthful index |
| `GraphSoundness.ShowingIndex` | crates/graph/src/native.rs:403-441 | any choice of cuts, one per request, is what some truthful index shows |
| `GraphSoundness.OneHopSoundExactly` | crates/benchmark/src/graph.rs:527-542 | for every edge map: the one-hop verdict says whether the containment edges of the document end in exactly its chunks, with every truthful index, iff the edges are telling |
| `GraphSoundness.OneHopSound` | crates/benchmark/src/graph.rs:527-542 | without parallel edges out of the document the one-hop verdict is always the truth, surplus and missing edges included |
| `GraphSoundness.ParallelEdgesMislead` | crates/benchmark/src/graph.rs:527-542 | a graph and a truthful index for which the verdict is right although the document has a neighbour it should not have |
| `GraphSoundness.RelatedSoundExactly` | crates/benchmark/src/graph.rs:566-580 | the same equivalence for the chunks around an entity |
| `TwoHopSoundness.TwoHopSoundExactly` | crates/benchmark/src/graph.rs:543-558 | the same equivalence for the two-hop paths: as many as chunks, all ending at the entity |
| `TwoHopSoundness.TwoHopRegular` | crates/benchmark/src/graph.rs:543-558 | when each edge out of the document is continued by one or two edges the two-hop verdict is always the truth |
| `PathSoundness.SureExactly` | crates/graph/src/native.rs:534-569 | every truthful index lets the search reach a node within the hops iff at each stage fewer than 256 edges lead to where it may be missed and one leads to where it may not |
| `PathSoundness.PathSoundExactly` | crates/graph/src/native.rs:534-569 | the search decides directed reachability within the hops, with every truthful index, iff the node is not ahead or surely reached |
| `PathSoundness.FewIsTelling` | crates/graph/src/native.rs:534-569 | with at most 256 edges out of every node the search decides reachability for every pair |
| `GraphVerdicts.VerdictExactly` | crates/benchmark/src/graph.rs:517-590 | for every edge map and each of the five queries, every truthful index yields the true answer iff the edges are telling for that query |
| `GraphVerdicts.BuiltIsTelling` | crates/benchmark/src/graph.rs:302-355 | the graph of the builder is telling for all five queries |
| `GraphVerdicts.BuiltTruth` | crates/benchmark/src/graph.rs:302-355 | the true answers about the graph of the builder are the known ones, except the negative path over a single document |
| `GraphVerdicts.AskAnyGraph` | crates/benchmark/src/graph.rs:517-590 | one query of whatever the store holds returns the truth about its edges wherever they are telling |
| `VectorFile.ByteWeights` | crates/benchmark/src/ann.rs:416-441 | words are little endian: zero bytes are zero, and changing byte k changes the word by 256^k times the change |
| `VectorFile.SignedExact` | crates/benchmark/src/ann.rs:416-441 | the dimension read is the word as a signed 32-bit number |
| `VectorFile.FvecReader.ReadDimension` | crates/benchmark/src/ann.rs:416-441 | reads the dimension in however many pieces it comes; end of file, truncation and range are told apart |
| `VectorFile.FvecReader.Next` | crates/benchmark/src/ann.rs:360-375 | one record is the head of the remaining stream, with the same faults |
| `VectorFile.ReadAll` | crates/benchmark/src/ann.rs:360-375 | reading to the end gives all rows or the first fault |
| `VectorFile.ReadersAgree` | scripts/competitor_ann_bench.py:135-153 | on every non-empty file the streaming and the strided reader accept the same files and give the same rows |
| `VectorFile.EmptyFile` | scripts/competitor_ann_bench.py:138-139 | the empty file is an empty stream and refused by the strided reader |
| `VectorFile.WriteVectors` | scripts/convert_ann_benchmarks_hdf5.py:43-66 | the bytes written are the encoded rows for every chunk size; an empty matrix or a width beyond 31 bits is refused |
| `VectorFile.WrittenReadsBack` | scripts/convert_ann_benchmarks_hdf5.py:52-66 | both readers return exactly what was written iff the width is at most 16384, and refuse it otherwise |
| `GroundTruth.ValidateGroundTruth` | crates/benchmark/src/ann.rs:1308-1326 | succeeds exactly when no row repeats an identifier or leaves the train range, naming which |
| `GroundTruth.ValidateFiltered` | crates/benchmark/src/ann.rs:1328-1346 | succeeds exactly when every row yields the asked number of matches, and always without a filter |
| `GroundTruth.CutExact` | crates/benchmark/src/ann.rs:1299-1299 | cutting a beginning of the order equals cutting the order iff the beginning is long enough or is the whole |
| `GroundTruth.FilteredExact` | crates/benchmark/src/ann.rs:1288-1301 | what a beginning of the order yields, with or without a filter, equals what the full order yields iff it has enough candidates or none lies beyond it |
| `GroundTruth.GroundTruthExact` | crates/benchmark/src/ann.rs:1274-1346 | with the width guard and the filter validator passed the answer is the true nearest matching train rows, nearest first, none left out being nearer |
| `GroundTruth.LoadQueries` | crates/benchmark/src/ann.rs:703-731 | loading succeeds exactly when the records pair up to the limit, there is one, and every row taken is at least top-k wide |
| `GroundTruth.PrepareTruth` | crates/benchmark/src/ann.rs:1438-1484 | the width guard and both validators together succeed exactly under their stated conditions; then, for rows that begin the true orders, every query's ground truth is its true nearest matching rows |
| `GroundTruth.RecallExact` | crates/benchmark/src/ann.rs:1303-1306 | recall lies in [0,1] and is 1 iff the cut list has enough different rows and all were returned |
| `GroundTruth.RecallCounts` | crates/benchmark/src/ann.rs:1303-1306 | recall is 0 iff no expected row was returned; one more expected row raises it by exactly one part in top-k, any other row leaves it |
| `GroundTruth.RecallIsShare` | scripts/competitor_ann_bench.py:186-189 | on a validated answer both recalls are the number of its positions that were returned, over top-k |
| `GroundTruth.RecallOfTruth` | scripts/competitor_ann_bench.py:186-189 | on a validated answer the Rust and Python recalls agree, and are 1 iff every expected row was returned |
| `CorpusLoad.ParsePrinted` | crates/benchmark/src/ann.rs:1348-1358 | an identifier parses to its row exactly under the prefix it was printed with and when the row is below 2^32 |
| `CorpusLoad.IdsDistinct` | crates/benchmark/src/ann.rs:1348-1350 | under one prefix different rows have different identifiers, so the numbering results apply to them |
| `CorpusLoad.InsertBatch` | crates/benchmark/src/ann.rs:677-701 | a batch is accepted exactly on consistent evidence; what is not reported inserted counts as failed, saturating at zero |
| `CorpusLoad.LoadNamed` | crates/benchmark/src/ann.rs:625-675 | every batch holds the source rows in their place, numbered past what the server reports in excess for the batches before; it stops exactly at the end of the source or when the counters reach the limit, fails exactly on the reply it refuses, and returns what the server reported inserted and what it left out |
| `CorpusLoad.LoadTrain` | crates/benchmark/src/ann.rs:625-675 | for every prefix, batch size, limit and server, the rows sent are the source rows in order, and row k carries the identifier of k for all of them iff no reply before the last batch exceeds its batch; inserted and failed are what the replies add up to, and a server that inserts all leaves none failed |
| `CorpusLoad.NumberingExact` | crates/benchmark/src/ann.rs:636-662 | all rows carry their own numbers iff the server reports no batch before the last larger than it was |
| `CorpusLoad.OverReportRun` | crates/benchmark/src/ann.rs:625-701 | the loader, against a server that reports a first batch of one as two, calls the second row number 2 |
| `CommitWindow.CommitOneExact` | crates/benchmark/src/memory.rs:447-491 | a commit counts exactly when its receipt names one version, is synced, visible and consistent; its lag is then zero |
| `CommitWindow.Fill` | crates/benchmark/src/memory.rs:504-512 | starting commits fills the window or runs out of versions, and never exceeds the bound |
| `CommitWindow.RunWindow` | crates/benchmark/src/memory.rs:499-520 | for any order of completion, at no moment of the trace are more commits in flight than allowed, every index is started once and joined once while in flight, and samples and errors are those of the joins in their order |
| `CommitWindow.RunCommits` | crates/benchmark/src/memory.rs:493-549 | succeeded + failed = versions, entry i is the version of commit i iff its receipt passed, and the reported lag is always zero |
| `CommitWindow.NearestRankExact` | crates/benchmark/src/memory.rs:679-689 | the percentile is the least sample with at least the asked fraction of samples at or below it |
| `TokenOverlap.GreedyOverlap` | scripts/agentic_memory_evaluate.py:242-249 | the greedy pass counts exactly the multiset intersection |
| `TokenOverlap.TokenF1` | scripts/agentic_memory_evaluate.py:235-252 | the score is twice the overlap over all tokens, 1 for two empty answers and 0 for one |
| `TokenOverlap.ScoreLaws` | scripts/agentic_memory_evaluate.py:235-252 | the score is symmetric, in [0,1], and 1 iff the token lists are permutations of each other |

## Left out

- gRPC clients, TLS, authentication metadata, health polling, pacing and latency measurement: a call is a step on an abstract server.
- JSON text and SHA-256: record encoding is any faithful encoding without newlines, hashing any function.
- Runs in which a journal append fails in its write or sync: the tool reports them as failed, and the run-level results take append success as a premise.
- Storage engine, vector index and graph index internals: the graph store is two maps without secondary indexes, node properties and timestamps; its refusal of edges across workspaces is not modelled; the neighbour listing is any truthful one.
- Floating-point rounding and the NaN and infinity cases of comparisons: probe vectors, recall and scores are exact numbers; a vector file value is its bit pattern.
- File-system checks of the importer (links, permissions, directory creation): the mirror is a map from digest to bytes, and a source is read as one unchanging byte string.
- RecoveryQualification.RunVerify: health is two answers, before the checks and after cleanup; polling until a deadline is not modelled, and the server's active count is the number of its records.
- GraphOracle.RelatedChunks: one hop only, the depth the benchmark asks for; the workspace test of the traversal is left to the truthful listing.
- JournalFile.JournalWriter.Append: a failing write or sync is not modelled.
- IvecReader: same framing as the fvecs reader; its refusal of negative values would only add an easy member.
- Sorting of commit sequences and latency samples in the memory benchmark.
- The graph tool's integrity probes, skip-build path and query measurement: orchestration around the modelled queries.
- Backup extraction and the live restore laboratory around the replay oracle.
- Coordinator, router, command line and summary scripts: re-exports, argument parsing and long conjunctions of field checks.
