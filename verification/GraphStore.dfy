/**
 The batched builder of the known-answer graph
 (crates/benchmark/src/graph.rs) over a store that keeps nodes and edges by
 identifier (crates/graph/src/native.rs).  Whatever the batch size, the store
 ends up holding exactly one graph.
 */
module GraphStore {
  import opened GraphIds
  import opened KeyedMaps

  datatype NodeKind = DocumentKind | ChunkKind | EntityKind

  datatype EdgeKind = ContainsKind | MentionsKind

  datatype Edge = Edge(source: string, target: string, kind: EdgeKind)

  type Positive = n: nat | n > 0 witness 1

  datatype Args = Args(workspace: string, documents: nat, chunks: nat, entities: nat, batchDocuments: nat)

  /** The argument checks that the builder and the oracle rely on. */
  predicate Validated(args: Args) {
    && 0 < |args.workspace| <= 256
    && 0 < args.chunks <= 256
    && 0 < args.entities <= args.documents
    && 0 < args.batchDocuments
  }

  function KindOf(node: Node): NodeKind {
    match node
    case Document(_) => DocumentKind
    case Chunk(_, _) => ChunkKind
    case Entity(_) => EntityKind
  }

  function EdgeOf(names: Names, entities: Positive, link: Link): Edge {
    match link
    case Contains(d, c) => Edge(names.node(Document(d)), names.node(Chunk(d, c)), ContainsKind)
    case Mentions(d, c) => Edge(names.node(Chunk(d, c)), names.node(Entity(d % entities)), MentionsKind)
  }

  function EdgesOf(names: Names, entities: Positive): Link -> Edge {
    l => EdgeOf(names, entities, l)
  }

  // ---- What the arguments ask for ----

  predicate WantedNode(args: Args, node: Node) {
    match node
    case Document(d) => d < args.documents
    case Chunk(d, c) => d < args.documents && c < args.chunks
    case Entity(e) => e < args.entities
  }

  predicate WantedLink(args: Args, link: Link) {
    link.document < args.documents && link.chunk < args.chunks
  }

  /** Nodes and edges the tool expects to count. */
  function ExpectedCounts(args: Args): (nat, nat) {
    var chunks := args.documents * args.chunks;
    (args.entities + args.documents + chunks, chunks * 2)
  }

  ghost predicate HoldsNodes(names: Names, args: Args, nodes: map<string, NodeKind>) {
    && (forall n :: WantedNode(args, n) ==> names.node(n) in nodes && nodes[names.node(n)] == KindOf(n))
    && (forall id :: id in nodes ==> exists n :: WantedNode(args, n) && names.node(n) == id)
  }

  ghost predicate HoldsLinks(names: Names, args: Args, edges: map<string, Edge>)
    requires args.entities > 0
  {
    && (forall l :: WantedLink(args, l) ==>
      names.link(l) in edges && edges[names.link(l)] == EdgeOf(names, args.entities, l))
    && (forall id :: id in edges ==> exists l :: WantedLink(args, l) && names.link(l) == id)
  }

  /** The graph asked for and nothing else: every wanted node and edge, under its name, and no other. */
  ghost predicate HoldsGraph(names: Names, args: Args, nodes: map<string, NodeKind>, edges: map<string, Edge>)
    requires args.entities > 0
  {
    HoldsNodes(names, args, nodes) && HoldsLinks(names, args, edges)
  }

  // ---- The order in which the builder writes ----

  function EntityRun(count: nat): seq<Node> {
    if count == 0 then [] else EntityRun(count - 1) + [Entity(count - 1)]
  }

  function ChunkRun(document: nat, count: nat): seq<Node> {
    if count == 0 then [] else ChunkRun(document, count - 1) + [Chunk(document, count - 1)]
  }

  function DocumentPart(chunks: nat, document: nat): seq<Node> {
    [Document(document)] + ChunkRun(document, chunks)
  }

  function DocumentRun(chunks: nat, first: nat, end: nat): seq<Node>
    requires first <= end
    decreases end
  {
    if first == end then [] else DocumentRun(chunks, first, end - 1) + DocumentPart(chunks, end - 1)
  }

  function ChunkLinkRun(document: nat, count: nat): seq<Link> {
    if count == 0 then []
    else ChunkLinkRun(document, count - 1) + [Contains(document, count - 1)] + [Mentions(document, count - 1)]
  }

  function LinkRun(chunks: nat, first: nat, end: nat): seq<Link>
    requires first <= end
    decreases end
  {
    if first == end then [] else LinkRun(chunks, first, end - 1) + ChunkLinkRun(end - 1, chunks)
  }

  // Which items a run has.

  lemma {:induction false} EntityRunHas(count: nat, node: Node)
    ensures node in EntityRun(count) <==> node.Entity? && node.entity < count
  {
    if count > 0 {
      EntityRunHas(count - 1, node);
    }
  }

  lemma {:induction false} ChunkRunHas(document: nat, count: nat, node: Node)
    ensures node in ChunkRun(document, count) <==> node.Chunk? && node.document == document && node.chunk < count
  {
    if count > 0 {
      ChunkRunHas(document, count - 1, node);
    }
  }

  predicate InRun(chunks: nat, first: nat, end: nat, node: Node) {
    !node.Entity? && first <= node.document < end && (node.Chunk? ==> node.chunk < chunks)
  }

  lemma DocumentPartHas(chunks: nat, document: nat, node: Node)
    ensures node in DocumentPart(chunks, document) <==> InRun(chunks, document, document + 1, node)
  {
    ChunkRunHas(document, chunks, node);
  }

  lemma {:induction false} DocumentRunHas(chunks: nat, first: nat, end: nat, node: Node)
    requires first <= end
    ensures node in DocumentRun(chunks, first, end) <==> InRun(chunks, first, end, node)
    decreases end
  {
    if first < end {
      DocumentRunHas(chunks, first, end - 1, node);
      DocumentPartHas(chunks, end - 1, node);
      var before, part := DocumentRun(chunks, first, end - 1), DocumentPart(chunks, end - 1);
      InJoined(before, part, node);
      assert DocumentRun(chunks, first, end) == before + part;
    }
  }

  lemma {:induction false} ChunkLinkRunHas(document: nat, count: nat, link: Link)
    ensures link in ChunkLinkRun(document, count) <==> link.document == document && link.chunk < count
  {
    if count > 0 {
      ChunkLinkRunHas(document, count - 1, link);
    }
  }

  lemma {:induction false} LinkRunHas(chunks: nat, first: nat, end: nat, link: Link)
    requires first <= end
    ensures link in LinkRun(chunks, first, end) <==> first <= link.document < end && link.chunk < chunks
    decreases end
  {
    if first < end {
      LinkRunHas(chunks, first, end - 1, link);
      ChunkLinkRunHas(end - 1, chunks, link);
      InJoined(LinkRun(chunks, first, end - 1), ChunkLinkRun(end - 1, chunks), link);
    }
  }

  // How long a run is.

  lemma {:induction false} EntityRunLength(count: nat)
    ensures |EntityRun(count)| == count
  {
    if count > 0 {
      EntityRunLength(count - 1);
    }
  }

  lemma {:induction false} ChunkRunLengths(document: nat, count: nat)
    ensures |ChunkRun(document, count)| == count && |ChunkLinkRun(document, count)| == 2 * count
  {
    if count > 0 {
      ChunkRunLengths(document, count - 1);
    }
  }

  lemma {:induction false} DocumentRunLengths(chunks: nat, end: nat)
    ensures |DocumentRun(chunks, 0, end)| == end + end * chunks && |LinkRun(chunks, 0, end)| == end * chunks * 2
  {
    if end > 0 {
      DocumentRunLengths(chunks, end - 1);
      ChunkRunLengths(end - 1, chunks);
      assert end * chunks == (end - 1) * chunks + chunks;
    }
  }

  // No run has an item twice.

  lemma {:induction false} EntityRunOnce(count: nat)
    ensures NoRepeats(EntityRun(count))
  {
    if count > 0 {
      EntityRunOnce(count - 1);
      EntityRunHas(count - 1, Entity(count - 1));
      NoRepeatsJoined(EntityRun(count - 1), [Entity(count - 1)]);
    }
  }

  lemma {:induction false} ChunkRunOnce(document: nat, count: nat)
    ensures NoRepeats(ChunkRun(document, count))
  {
    if count > 0 {
      ChunkRunOnce(document, count - 1);
      ChunkRunHas(document, count - 1, Chunk(document, count - 1));
      NoRepeatsJoined(ChunkRun(document, count - 1), [Chunk(document, count - 1)]);
    }
  }

  lemma DocumentPartOnce(chunks: nat, document: nat)
    ensures NoRepeats(DocumentPart(chunks, document))
  {
    ChunkRunOnce(document, chunks);
    ChunkRunHas(document, chunks, Document(document));
    NoRepeatsJoined([Document(document)], ChunkRun(document, chunks));
  }

  lemma {:induction false} DocumentRunOnce(chunks: nat, end: nat)
    ensures NoRepeats(DocumentRun(chunks, 0, end))
  {
    if end > 0 {
      var before, added := DocumentRun(chunks, 0, end - 1), DocumentPart(chunks, end - 1);
      DocumentRunOnce(chunks, end - 1);
      DocumentPartOnce(chunks, end - 1);
      forall n | n in added ensures n !in before {
        DocumentPartHas(chunks, end - 1, n);
        DocumentRunHas(chunks, 0, end - 1, n);
      }
      NoRepeatsJoined(before, added);
    }
  }

  lemma {:induction false} ChunkLinkRunOnce(document: nat, count: nat)
    ensures NoRepeats(ChunkLinkRun(document, count))
  {
    if count > 0 {
      var before := ChunkLinkRun(document, count - 1);
      var contains, mentions := Contains(document, count - 1), Mentions(document, count - 1);
      ChunkLinkRunOnce(document, count - 1);
      ChunkLinkRunHas(document, count - 1, contains);
      ChunkLinkRunHas(document, count - 1, mentions);
      NoRepeatsJoined(before, [contains]);
      NoRepeatsJoined(before + [contains], [mentions]);
    }
  }

  lemma {:induction false} LinkRunOnce(chunks: nat, end: nat)
    ensures NoRepeats(LinkRun(chunks, 0, end))
  {
    if end > 0 {
      var before, added := LinkRun(chunks, 0, end - 1), ChunkLinkRun(end - 1, chunks);
      LinkRunOnce(chunks, end - 1);
      ChunkLinkRunOnce(end - 1, chunks);
      forall l | l in added ensures l !in before {
        ChunkLinkRunHas(end - 1, chunks, l);
        LinkRunHas(chunks, 0, end - 1, l);
      }
      NoRepeatsJoined(before, added);
    }
  }

  lemma {:induction false} RunsJoin(chunks: nat, middle: nat, end: nat)
    requires middle <= end
    ensures DocumentRun(chunks, 0, middle) + DocumentRun(chunks, middle, end) == DocumentRun(chunks, 0, end)
    ensures LinkRun(chunks, 0, middle) + LinkRun(chunks, middle, end) == LinkRun(chunks, 0, end)
    decreases end
  {
    if middle < end {
      RunsJoin(chunks, middle, end - 1);
    }
  }

  /** Everything the builder writes, in order. */
  function NodeRun(args: Args, documents: nat): seq<Node> {
    EntityRun(args.entities) + DocumentRun(args.chunks, 0, documents)
  }

  function NodesOf(names: Names, items: seq<Node>): map<string, NodeKind> {
    Put(names.node, KindOf, map[], items)
  }

  function LinksOf(names: Names, entities: Positive, items: seq<Link>): map<string, Edge> {
    Put(names.link, EdgesOf(names, entities), map[], items)
  }

  lemma NodeRunHas(args: Args, documents: nat, node: Node)
    ensures node in NodeRun(args, documents) <==>
      if node.Entity? then node.entity < args.entities else InRun(args.chunks, 0, documents, node)
  {
    EntityRunHas(args.entities, node);
    DocumentRunHas(args.chunks, 0, documents, node);
  }

  lemma NodeRunOnce(args: Args)
    ensures NoRepeats(NodeRun(args, args.documents)) && |NodeRun(args, args.documents)| == ExpectedCounts(args).0
  {
    EntityRunLength(args.entities);
    DocumentRunLengths(args.chunks, args.documents);
    EntityRunOnce(args.entities);
    DocumentRunOnce(args.chunks, args.documents);
    forall n | n in DocumentRun(args.chunks, 0, args.documents) ensures n !in EntityRun(args.entities) {
      EntityRunHas(args.entities, n);
      DocumentRunHas(args.chunks, 0, args.documents, n);
    }
    NoRepeatsJoined(EntityRun(args.entities), DocumentRun(args.chunks, 0, args.documents));
  }

  lemma NodesBuilt(names: Names, args: Args)
    requires Distinct(names)
    ensures HoldsNodes(names, args, NodesOf(names, NodeRun(args, args.documents)))
    ensures |NodesOf(names, NodeRun(args, args.documents))| == ExpectedCounts(args).0
  {
    var run := NodeRun(args, args.documents);
    var nodes := NodesOf(names, run);
    NodeRunOnce(args);
    PutSize(names.node, KindOf, map[], run);
    forall n | WantedNode(args, n) ensures names.node(n) in nodes && nodes[names.node(n)] == KindOf(n) {
      NodeRunHas(args, args.documents, n);
      PutValue(names.node, KindOf, map[], run, n);
    }
    forall id | id in nodes ensures exists n :: WantedNode(args, n) && names.node(n) == id {
      PutKey(names.node, KindOf, map[], run, id);
      var n :| n in run && names.node(n) == id;
      NodeRunHas(args, args.documents, n);
    }
  }

  lemma LinksBuilt(names: Names, args: Args)
    requires Distinct(names) && args.entities > 0
    ensures HoldsLinks(names, args, LinksOf(names, args.entities, LinkRun(args.chunks, 0, args.documents)))
    ensures |LinksOf(names, args.entities, LinkRun(args.chunks, 0, args.documents))| == ExpectedCounts(args).1
  {
    var value := EdgesOf(names, args.entities);
    var run := LinkRun(args.chunks, 0, args.documents);
    var edges := LinksOf(names, args.entities, run);
    DocumentRunLengths(args.chunks, args.documents);
    LinkRunOnce(args.chunks, args.documents);
    PutSize(names.link, value, map[], run);
    forall l | WantedLink(args, l)
      ensures names.link(l) in edges && edges[names.link(l)] == EdgeOf(names, args.entities, l)
    {
      LinkRunHas(args.chunks, 0, args.documents, l);
      PutValue(names.link, value, map[], run, l);
    }
    forall id | id in edges ensures exists l :: WantedLink(args, l) && names.link(l) == id {
      PutKey(names.link, value, map[], run, id);
      var l :| l in run && names.link(l) == id;
      LinkRunHas(args.chunks, 0, args.documents, l);
    }
  }

  /** The entries of items that are not in a run write over nothing of it, and continue it. */
  lemma RunContinues<K(!new), V>(name: K -> string, value: K -> V, run: seq<K>, batch: seq<K>)
    requires Injective(name)
    requires forall k :: k in batch ==> k !in run
    ensures Put(name, value, map[], run).Keys * KeySet(Entries(name, value, batch)) == {}
    ensures Overwritten(Put(name, value, map[], run), Entries(name, value, batch))
         == Put(name, value, map[], run + batch)
  {
    forall i | 0 <= i < |batch| ensures name(batch[i]) !in Put(name, value, map[], run) {
      PutKey(name, value, map[], run, name(batch[i]));
      assert batch[i] in batch;
    }
    EntriesWritten(name, value, Put(name, value, map[], run), batch);
    PutAppend(name, value, map[], run, batch);
  }

  /** The next batch continues the run with nodes that are not in it yet. */
  lemma NodeRunGrows(args: Args, start: nat, end: nat)
    requires start <= end
    ensures NodeRun(args, start) + DocumentRun(args.chunks, start, end) == NodeRun(args, end)
    ensures forall n :: n in DocumentRun(args.chunks, start, end) ==> n !in NodeRun(args, start)
  {
    RunsJoin(args.chunks, start, end);
    forall n | n in DocumentRun(args.chunks, start, end) ensures n !in NodeRun(args, start) {
      NodeRunHas(args, start, n);
      DocumentRunHas(args.chunks, start, end, n);
    }
  }

  function NodeEntries(names: Names, items: seq<Node>): seq<(string, NodeKind)> {
    Entries(names.node, KindOf, items)
  }

  function LinkEntries(names: Names, entities: Positive, items: seq<Link>): seq<(string, Edge)> {
    Entries(names.link, EdgesOf(names, entities), items)
  }

  /** A batch of nodes writes over none and takes the store from one stage of the run to the next. */
  lemma NodeBatchLands(names: Names, args: Args, start: nat, end: nat)
    requires Distinct(names) && start <= end
    ensures var stored, batch := NodesOf(names, NodeRun(args, start)), DocumentRun(args.chunks, start, end);
            && stored.Keys * KeySet(NodeEntries(names, batch)) == {}
            && Overwritten(stored, NodeEntries(names, batch)) == NodesOf(names, NodeRun(args, end))
  {
    NodeRunGrows(args, start, end);
    RunContinues(names.node, KindOf, NodeRun(args, start), DocumentRun(args.chunks, start, end));
  }

  lemma LinkBatchLands(names: Names, entities: Positive, chunks: nat, start: nat, end: nat)
    requires Distinct(names) && start <= end
    ensures var stored, batch := LinksOf(names, entities, LinkRun(chunks, 0, start)), LinkRun(chunks, start, end);
            && stored.Keys * KeySet(LinkEntries(names, entities, batch)) == {}
            && Overwritten(stored, LinkEntries(names, entities, batch))
               == LinksOf(names, entities, LinkRun(chunks, 0, end))
  {
    var links, batch := LinkRun(chunks, 0, start), LinkRun(chunks, start, end);
    RunsJoin(chunks, start, end);
    forall l | l in batch ensures l !in links {
      LinkRunHas(chunks, 0, start, l);
      LinkRunHas(chunks, start, end, l);
    }
    RunContinues(names.link, EdgesOf(names, entities), links, batch);
  }

  // ---- The store ----

  /** The nodes and edges of a batch, in the order they were added. */
  datatype Batch = Batch(nodes: seq<(string, NodeKind)>, edges: seq<(string, Edge)>)

  /** Folds the entries of a batch into one per identifier, the last one given. */
  method MergeEntries<V>(entries: seq<(string, V)>) returns (merged: map<string, V>)
    ensures merged == Overwritten(map[], entries)
  {
    merged := map[];
    for n := 0 to |entries|
      invariant merged == PutFirst(KeyOf<V>, ValueOf<V>, map[], entries, n)
    {
      merged := merged[entries[n].0 := entries[n].1];
    }
  }

  /** Writes merged entries, in any order. */
  method WriteEntries<V>(stored: map<string, V>, merged: map<string, V>) returns (after: map<string, V>)
    ensures after == stored + merged
  {
    after := stored;
    var left := merged.Keys;
    ghost var written: set<string> := {};
    while left != {}
      invariant written <= merged.Keys && written + left == merged.Keys
      invariant IsWritten(stored, merged, written, after)
      decreases |left|
    {
      var id :| id in left;
      OneMoreWritten(stored, merged, written, after, id);
      after := after[id := merged[id]];
      written := written + {id};
      left := left - {id};
    }
    assert written == merged.Keys;
    AllWritten(stored, merged, after);
  }

  /** The entries of these identifiers are written, the others as stored. */
  ghost predicate IsWritten<V>(
      stored: map<string, V>, merged: map<string, V>, written: set<string>, after: map<string, V>)
    requires written <= merged.Keys
  {
    && (forall id :: id in after <==> id in stored || id in written)
    && (forall id :: id in written ==> id in after && after[id] == merged[id])
    && (forall id :: id in stored && id !in written ==> id in after && after[id] == stored[id])
  }

  lemma OneMoreWritten<V>(
      stored: map<string, V>, merged: map<string, V>, written: set<string>, after: map<string, V>, id: string)
    requires written <= merged.Keys && id in merged && IsWritten(stored, merged, written, after)
    ensures IsWritten(stored, merged, written + {id}, after[id := merged[id]])
  {
  }

  lemma AllWritten<V>(stored: map<string, V>, merged: map<string, V>, after: map<string, V>)
    requires IsWritten(stored, merged, merged.Keys, after)
    ensures after == stored + merged
  {
  }

  lemma MergedIsWritten<V>(stored: map<string, V>, entries: seq<(string, V)>)
    ensures stored + Overwritten(map[], entries) == Overwritten(stored, entries)
    ensures Overwritten(map[], entries).Keys == KeySet(entries)
  {
    PutOver(KeyOf<V>, ValueOf<V>, stored, entries);
    forall id ensures id in Overwritten(map[], entries) <==> id in KeySet(entries) {
      KeysWritten(entries, id);
    }
  }

  class Store {
    var nodes: map<string, NodeKind>
    var edges: map<string, Edge>

    constructor ()
      ensures nodes == map[] && edges == map[]
    {
      nodes, edges := map[], map[];
    }

    /**
     Merges the batch by identifier and writes what is left in any order.  The
     store is then as if every node and edge of the batch had been written in
     turn; `replaced` is the number of stored entries written over.
     */
    method UpsertBatch(batch: Batch) returns (replaced: nat)
      modifies this
      ensures nodes == Overwritten(old(nodes), batch.nodes) && edges == Overwritten(old(edges), batch.edges)
      ensures replaced == |old(nodes).Keys * KeySet(batch.nodes)| + |old(edges).Keys * KeySet(batch.edges)|
    {
      var mergedNodes := MergeEntries(batch.nodes);
      var mergedEdges := MergeEntries(batch.edges);
      MergedIsWritten(nodes, batch.nodes);
      MergedIsWritten(edges, batch.edges);
      replaced := |nodes.Keys * mergedNodes.Keys| + |edges.Keys * mergedEdges.Keys|;
      nodes := WriteEntries(nodes, mergedNodes);
      edges := WriteEntries(edges, mergedEdges);
    }
  }

  // ---- The builder ----

  method EntityBatch(names: Names, count: nat) returns (batch: Batch)
    ensures batch == Batch(NodeEntries(names, EntityRun(count)), [])
  {
    batch := Batch([], []);
    for entity := 0 to count
      invariant batch == Batch(NodeEntries(names, EntityRun(entity)), [])
    {
      EntriesJoin(names.node, KindOf, EntityRun(entity), [Entity(entity)]);
      batch := batch.(nodes := batch.nodes + [(names.node(Entity(entity)), EntityKind)]);
    }
  }

  /** Adds one document with its chunks, and their edges, to what the batch already holds. */
  method AddDocument(names: Names, entities: Positive, chunks: nat, document: nat, batch: Batch)
    returns (after: Batch)
    ensures after.nodes == batch.nodes + NodeEntries(names, DocumentPart(chunks, document))
    ensures after.edges == batch.edges + LinkEntries(names, entities, ChunkLinkRun(document, chunks))
  {
    var documentNode := names.node(Document(document));
    var nodes, edges := [(documentNode, DocumentKind)], [];
    var entityNode := names.node(Entity(document % entities));
    for chunk := 0 to chunks
      invariant nodes == NodeEntries(names, [Document(document)] + ChunkRun(document, chunk))
      invariant edges == LinkEntries(names, entities, ChunkLinkRun(document, chunk))
    {
      var chunkNode := names.node(Chunk(document, chunk));
      ChunkEntries(names, entities, document, chunk);
      nodes := nodes + [(chunkNode, ChunkKind)];
      edges := edges + [(names.link(Contains(document, chunk)), Edge(documentNode, chunkNode, ContainsKind))];
      edges := edges + [(names.link(Mentions(document, chunk)), Edge(chunkNode, entityNode, MentionsKind))];
    }
    after := Batch(batch.nodes + nodes, batch.edges + edges);
  }

  /** One more chunk adds its node and its two edges to the entries. */
  lemma ChunkEntries(names: Names, entities: Positive, document: nat, chunk: nat)
    ensures var nodes := [Document(document)] + ChunkRun(document, chunk);
            NodeEntries(names, [Document(document)] + ChunkRun(document, chunk + 1))
            == NodeEntries(names, nodes) + [(names.node(Chunk(document, chunk)), ChunkKind)]
    ensures LinkEntries(names, entities, ChunkLinkRun(document, chunk + 1))
         == LinkEntries(names, entities, ChunkLinkRun(document, chunk))
            + [(names.link(Contains(document, chunk)), EdgeOf(names, entities, Contains(document, chunk)))]
            + [(names.link(Mentions(document, chunk)), EdgeOf(names, entities, Mentions(document, chunk)))]
  {
    var nodes := [Document(document)] + ChunkRun(document, chunk);
    assert [Document(document)] + ChunkRun(document, chunk + 1) == nodes + [Chunk(document, chunk)];
    EntriesJoin(names.node, KindOf, nodes, [Chunk(document, chunk)]);
    var links, pair := ChunkLinkRun(document, chunk), [Contains(document, chunk)] + [Mentions(document, chunk)];
    assert ChunkLinkRun(document, chunk + 1) == links + pair;
    EntriesJoin(names.link, EdgesOf(names, entities), links, pair);
  }

  method DocumentBatch(names: Names, entities: Positive, chunks: nat, first: nat, end: nat) returns (batch: Batch)
    requires first <= end
    ensures batch.nodes == NodeEntries(names, DocumentRun(chunks, first, end))
    ensures batch.edges == LinkEntries(names, entities, LinkRun(chunks, first, end))
  {
    batch := Batch([], []);
    for document := first to end
      invariant batch.nodes == NodeEntries(names, DocumentRun(chunks, first, document))
      invariant batch.edges == LinkEntries(names, entities, LinkRun(chunks, first, document))
    {
      EntriesJoin(names.node, KindOf, DocumentRun(chunks, first, document), DocumentPart(chunks, document));
      EntriesJoin(
        names.link, EdgesOf(names, entities), LinkRun(chunks, first, document), ChunkLinkRun(document, chunks));
      batch := AddDocument(names, entities, chunks, document, batch);
    }
  }

  /** The builder's loops, over any identifiers that never clash: the store ends up with the whole run. */
  method WriteRun(store: Store, args: Args, names: Names) returns (replaced: nat)
    requires Validated(args) && Distinct(names)
    requires store.nodes == map[] && store.edges == map[]
    modifies store
    ensures store.nodes == NodesOf(names, NodeRun(args, args.documents))
    ensures store.edges == LinksOf(names, args.entities, LinkRun(args.chunks, 0, args.documents))
    ensures replaced == 0
  {
    var entities := EntityBatch(names, args.entities);
    replaced := store.UpsertBatch(entities);
    EntriesWritten(names.node, KindOf, map[], EntityRun(args.entities));
    assert NodeRun(args, 0) == EntityRun(args.entities);
    var start := 0;
    while start < args.documents
      invariant start <= args.documents && replaced == 0
      invariant store.nodes == NodesOf(names, NodeRun(args, start))
      invariant store.edges == LinksOf(names, args.entities, LinkRun(args.chunks, 0, start))
    {
      var end := if start + args.batchDocuments < args.documents then start + args.batchDocuments else args.documents;
      var batch := DocumentBatch(names, args.entities, args.chunks, start, end);
      NodeBatchLands(names, args, start, end);
      LinkBatchLands(names, args.entities, args.chunks, start, end);
      var more := store.UpsertBatch(batch);
      replaced := replaced + more;
      start := end;
    }
    assert start == args.documents;
  }

  /**
   Builds into an empty store.  The graph does not depend on the batch size, no
   batch replaces anything an earlier one wrote, and the counts are the
   expected ones.
   */
  method BuildGraph(store: Store, args: Args) returns (replaced: nat)
    requires Validated(args)
    requires store.nodes == map[] && store.edges == map[]
    modifies store
    ensures HoldsGraph(NamesOf(args.workspace), args, store.nodes, store.edges)
    ensures replaced == 0
    ensures (|store.nodes|, |store.edges|) == ExpectedCounts(args)
  {
    NamesDistinct(args.workspace);
    var names := NamesOf(args.workspace);
    replaced := WriteRun(store, args, names);
    NodesBuilt(names, args);
    LinksBuilt(names, args);
  }
}
