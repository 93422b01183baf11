/**
 The known answers the graph benchmark checks queries against
 (crates/benchmark/src/graph.rs), compared with the graph that was built.  The
 index behind the queries is any that lists incident edges truthfully and cuts
 a listing only at its limit.
 */
module GraphOracle {
  import opened GraphIds
  import opened GraphStore
  import opened PathSearch
  import opened Wrappers
  import Counting

  const PATH_NEIGHBOR_LIMIT: nat := 256

  datatype Direction = Outgoing | Both

  datatype Request = Request(node: string, direction: Direction, kind: Option<EdgeKind>, limit: nat)

  datatype Neighbor = Neighbor(edge: string, node: string)

  type Index = Request -> seq<Neighbor>

  // ---- What a truthful listing is ----

  ghost predicate Incident(edges: map<string, Edge>, request: Request, id: string) {
    && id in edges
    && (request.kind.Some? ==> edges[id].kind == request.kind.value)
    && (edges[id].source == request.node || (request.direction.Both? && edges[id].target == request.node))
  }

  function OtherEnd(edge: Edge, node: string): string {
    if edge.source == node then edge.target else edge.source
  }

  /** No edge twice, every edge incident, with its other end; all of them unless the limit is reached. */
  ghost predicate Lists(edges: map<string, Edge>, request: Request, answer: seq<Neighbor>) {
    && |answer| <= request.limit
    && (forall i :: 0 <= i < |answer| ==>
      Incident(edges, request, answer[i].edge) && answer[i].node == OtherEnd(edges[answer[i].edge], request.node))
    && (forall i, j :: 0 <= i < j < |answer| ==> answer[i].edge != answer[j].edge)
    && (|answer| < request.limit ==> forall id :: Incident(edges, request, id) ==> id in EdgesIn(answer))
  }

  ghost predicate Truthful(edges: map<string, Edge>, index: Index) {
    forall request :: Lists(edges, request, index(request))
  }

  function EdgesIn(answer: seq<Neighbor>): set<string> {
    set n | n in answer :: n.edge
  }

  function NodesIn(answer: seq<Neighbor>): set<string> {
    set n | n in answer :: n.node
  }

  lemma EdgesInSize(answer: seq<Neighbor>)
    requires forall i, j :: 0 <= i < j < |answer| ==> answer[i].edge != answer[j].edge
    ensures |EdgesIn(answer)| == |answer|
  {
    FirstEdgesSize(answer, |answer|);
    assert answer[..|answer|] == answer;
  }

  lemma {:induction false} FirstEdgesSize(answer: seq<Neighbor>, n: nat)
    requires n <= |answer| && forall i, j :: 0 <= i < j < |answer| ==> answer[i].edge != answer[j].edge
    ensures |EdgesIn(answer[..n])| == n
  {
    if n > 0 {
      FirstEdgesSize(answer, n - 1);
      LastEdge(answer, n);
    }
  }

  /** Of edges that differ, the last is not among those before it. */
  lemma LastEdge(answer: seq<Neighbor>, n: nat)
    requires 0 < n <= |answer| && forall i, j :: 0 <= i < j < |answer| ==> answer[i].edge != answer[j].edge
    ensures answer[n - 1].edge in EdgesIn(answer[..n])
    ensures EdgesIn(answer[..n]) - {answer[n - 1].edge} == EdgesIn(answer[..n - 1])
    ensures EdgesIn(answer[..n]) == EdgesIn(answer[..n - 1]) + {answer[n - 1].edge}
  {
    var last := answer[n - 1];
    assert answer[..n] == answer[..n - 1] + [last];
    assert last in answer[..n];
    forall m | m in answer[..n - 1] ensures m.edge != last.edge {
      var i :| 0 <= i < n - 1 && answer[i] == m;
    }
    assert EdgesIn(answer[..n]) == EdgesIn(answer[..n - 1]) + {last.edge};
  }

  ghost function LinkNames(names: Names, links: set<Link>): set<string> {
    set l | l in links :: names.link(l)
  }

  lemma {:induction false} LinkNamesSize(names: Names, links: set<Link>)
    requires Distinct(names)
    ensures |LinkNames(names, links)| == |links|
  {
    if links != {} {
      var l :| l in links;
      LinkNamesSize(names, links - {l});
      assert LinkNames(names, links) == LinkNames(names, links - {l}) + {names.link(l)};
      assert names.link(l) !in LinkNames(names, links - {l});
    }
  }

  /** A listing whose limit is not below the number of incident edges has all of them. */
  lemma Complete(names: Names, edges: map<string, Edge>, request: Request, answer: seq<Neighbor>, links: set<Link>)
    requires Distinct(names) && Lists(edges, request, answer)
    requires forall id :: Incident(edges, request, id) <==> id in LinkNames(names, links)
    requires |links| <= request.limit
    ensures EdgesIn(answer) == LinkNames(names, links) && |answer| == |links|
  {
    EdgesInSize(answer);
    LinkNamesSize(names, links);
    assert EdgesIn(answer) <= LinkNames(names, links);
    if |answer| < request.limit {
      assert LinkNames(names, links) <= EdgesIn(answer);
    } else {
      Counting.SubsetSize(EdgesIn(answer), LinkNames(names, links));
    }
  }

  // ---- The neighbourhoods of the built graph ----

  function ContainsLinks(document: nat, count: nat): set<Link> {
    set c | 0 <= c < count :: Contains(document, c)
  }

  /** The mentions of one entity by the documents below a bound. */
  function EntityLinks(args: Args, entity: nat, bound: nat): set<Link>
    requires args.entities > 0
  {
    set d, c | 0 <= d < bound && 0 <= c < args.chunks && d % args.entities == entity :: Mentions(d, c)
  }

  ghost function ChunkNames(names: Names, links: set<Link>): set<string> {
    set l | l in links :: names.node(Chunk(l.document, l.chunk))
  }

  lemma {:induction false} ContainsLinksSize(document: nat, count: nat)
    ensures |ContainsLinks(document, count)| == count
  {
    if count > 0 {
      ContainsLinksSize(document, count - 1);
      assert ContainsLinks(document, count) == ContainsLinks(document, count - 1) + {Contains(document, count - 1)};
    }
  }

  ghost predicate OnePerChunk(links: set<Link>) {
    forall k, l :: k in links && l in links && k.document == l.document && k.chunk == l.chunk ==> k == l
  }

  lemma {:induction false} ChunkNamesSize(names: Names, links: set<Link>)
    requires Distinct(names) && OnePerChunk(links)
    ensures |ChunkNames(names, links)| == |links|
  {
    if links != {} {
      var l :| l in links;
      ChunkNamesSize(names, links - {l});
      assert ChunkNames(names, links) == ChunkNames(names, links - {l}) + {names.node(Chunk(l.document, l.chunk))};
      forall k | k in links - {l}
        ensures names.node(Chunk(k.document, k.chunk)) != names.node(Chunk(l.document, l.chunk))
      {
        assert Chunk(k.document, k.chunk) != Chunk(l.document, l.chunk);
      }
    }
  }

  /** The link behind a stored edge. */
  lemma LinkOf(names: Names, args: Args, edges: map<string, Edge>, id: string) returns (l: Link)
    requires args.entities > 0 && HoldsLinks(names, args, edges) && id in edges
    ensures WantedLink(args, l) && names.link(l) == id && edges[id] == EdgeOf(names, args.entities, l)
  {
    l :| WantedLink(args, l) && names.link(l) == id;
  }

  /** The edges out of a document are those to its chunks, whichever of the two kinds of request is made. */
  lemma DocumentEdges(names: Names, args: Args, edges: map<string, Edge>, d: nat, request: Request, id: string)
    requires args.entities > 0 && Distinct(names) && HoldsLinks(names, args, edges) && d < args.documents
    requires request.node == names.node(Document(d)) && request.direction.Outgoing?
    requires request.kind in {None, Some(ContainsKind)}
    ensures Incident(edges, request, id) <==> id in LinkNames(names, ContainsLinks(d, args.chunks))
  {
    if Incident(edges, request, id) {
      var l := LinkOf(names, args, edges, id);
      assert l in ContainsLinks(d, args.chunks);
    }
    if id in LinkNames(names, ContainsLinks(d, args.chunks)) {
      var l :| l in ContainsLinks(d, args.chunks) && names.link(l) == id;
      assert WantedLink(args, l);
    }
  }

  lemma ChunkEdges(names: Names, args: Args, edges: map<string, Edge>, d: nat, c: nat, request: Request, id: string)
    requires args.entities > 0 && Distinct(names) && HoldsLinks(names, args, edges) && d < args.documents
    requires c < args.chunks
    requires request.node == names.node(Chunk(d, c)) && request.direction.Outgoing? && request.kind.None?
    ensures Incident(edges, request, id) <==> id in LinkNames(names, {Mentions(d, c)})
  {
    if Incident(edges, request, id) {
      var l := LinkOf(names, args, edges, id);
      assert l == Mentions(d, c);
    }
    if id in LinkNames(names, {Mentions(d, c)}) {
      assert WantedLink(args, Mentions(d, c)) && id == names.link(Mentions(d, c));
    }
  }

  lemma EntityEdges(names: Names, args: Args, edges: map<string, Edge>, e: nat, request: Request, id: string)
    requires args.entities > 0 && Distinct(names) && HoldsLinks(names, args, edges) && e < args.entities
    requires request.node == names.node(Entity(e)) && request.kind.None?
    ensures Incident(edges, request, id) <==>
      request.direction.Both? && id in LinkNames(names, EntityLinks(args, e, args.documents))
  {
    if Incident(edges, request, id) {
      var l := LinkOf(names, args, edges, id);
      assert l == Mentions(l.document, l.chunk);
      assert l in EntityLinks(args, e, args.documents);
    }
    if id in LinkNames(names, EntityLinks(args, e, args.documents)) {
      var l :| l in EntityLinks(args, e, args.documents) && names.link(l) == id;
      assert WantedLink(args, l);
    }
  }

  /** When every listed edge has its chunk at the other end, the listed nodes are those chunks. */
  lemma OtherEnds(
        names: Names, args: Args, edges: map<string, Edge>, request: Request, answer: seq<Neighbor>, links: set<Link>)
    requires args.entities > 0 && HoldsLinks(names, args, edges) && Lists(edges, request, answer)
    requires EdgesIn(answer) == LinkNames(names, links)
    requires forall l :: l in links ==> WantedLink(args, l)
    requires forall l :: l in links ==>
      OtherEnd(EdgeOf(names, args.entities, l), request.node) == names.node(Chunk(l.document, l.chunk))
    ensures NodesIn(answer) == ChunkNames(names, links)
  {
    forall id | id in NodesIn(answer) ensures id in ChunkNames(names, links) {
      var n :| n in answer && n.node == id;
      assert n.edge in EdgesIn(answer);
      var l :| l in links && names.link(l) == n.edge;
    }
    forall id | id in ChunkNames(names, links) ensures id in NodesIn(answer) {
      var l :| l in links && names.node(Chunk(l.document, l.chunk)) == id;
      assert names.link(l) in EdgesIn(answer);
      var n :| n in answer && n.edge == names.link(l);
    }
  }

  /** One hop out of a document: its chunks, all of them, as long as the limit allows that many. */
  lemma DocumentAnswer(
        names: Names, args: Args, edges: map<string, Edge>, d: nat, request: Request, answer: seq<Neighbor>)
    requires args.entities > 0 && Distinct(names) && HoldsLinks(names, args, edges) && d < args.documents
    requires request.node == names.node(Document(d)) && request.direction.Outgoing?
    requires request.kind in {None, Some(ContainsKind)}
    requires Lists(edges, request, answer) && args.chunks <= request.limit
    ensures |answer| == args.chunks
    ensures NodesIn(answer) == ChunkNames(names, ContainsLinks(d, args.chunks))
  {
    var links := ContainsLinks(d, args.chunks);
    forall id ensures Incident(edges, request, id) <==> id in LinkNames(names, links) {
      DocumentEdges(names, args, edges, d, request, id);
    }
    ContainsLinksSize(d, args.chunks);
    Complete(names, edges, request, answer, links);
    forall l | l in links
      ensures WantedLink(args, l)
      ensures EdgeOf(names, args.entities, l).target == names.node(Chunk(l.document, l.chunk))
      ensures EdgeOf(names, args.entities, l).source == request.node
    {
    }
    OtherEnds(names, args, edges, request, answer, links);
  }

  /** One hop out of a chunk: the entity of its document. */
  lemma ChunkAnswer(
        names: Names, args: Args, edges: map<string, Edge>, d: nat, c: nat, request: Request, answer: seq<Neighbor>)
    requires args.entities > 0 && Distinct(names) && HoldsLinks(names, args, edges) && d < args.documents
    requires c < args.chunks
    requires request.node == names.node(Chunk(d, c)) && request.direction.Outgoing? && request.kind.None?
    requires Lists(edges, request, answer) && 1 <= request.limit
    ensures |answer| == 1 && answer[0].node == names.node(Entity(d % args.entities))
  {
    forall id ensures Incident(edges, request, id) <==> id in LinkNames(names, {Mentions(d, c)}) {
      ChunkEdges(names, args, edges, d, c, request, id);
    }
    Complete(names, edges, request, answer, {Mentions(d, c)});
    assert WantedLink(args, Mentions(d, c));
    assert Incident(edges, request, answer[0].edge);
  }

  /** One hop around an entity, in either direction: the chunks of its documents. */
  lemma EntityAnswer(
        names: Names, args: Args, edges: map<string, Edge>, e: nat, request: Request, answer: seq<Neighbor>)
    requires args.entities > 0 && Distinct(names) && HoldsLinks(names, args, edges) && e < args.entities
    requires request.node == names.node(Entity(e)) && request.direction.Both? && request.kind.None?
    requires Lists(edges, request, answer) && |ChunkNames(names, EntityLinks(args, e, args.documents))| <= request.limit
    ensures NodesIn(answer) == ChunkNames(names, EntityLinks(args, e, args.documents))
    ensures |answer| == |ChunkNames(names, EntityLinks(args, e, args.documents))|
  {
    var links := EntityLinks(args, e, args.documents);
    forall id ensures Incident(edges, request, id) <==> id in LinkNames(names, links) {
      EntityEdges(names, args, edges, e, request, id);
    }
    ChunkNamesSize(names, links);
    Complete(names, edges, request, answer, links);
    OtherEnds(names, args, edges, request, answer, links);
  }

  // ---- Distances, ignoring the direction of edges ----

  predicate Joins(edge: Edge, x: string, y: string) {
    (edge.source == x && edge.target == y) || (edge.source == y && edge.target == x)
  }

  ghost predicate Adjacent(edges: map<string, Edge>, x: string, y: string) {
    exists id :: id in edges && Joins(edges[id], x, y)
  }

  /** `y` is at most `hops` edges away from `x`, whichever way the edges point. */
  ghost predicate Near(edges: map<string, Edge>, x: string, y: string, hops: nat)
    decreases hops
  {
    x == y || (hops > 0 && exists z :: Near(edges, x, z, hops - 1) && Adjacent(edges, z, y))
  }

  /** The nodes at most `hops` away from a document, up to four hops. */
  predicate Zone(entities: Positive, d: nat, hops: nat, n: Node) {
    || n == Document(d)
    || (hops >= 1 && n.Chunk? && n.document == d)
    || (hops >= 2 && n == Entity(d % entities))
    || (hops >= 3 && n.Chunk? && n.document % entities == d % entities)
    || (hops >= 4 && n.Document? && n.document % entities == d % entities)
  }

  lemma ZoneGrows(
        names: Names, args: Args, edges: map<string, Edge>, d: nat, hops: nat, n: Node, y: string)
    returns (m: Node)
    requires args.entities > 0 && Distinct(names) && HoldsLinks(names, args, edges)
    requires hops < 4 && Zone(args.entities, d, hops, n) && Adjacent(edges, names.node(n), y)
    ensures Zone(args.entities, d, hops + 1, m) && names.node(m) == y
  {
    var id :| id in edges && Joins(edges[id], names.node(n), y);
    var l := LinkOf(names, args, edges, id);
    var start := if l.Contains? then Document(l.document) else Chunk(l.document, l.chunk);
    var end := if l.Contains? then Chunk(l.document, l.chunk) else Entity(l.document % args.entities);
    assert edges[id].source == names.node(start) && edges[id].target == names.node(end);
    m := if edges[id].source == names.node(n) then end else start;
  }

  lemma {:induction false} NearZone(
        names: Names, args: Args, edges: map<string, Edge>, d: nat, hops: nat, y: string)
    returns (m: Node)
    requires args.entities > 0 && Distinct(names) && HoldsLinks(names, args, edges)
    requires hops <= 4 && Near(edges, names.node(Document(d)), y, hops)
    ensures Zone(args.entities, d, hops, m) && names.node(m) == y
    decreases hops
  {
    if y == names.node(Document(d)) {
      m := Document(d);
    } else {
      var z :| Near(edges, names.node(Document(d)), z, hops - 1) && Adjacent(edges, z, y);
      var n := NearZone(names, args, edges, d, hops - 1, z);
      m := ZoneGrows(names, args, edges, d, hops - 1, n, y);
    }
  }

  lemma OneHop(edges: map<string, Edge>, x: string, z: string, y: string, hops: nat)
    requires Near(edges, x, z, hops) && Adjacent(edges, z, y)
    ensures Near(edges, x, y, hops + 1)
  {
  }

  lemma LinkJoins(names: Names, args: Args, edges: map<string, Edge>, l: Link)
    requires args.entities > 0 && HoldsLinks(names, args, edges) && WantedLink(args, l)
    ensures Adjacent(edges, EdgeOf(names, args.entities, l).source, EdgeOf(names, args.entities, l).target)
    ensures Adjacent(edges, EdgeOf(names, args.entities, l).target, EdgeOf(names, args.entities, l).source)
  {
    assert names.link(l) in edges;
  }

  lemma SharedEntity(names: Names, args: Args, edges: map<string, Edge>, d: nat, d': nat)
    requires Validated(args) && HoldsLinks(names, args, edges)
    requires d < args.documents && d' < args.documents && d % args.entities == d' % args.entities
    ensures Near(edges, names.node(Document(d)), names.node(Document(d')), 4)
  {
    var from, goal := names.node(Document(d)), names.node(Document(d'));
    var near, far := names.node(Chunk(d, 0)), names.node(Chunk(d', 0));
    var entity := names.node(Entity(d % args.entities));
    LinkJoins(names, args, edges, Contains(d, 0));
    OneHop(edges, from, from, near, 0);
    LinkJoins(names, args, edges, Mentions(d, 0));
    OneHop(edges, from, near, entity, 1);
    LinkJoins(names, args, edges, Mentions(d', 0));
    OneHop(edges, from, entity, far, 2);
    LinkJoins(names, args, edges, Contains(d', 0));
    OneHop(edges, from, far, goal, 3);
  }

  /** Different documents are never within three hops, and within four exactly when they share their entity. */
  lemma DocumentDistances(names: Names, args: Args, edges: map<string, Edge>, d: nat, d': nat)
    requires Validated(args) && Distinct(names) && HoldsLinks(names, args, edges)
    requires d < args.documents && d' < args.documents
    ensures Near(edges, names.node(Document(d)), names.node(Document(d')), 3) <==> d == d'
    ensures Near(edges, names.node(Document(d)), names.node(Document(d')), 4) <==>
      d % args.entities == d' % args.entities
  {
    var from, goal := names.node(Document(d)), names.node(Document(d'));
    if Near(edges, from, goal, 3) {
      var m := NearZone(names, args, edges, d, 3, goal);
      assert m == Document(d');
    }
    if Near(edges, from, goal, 4) {
      var m := NearZone(names, args, edges, d, 4, goal);
      assert m == Document(d');
    }
    if d % args.entities == d' % args.entities {
      SharedEntity(names, args, edges, d, d');
    }
  }

  // ---- Path queries over the index ----

  /** The neighbours the path search asks for at each node. */
  function PathListing(index: Index): Listing {
    (x: string) => NodesOfAnswer(index(Request(x, Outgoing, None, PATH_NEIGHBOR_LIMIT)))
  }

  function NodesOfAnswer(answer: seq<Neighbor>): seq<string> {
    seq(|answer|, i requires 0 <= i < |answer| => answer[i].node)
  }

  /** A listed neighbour is a node of the graph, one edge away. */
  lemma ListedAdjacent(
        names: Names, args: Args, nodes: map<string, NodeKind>, edges: map<string, Edge>, index: Index, x: string,
        y: string)
    requires Validated(args) && HoldsGraph(names, args, nodes, edges) && Truthful(edges, index)
    requires y in PathListing(index)(x)
    ensures Adjacent(edges, x, y) && y in nodes
  {
    var request := Request(x, Outgoing, None, PATH_NEIGHBOR_LIMIT);
    var answer := index(request);
    assert Lists(edges, request, answer);
    var i :| 0 <= i < |answer| && answer[i].node == y;
    var id := answer[i].edge;
    var l := LinkOf(names, args, edges, id);
    assert edges[id].source == x && edges[id].target == y;
    assert WantedNode(args, if l.Contains? then Chunk(l.document, l.chunk) else Entity(l.document % args.entities));
  }

  lemma {:induction false} ReachesNear(
        names: Names, args: Args, nodes: map<string, NodeKind>, edges: map<string, Edge>, index: Index, x: string,
        y: string, hops: nat)
    requires Validated(args) && HoldsGraph(names, args, nodes, edges) && Truthful(edges, index)
    requires Reaches(PathListing(index), x, y, hops)
    ensures Near(edges, x, y, hops)
    decreases hops
  {
    if x != y {
      var z :| Reaches(PathListing(index), x, z, hops - 1) && y in PathListing(index)(z);
      ReachesNear(names, args, nodes, edges, index, x, z, hops - 1);
      ListedAdjacent(names, args, nodes, edges, index, z, y);
    }
  }

  lemma ListedIn(index: Index, x: string, y: string)
    requires y in NodesIn(index(Request(x, Outgoing, None, PATH_NEIGHBOR_LIMIT)))
    ensures y in PathListing(index)(x)
  {
    var answer := index(Request(x, Outgoing, None, PATH_NEIGHBOR_LIMIT));
    var i :| 0 <= i < |answer| && answer[i].node == y;
    assert NodesOfAnswer(answer)[i] == y;
  }

  lemma TwoSteps(out: Listing, x: string, y: string, z: string)
    requires y in out(x) && z in out(y)
    ensures Reaches(out, x, z, 2)
  {
    assert Reaches(out, x, x, 0);
    assert Reaches(out, x, y, 1);
  }

  /** Two hops out of a document reach its entity, through its first chunk. */
  lemma EntityReached(names: Names, args: Args, edges: map<string, Edge>, index: Index, d: nat)
    requires Validated(args) && Distinct(names) && HoldsLinks(names, args, edges) && Truthful(edges, index)
    requires d < args.documents
    ensures Reaches(PathListing(index), names.node(Document(d)), names.node(Entity(d % args.entities)), 2)
  {
    var from, through, goal := names.node(Document(d)), names.node(Chunk(d, 0)), names.node(Entity(d % args.entities));
    var request := Request(from, Outgoing, None, PATH_NEIGHBOR_LIMIT);
    DocumentAnswer(names, args, edges, d, request, index(request));
    assert Contains(d, 0) in ContainsLinks(d, args.chunks);
    ListedIn(index, from, through);
    var next := Request(through, Outgoing, None, PATH_NEIGHBOR_LIMIT);
    ChunkAnswer(names, args, edges, d, 0, next, index(next));
    assert index(next)[0].node in NodesIn(index(next));
    ListedIn(index, through, goal);
    TwoSteps(PathListing(index), from, through, goal);
  }

  // ---- The known answers ----

  function UpTo(n: nat, bound: nat): nat {
    if n < bound then n else bound
  }

  /** The mentions of an entity below a bound grow by whole documents, one every `entities` documents. */
  lemma NextDocument(args: Args, entity: nat, document: nat)
    requires args.entities > 0 && document % args.entities == entity && document < args.documents
    ensures EntityLinks(args, entity, UpTo(document + args.entities, args.documents))
         == EntityLinks(args, entity, document) + MentionsLinks(document, args.chunks)
  {
    forall d | document < d < document + args.entities ensures d % args.entities != entity {
      Between(d, document, args.entities);
    }
  }

  lemma Multiples(entities: Positive, k: int)
    ensures k >= 1 ==> entities * k >= entities
    ensures k <= 0 ==> entities * k <= 0
  {
  }

  lemma SameResidue(x: nat, q: int, r: nat, entities: Positive)
    requires x == entities * q + r && r < entities
    ensures x % entities == r
  {
    var k := x / entities - q;
    assert x == entities * (x / entities) + x % entities;
    assert entities * k == r - x % entities;
    assert entities * (-k) == -(entities * k);
    Multiples(entities, k);
    Multiples(entities, -k);
  }

  lemma Between(d: nat, document: nat, entities: Positive)
    requires document < d < document + entities
    ensures d % entities != document % entities
  {
    var p, q := d / entities, document / entities;
    assert d == entities * p + d % entities && document == entities * q + document % entities;
    assert d - document == entities * (p - q) + (d % entities - document % entities);
    Multiples(entities, p - q);
  }

  function MentionsLinks(document: nat, count: nat): set<Link> {
    set c | 0 <= c < count :: Mentions(document, c)
  }

  lemma ChunkNamesAdd(names: Names, links: set<Link>, l: Link)
    ensures ChunkNames(names, links + {l}) == ChunkNames(names, links) + {names.node(Chunk(l.document, l.chunk))}
  {
  }

  method AddChunkNames(
        names: Names, chunks: nat, document: nat, before: set<string>, ghost links: set<Link>)
    returns (after: set<string>)
    requires before == ChunkNames(names, links)
    ensures after == ChunkNames(names, links + MentionsLinks(document, chunks))
  {
    after := before;
    ghost var added: set<Link> := {};
    assert links + added == links;
    for chunk := 0 to chunks
      invariant added == MentionsLinks(document, chunk) && after == ChunkNames(names, links + added)
    {
      ChunkNamesAdd(names, links + added, Mentions(document, chunk));
      after := after + {names.node(Chunk(document, chunk))};
      assert links + added + {Mentions(document, chunk)} == links + (added + {Mentions(document, chunk)});
      added := added + {Mentions(document, chunk)};
    }
  }

  lemma NoneBelow(args: Args, entity: nat)
    requires args.entities > 0 && entity < args.entities
    ensures EntityLinks(args, entity, entity) == {}
  {
  }

  /** Stepping through the documents of an entity finds exactly the chunks that mention it. */
  method ExpectedEntityChunks(names: Names, args: Args, entity: nat) returns (expected: set<string>)
    requires Validated(args) && entity < args.entities
    ensures expected == ChunkNames(names, EntityLinks(args, entity, args.documents))
  {
    expected := {};
    var document := entity;
    NoneBelow(args, entity);
    while document < args.documents
      invariant document % args.entities == entity
      invariant expected == ChunkNames(names, EntityLinks(args, entity, UpTo(document, args.documents)))
    {
      expected := AddChunkNames(names, args.chunks, document, expected, EntityLinks(args, entity, document));
      NextDocument(args, entity, document);
      SameResidue(document + args.entities, document / args.entities + 1, document % args.entities, args.entities);
      document := document + args.entities;
    }
  }

  /** The ends of the two-hop paths through the first `n` first hops. */
  function HopEnds(index: Index, first: seq<Neighbor>, n: nat, limit: nat): seq<string>
    requires n <= |first|
  {
    if n == 0 then []
    else
      HopEnds(index, first, n - 1, limit) + NodesOfAnswer(index(Request(first[n - 1].node, Outgoing, None, limit)))
  }

  function Cut(all: seq<string>, limit: nat): seq<string> {
    if |all| <= limit then all else all[..limit]
  }

  /** Orders a list by a score outside the model: any order may come out. */
  method Arrange(all: seq<string>) returns (arranged: seq<string>)
    ensures multiset(arranged) == multiset(all) && |arranged| == |all|
  {
    arranged := [];
    var rest := all;
    while rest != []
      invariant multiset(arranged) + multiset(rest) == multiset(all) && |arranged| + |rest| == |all|
      decreases |rest|
    {
      var i :| 0 <= i < |rest|;
      assert rest == rest[..i] + [rest[i]] + rest[i + 1..];
      arranged := arranged + [rest[i]];
      rest := rest[..i] + rest[i + 1..];
    }
  }

  /** The cut keeps entries of the whole, as many as the limit allows. */
  ghost predicate CutOf(all: seq<string>, ends: seq<string>, limit: nat) {
    multiset(ends) <= multiset(all) && |ends| == if |all| < limit then |all| else limit
  }

  lemma CutKeeps(all: seq<string>, arranged: seq<string>, limit: nat)
    requires multiset(arranged) == multiset(all) && |arranged| == |all|
    ensures CutOf(all, Cut(arranged, limit), limit)
  {
    if |arranged| > limit {
      assert arranged == arranged[..limit] + arranged[limit..];
    }
  }

  /** Two-hop paths, each by its last node, ordered by score and cut. */
  method TwoHop(index: Index, node: string, firstLimit: nat, secondLimit: nat, limit: nat) returns (ends: seq<string>)
    ensures var first := index(Request(node, Outgoing, None, firstLimit));
            CutOf(HopEnds(index, first, |first|, secondLimit), ends, limit)
  {
    if limit == 0 {
      return [];
    }
    var first := index(Request(node, Outgoing, None, firstLimit));
    var all := [];
    for n := 0 to |first|
      invariant all == HopEnds(index, first, n, secondLimit)
    {
      var second := index(Request(first[n].node, Outgoing, None, secondLimit));
      all := all + NodesOfAnswer(second);
    }
    var arranged := Arrange(all);
    CutKeeps(all, arranged, limit);
    ends := Cut(arranged, limit);
  }

  lemma SecondHop(names: Names, args: Args, edges: map<string, Edge>, index: Index, d: nat, x: string)
    requires Validated(args) && Distinct(names) && HoldsLinks(names, args, edges) && Truthful(edges, index)
    requires d < args.documents
    requires x in ChunkNames(names, ContainsLinks(d, args.chunks))
    ensures NodesOfAnswer(index(Request(x, Outgoing, None, 2))) == [names.node(Entity(d % args.entities))]
  {
    var l :| l in ContainsLinks(d, args.chunks) && names.node(Chunk(l.document, l.chunk)) == x;
    var request := Request(x, Outgoing, None, 2);
    ChunkAnswer(names, args, edges, d, l.chunk, request, index(request));
  }

  /** Every two-hop path out of a document ends at its entity, one for each chunk. */
  lemma {:induction false} HopEndsAre(
        names: Names, args: Args, edges: map<string, Edge>, index: Index, d: nat, first: seq<Neighbor>, n: nat)
    requires Validated(args) && Distinct(names) && HoldsLinks(names, args, edges) && Truthful(edges, index)
    requires d < args.documents
    requires NodesIn(first) <= ChunkNames(names, ContainsLinks(d, args.chunks)) && n <= |first|
    ensures HopEnds(index, first, n, 2) == seq(n, _ => names.node(Entity(d % args.entities)))
  {
    if n > 0 {
      HopEndsAre(names, args, edges, index, d, first, n - 1);
      assert first[n - 1].node in NodesIn(first);
      SecondHop(names, args, edges, index, d, first[n - 1].node);
    }
  }

  /** The chunks among the listed neighbours of a node. */
  function ChunkNeighbors(isChunk: string -> bool, node: string, answer: seq<Neighbor>, n: nat): set<string>
    requires n <= |answer|
  {
    if n == 0 then {}
    else
      var before := ChunkNeighbors(isChunk, node, answer, n - 1);
      if isChunk(answer[n - 1].node) && answer[n - 1].node != node then before + {answer[n - 1].node} else before
  }

  lemma {:induction false} ChunkNeighborsGrow(
        isChunk: string -> bool, node: string, answer: seq<Neighbor>, m: nat, n: nat)
    requires m <= n <= |answer|
    ensures |ChunkNeighbors(isChunk, node, answer, m)| <= |ChunkNeighbors(isChunk, node, answer, n)|
  {
    if m < n {
      ChunkNeighborsGrow(isChunk, node, answer, m, n - 1);
      var before, id := ChunkNeighbors(isChunk, node, answer, n - 1), answer[n - 1].node;
      assert id in before ==> before + {id} == before;
    }
  }

  /** Chunks one hop around a node, each once: all of them below the limit, as many as the limit otherwise. */
  method RelatedChunks(
        index: Index, isChunk: string -> bool, node: string, perHopLimit: nat, limit: nat)
    returns (chunks: set<string>)
    requires limit > 0
    ensures var answer := index(Request(node, Both, None, perHopLimit));
            var all := ChunkNeighbors(isChunk, node, answer, |answer|);
            if |all| < limit then chunks == all else |chunks| == limit <= |all|
  {
    chunks := {};
    var answer := index(Request(node, Both, None, perHopLimit));
    for n := 0 to |answer|
      invariant chunks == ChunkNeighbors(isChunk, node, answer, n) && |chunks| < limit
    {
      var id := answer[n].node;
      if isChunk(id) && id != node {
        chunks := chunks + {id};
        if |chunks| >= limit {
          ChunkNeighborsGrow(isChunk, node, answer, n + 1, |answer|);
          return;
        }
      }
    }
  }

  // What each query asks, and what a right answer to it is, for any index.

  function OneHopRequest(names: Names, args: Args, d: nat): Request {
    Request(names.node(Document(d)), Outgoing, Some(ContainsKind), args.chunks + 1)
  }

  function FirstHopRequest(names: Names, args: Args, d: nat): Request {
    Request(names.node(Document(d)), Outgoing, None, args.chunks + 1)
  }

  ghost predicate OneHopRight(names: Names, args: Args, index: Index, d: nat) {
    NodesIn(index(OneHopRequest(names, args, d))) == ChunkNames(names, ContainsLinks(d, args.chunks))
  }

  ghost predicate TwoHopRight(names: Names, args: Args, index: Index, d: nat)
    requires args.entities > 0
  {
    var first := index(FirstHopRequest(names, args, d));
    HopEnds(index, first, |first|, 2) == seq(args.chunks, _ => names.node(Entity(d % args.entities)))
  }

  ghost predicate RelatedRight(names: Names, args: Args, isChunk: string -> bool, index: Index, d: nat)
    requires args.entities > 0
  {
    var expected := ChunkNames(names, EntityLinks(args, d % args.entities, args.documents));
    var node := names.node(Entity(d % args.entities));
    var answer := index(Request(node, Both, None, |expected| + 1));
    ChunkNeighbors(isChunk, node, answer, |answer|) == expected
  }

  ghost predicate AnswerRight(names: Names, args: Args, isChunk: string -> bool, index: Index, d: nat, operation: nat)
    requires args.entities > 0 && args.documents > 0
  {
    match operation
    case 0 => OneHopRight(names, args, index, d)
    case 1 => TwoHopRight(names, args, index, d)
    case 2 => Reaches(PathListing(index), names.node(Document(d)), names.node(Entity(d % args.entities)), 2)
    case 3 => RelatedRight(names, args, isChunk, index, d)
    case _ => !Reaches(PathListing(index), names.node(Document(d)), names.node(Document((d + 1) % args.documents)), 3)
  }

  method OneHopKnown(names: Names, args: Args, index: Index, d: nat) returns (right: bool)
    ensures right <==> OneHopRight(names, args, index, d)
  {
    var expected: set<string> := {};
    for chunk := 0 to args.chunks
      invariant expected == ChunkNames(names, ContainsLinks(d, chunk))
    {
      ChunkNamesAdd(names, ContainsLinks(d, chunk), Contains(d, chunk));
      assert ContainsLinks(d, chunk + 1) == ContainsLinks(d, chunk) + {Contains(d, chunk)};
      expected := expected + {names.node(Chunk(d, chunk))};
    }
    right := NodesIn(index(OneHopRequest(names, args, d))) == expected;
  }

  lemma SameEntries(a: seq<string>, b: seq<string>)
    requires multiset(a) <= multiset(b) && |a| == |b|
    ensures forall x :: x in a <==> x in b
  {
    assert multiset(b) == multiset(a) + (multiset(b) - multiset(a));
    assert |multiset(b) - multiset(a)| == 0;
    assert multiset(a) == multiset(b);
    forall x ensures x in a <==> x in b {
      assert x in a <==> x in multiset(a);
      assert x in b <==> x in multiset(b);
    }
  }

  lemma AllAre(list: seq<string>, x: string)
    ensures (forall i :: 0 <= i < |list| ==> list[i] == x) <==> forall y :: y in list ==> y == x
  {
    if forall y :: y in list ==> y == x {
      forall i | 0 <= i < |list| ensures list[i] == x {
        assert list[i] in list;
      }
    }
  }

  /** Cutting at one more than the expected number hides no surplus, whatever the order. */
  lemma CutShows(all: seq<string>, ends: seq<string>, n: nat, x: string)
    requires CutOf(all, ends, n + 1)
    ensures all == seq(n, _ => x) <==> |ends| == n && forall i :: 0 <= i < |ends| ==> ends[i] == x
  {
    if |all| == n {
      SameEntries(ends, all);
      AllAre(all, x);
      AllAre(ends, x);
    }
  }

  method TwoHopKnown(names: Names, args: Args, index: Index, d: nat) returns (right: bool)
    requires args.entities > 0
    ensures right <==> TwoHopRight(names, args, index, d)
  {
    var entity := names.node(Entity(d % args.entities));
    var ends := TwoHop(index, names.node(Document(d)), args.chunks + 1, 2, args.chunks + 1);
    ghost var first := index(FirstHopRequest(names, args, d));
    CutShows(HopEnds(index, first, |first|, 2), ends, args.chunks, entity);
    right := |ends| == args.chunks && forall i :: 0 <= i < |ends| ==> ends[i] == entity;
  }

  method RelatedKnown(names: Names, args: Args, isChunk: string -> bool, index: Index, d: nat) returns (right: bool)
    requires Validated(args)
    ensures right <==> RelatedRight(names, args, isChunk, index, d)
  {
    var entity := d % args.entities;
    var expected := ExpectedEntityChunks(names, args, entity);
    var observed := RelatedChunks(index, isChunk, names.node(Entity(entity)), |expected| + 1, |expected| + 1);
    right := observed == expected;
  }

  /** Every node the path search can come to is one of finitely many. */
  ghost predicate Closed(index: Index, nodes: set<string>) {
    forall x, y :: y in PathListing(index)(x) ==> y in nodes
  }

  /** One query against any index: the verdict says exactly whether its answer is right. */
  method KnownAnswer(
        names: Names, args: Args, isChunk: string -> bool, index: Index, queryIndex: nat, operation: nat,
        ghost nodes: set<string>)
    returns (result: Result<bool, SearchError>)
    requires Validated(args) && Closed(index, nodes)
    ensures result == Success(AnswerRight(names, args, isChunk, index, (queryIndex / 5) % args.documents, operation))
  {
    var document := (queryIndex / 5) % args.documents;
    var documentNode := names.node(Document(document));
    if operation == 0 {
      var right := OneHopKnown(names, args, index, document);
      return Success(right);
    }
    if operation == 1 {
      var right := TwoHopKnown(names, args, index, document);
      return Success(right);
    }
    if operation == 3 {
      var right := RelatedKnown(names, args, isChunk, index, document);
      return Success(right);
    }
    if operation == 2 {
      var entityNode := names.node(Entity(document % args.entities));
      result := PathExists(PathListing(index), documentNode, entityNode, 2, nodes + {documentNode});
    } else {
      var nextNode := names.node(Document((document + 1) % args.documents));
      var searched := PathExists(PathListing(index), documentNode, nextNode, 3, nodes + {documentNode});
      result := match searched case Success(found) => Success(!found) case Failure(error) => Failure(error);
    }
  }

  // ---- On the built graph the answers are right ----

  ghost predicate ChunkTest(names: Names, isChunk: string -> bool) {
    forall n :: isChunk(names.node(n)) <==> n.Chunk?
  }

  lemma OneHopAgrees(names: Names, args: Args, edges: map<string, Edge>, index: Index, d: nat)
    requires Validated(args) && Distinct(names) && HoldsLinks(names, args, edges) && Truthful(edges, index)
    requires d < args.documents
    ensures OneHopRight(names, args, index, d)
  {
    var request := OneHopRequest(names, args, d);
    DocumentAnswer(names, args, edges, d, request, index(request));
  }

  lemma TwoHopAgrees(names: Names, args: Args, edges: map<string, Edge>, index: Index, d: nat)
    requires Validated(args) && Distinct(names) && HoldsLinks(names, args, edges) && Truthful(edges, index)
    requires d < args.documents
    ensures TwoHopRight(names, args, index, d)
  {
    var request := FirstHopRequest(names, args, d);
    DocumentAnswer(names, args, edges, d, request, index(request));
    HopEndsAre(names, args, edges, index, d, index(request), args.chunks);
  }

  lemma {:induction false} AllChunks(isChunk: string -> bool, node: string, answer: seq<Neighbor>, n: nat)
    requires n <= |answer|
    requires forall id :: id in NodesIn(answer) ==> isChunk(id) && id != node
    ensures ChunkNeighbors(isChunk, node, answer, n) == NodesIn(answer[..n])
  {
    if n > 0 {
      AllChunks(isChunk, node, answer, n - 1);
      assert answer[..n] == answer[..n - 1] + [answer[n - 1]];
      assert answer[n - 1].node in NodesIn(answer);
      assert NodesIn(answer[..n]) == NodesIn(answer[..n - 1]) + {answer[n - 1].node};
    }
  }

  lemma RelatedAgrees(names: Names, args: Args, isChunk: string -> bool, edges: map<string, Edge>, index: Index, d: nat)
    requires Validated(args) && Distinct(names) && ChunkTest(names, isChunk) && HoldsLinks(names, args, edges)
    requires Truthful(edges, index) && d < args.documents
    ensures RelatedRight(names, args, isChunk, index, d)
  {
    var entity := d % args.entities;
    var expected := ChunkNames(names, EntityLinks(args, entity, args.documents));
    var node := names.node(Entity(entity));
    var request := Request(node, Both, None, |expected| + 1);
    var answer := index(request);
    EntityAnswer(names, args, edges, entity, request, answer);
    forall id | id in expected ensures isChunk(id) && id != node {
      var l :| l in EntityLinks(args, entity, args.documents) && names.node(Chunk(l.document, l.chunk)) == id;
    }
    AllChunks(isChunk, node, answer, |answer|);
    assert answer[..|answer|] == answer;
  }

  lemma NextIsOther(document: nat, documents: nat)
    requires document < documents
    ensures (document + 1) % documents == document <==> documents == 1
  {
    if document + 1 < documents {
      assert (document + 1) % documents == document + 1;
    } else {
      assert (document + 1) % documents == 0;
    }
  }

  /** The next document is within three hops only if it is the same document. */
  lemma NegativePath(
        names: Names, args: Args, nodes: map<string, NodeKind>, edges: map<string, Edge>, index: Index, d: nat)
    requires Validated(args) && Distinct(names) && HoldsGraph(names, args, nodes, edges) && Truthful(edges, index)
    requires d < args.documents
    ensures var next := (d + 1) % args.documents;
            Reaches(PathListing(index), names.node(Document(d)), names.node(Document(next)), 3) <==> args.documents == 1
  {
    var next := (d + 1) % args.documents;
    NextIsOther(d, args.documents);
    if Reaches(PathListing(index), names.node(Document(d)), names.node(Document(next)), 3) {
      ReachesNear(names, args, nodes, edges, index, names.node(Document(d)), names.node(Document(next)), 3);
      DocumentDistances(names, args, edges, d, next);
    }
  }

  /**
   Every answer is right on the built graph, except the negative path query
   when there is only one document: its two ends are then the same node.
   */
  lemma AnswersAgree(
        names: Names, args: Args, isChunk: string -> bool, nodes: map<string, NodeKind>, edges: map<string, Edge>,
        index: Index, d: nat, operation: nat)
    requires Validated(args) && Distinct(names) && ChunkTest(names, isChunk) && d < args.documents
    requires HoldsGraph(names, args, nodes, edges) && Truthful(edges, index)
    ensures AnswerRight(names, args, isChunk, index, d, operation) <==> operation < 4 || args.documents >= 2
  {
    match operation {
      case 0 => OneHopAgrees(names, args, edges, index, d);
      case 1 => TwoHopAgrees(names, args, edges, index, d);
      case 2 => EntityReached(names, args, edges, index, d);
      case 3 => RelatedAgrees(names, args, isChunk, edges, index, d);
      case _ => NegativePath(names, args, nodes, edges, index, d);
    }
  }

  lemma TruthfulIsClosed(names: Names, args: Args, nodes: map<string, NodeKind>, edges: map<string, Edge>, index: Index)
    requires Validated(args) && HoldsGraph(names, args, nodes, edges) && Truthful(edges, index)
    ensures Closed(index, nodes.Keys)
  {
    forall x, y | y in PathListing(index)(x) ensures y in nodes.Keys {
      ListedAdjacent(names, args, nodes, edges, index, x, y);
    }
  }

  /** One query of a store that holds the graph; the operation follows from the query's number. */
  method AskBuilt(args: Args, index: Index, store: Store, queryIndex: nat) returns (result: Result<bool, SearchError>)
    requires Validated(args) && HoldsGraph(NamesOf(args.workspace), args, store.nodes, store.edges)
    requires Truthful(store.edges, index)
    ensures result == Success(queryIndex % 5 < 4 || args.documents >= 2)
  {
    var names := NamesOf(args.workspace);
    NamesDistinct(args.workspace);
    forall n ensures IsChunkId(names.node(n)) <==> n.Chunk? {
      ChunkIdExact(args.workspace, n);
    }
    TruthfulIsClosed(names, args, store.nodes, store.edges, index);
    var document := (queryIndex / 5) % args.documents;
    AnswersAgree(names, args, IsChunkId, store.nodes, store.edges, index, document, queryIndex % 5);
    result := KnownAnswer(names, args, IsChunkId, index, queryIndex, queryIndex % 5, store.nodes.Keys);
  }

  /**
   From arguments to verdict: a graph built in batches of any size, opened by
   any truthful index, answers every known-answer query, except the negative
   path query over a single document.
   */
  method BuildAndAsk(
        args: Args, open: map<string, Edge> -> Index, queryIndex: nat)
    returns (result: Result<bool, SearchError>)
    requires Validated(args)
    requires forall edges :: Truthful(edges, open(edges))
    ensures result == Success(queryIndex % 5 < 4 || args.documents >= 2)
  {
    var store := new Store();
    var _ := BuildGraph(store, args);
    result := AskBuilt(args, open(store.edges), store, queryIndex);
  }
}
