/**
 What the verdicts of the known-answer queries say about an arbitrary graph
 (crates/benchmark/src/graph.rs): the store may hold any edges, for instance
 those of an earlier build, and the index any that lists them truthfully.  Each
 verdict is compared with the truth about the edges; where a listing cut at its
 limit can hide the truth, the exact condition on the edges is given.
 */
module GraphSoundness {
  import opened GraphIds
  import opened GraphStore
  import opened GraphOracle
  import opened ListingCuts
  import opened Wrappers
  import Counting

  type Edges = map<string, Edge>

  // ---- Truthful indexes and the cuts they show ----

  /** The members of a set, in some order. */
  ghost function Listed(ids: Ids): (list: seq<string>)
    ensures |list| == |ids| && forall id :: id in list <==> id in ids
    ensures forall i, j :: 0 <= i < j < |list| ==> list[i] != list[j]
  {
    if ids == {} then []
    else
      var id :| id in ids;
      Listed(ids - {id}) + [id]
  }

  ghost function IncidentEdges(edges: Edges, request: Request): Ids {
    set id | id in edges && Incident(edges, request, id)
  }

  /** The far end of an edge, seen from a node. */
  function Other(edges: Edges, node: string): FarEnd {
    (id: string) => if id in edges then OtherEnd(edges[id], node) else ""
  }

  /** The answer that shows exactly these edges. */
  ghost function Shown(edges: Edges, request: Request, cut: Ids): seq<Neighbor> {
    var ids := Listed(cut);
    seq(|ids|, i requires 0 <= i < |ids| => Neighbor(ids[i], Other(edges, request.node)(ids[i])))
  }

  lemma ShownEdges(edges: Edges, request: Request, cut: Ids)
    ensures EdgesIn(Shown(edges, request, cut)) == cut
  {
    var ids, answer := Listed(cut), Shown(edges, request, cut);
    forall n | n in answer ensures n.edge in cut {
      var i :| 0 <= i < |answer| && answer[i] == n;
      assert ids[i] in ids;
    }
    forall id | id in cut ensures id in EdgesIn(answer) {
      var i :| 0 <= i < |ids| && ids[i] == id;
      assert answer[i] in answer && answer[i].edge == id;
    }
  }

  lemma ShownIsTruthful(edges: Edges, request: Request, cut: Ids)
    requires IsCut(IncidentEdges(edges, request), cut, request.limit)
    ensures Lists(edges, request, Shown(edges, request, cut)) && EdgesIn(Shown(edges, request, cut)) == cut
  {
    var ids, answer, all := Listed(cut), Shown(edges, request, cut), IncidentEdges(edges, request);
    ShownEdges(edges, request, cut);
    Counting.SubsetSize(cut, all);
    forall i | 0 <= i < |answer|
      ensures Incident(edges, request, answer[i].edge)
      ensures answer[i].node == OtherEnd(edges[answer[i].edge], request.node)
    {
      assert ids[i] in ids && ids[i] in all;
      assert answer[i] == Neighbor(ids[i], Other(edges, request.node)(ids[i]));
    }
    if |answer| < request.limit {
      assert cut == all;
      forall id | Incident(edges, request, id) ensures id in EdgesIn(answer) {
        assert id in all;
      }
    }
  }

  /** Some cut, of edges with preference as far as they go. */
  ghost function Preferring(edges: Edges, request: Request, preferred: Ids): (cut: Ids)
    ensures IsCut(IncidentEdges(edges, request), cut, request.limit)
    ensures preferred * IncidentEdges(edges, request) <= cut || cut <= preferred
  {
    PreferredCut(IncidentEdges(edges, request), preferred, request.limit);
    var cut :| IsCut(IncidentEdges(edges, request), cut, request.limit)
      && (preferred * IncidentEdges(edges, request) <= cut || cut <= preferred);
    cut
  }

  lemma PreferredCut(ids: Ids, preferred: Ids, limit: nat)
    ensures exists cut :: IsCut(ids, cut, limit) && (preferred * ids <= cut || cut <= preferred)
  {
    var size := if |ids| <= limit then |ids| else limit;
    Counting.SubsetSize(preferred * ids, ids);
    var cut: Ids;
    if |preferred * ids| <= size {
      cut := Extend(preferred * ids, ids, size);
    } else {
      cut := Extend({}, preferred * ids, size);
    }
    assert IsCut(ids, cut, limit);
  }

  /** An index that shows a chosen cut for every request. */
  lemma ShowingIndex(edges: Edges, choose: Request -> Ids) returns (index: Index)
    requires forall r :: IsCut(IncidentEdges(edges, r), choose(r), r.limit)
    ensures Truthful(edges, index)
    ensures forall r :: index(r) == Shown(edges, r, choose(r)) && EdgesIn(index(r)) == choose(r)
  {
    index := (r: Request) => Shown(edges, r, choose(r));
    forall r ensures Lists(edges, r, index(r)) && EdgesIn(index(r)) == choose(r) {
      ShownIsTruthful(edges, r, choose(r));
    }
  }

  /** An index that shows a given cut for one request. */
  lemma ShowingOnce(edges: Edges, request: Request, cut: Ids) returns (index: Index)
    requires IsCut(IncidentEdges(edges, request), cut, request.limit)
    ensures Truthful(edges, index) && EdgesIn(index(request)) == cut
  {
    index := ShowingIndex(edges, (r: Request) => if r == request then cut else Preferring(edges, r, {}));
  }

  /** Every edge map has a truthful index. */
  lemma TruthfulIndexExists() returns (open: Edges -> Index)
    ensures forall edges :: Truthful(edges, open(edges))
  {
    open := (edges: Edges) => (r: Request) => Shown(edges, r, Preferring(edges, r, {}));
    forall edges ensures Truthful(edges, open(edges)) {
      forall r ensures Lists(edges, r, open(edges)(r)) {
        ShownIsTruthful(edges, r, Preferring(edges, r, {}));
      }
    }
  }

  /** A truthful answer shows a cut of the incident edges, and their far ends. */
  lemma AnswerIsCut(edges: Edges, request: Request, answer: seq<Neighbor>)
    requires Lists(edges, request, answer)
    ensures IsCut(IncidentEdges(edges, request), EdgesIn(answer), request.limit) && |EdgesIn(answer)| == |answer|
    ensures forall n :: n in answer ==> n.node == Other(edges, request.node)(n.edge)
  {
    EdgesInSize(answer);
    var all := IncidentEdges(edges, request);
    assert EdgesIn(answer) <= all;
    Counting.SubsetSize(EdgesIn(answer), all);
    if |answer| < request.limit {
      assert all <= EdgesIn(answer);
      assert all == EdgesIn(answer);
    }
  }

  function Any(): Test {
    (x: string) => true
  }

  lemma NodesAreEnds(edges: Edges, request: Request, answer: seq<Neighbor>)
    requires Lists(edges, request, answer)
    ensures NodesIn(answer) == Ends(EdgesIn(answer), Other(edges, request.node), Any())
  {
    AnswerIsCut(edges, request, answer);
    var far := Other(edges, request.node);
    forall x | x in Ends(EdgesIn(answer), far, Any()) ensures x in NodesIn(answer) {
      var e :| e in EdgesIn(answer) && far(e) == x;
      var n :| n in answer && n.edge == e;
    }
    forall x | x in NodesIn(answer) ensures x in Ends(EdgesIn(answer), far, Any()) {
      var n :| n in answer && n.node == x;
      assert n.edge in EdgesIn(answer) && far(n.edge) == x;
    }
  }

  /** The edges out of a node, of either kind. */
  ghost function OutEdges(edges: Edges, x: string): Ids {
    set id | id in edges && edges[id].source == x
  }

  // ---- One hop ----

  /** The containment edges out of a node. */
  ghost function ContainsOut(edges: Edges, x: string): Ids {
    set id | id in edges && edges[id].source == x && edges[id].kind == ContainsKind
  }

  ghost function ChunksOf(names: Names, args: Args, d: nat): set<string> {
    ChunkNames(names, ContainsLinks(d, args.chunks))
  }

  /** The containment edges out of the document lead to its chunks, to all of them and nowhere else. */
  ghost predicate OneHopTruth(names: Names, args: Args, edges: Edges, d: nat) {
    var x := names.node(Document(d));
    (set id | id in ContainsOut(edges, x) :: edges[id].target) == ChunksOf(names, args, d)
  }

  ghost predicate OneHopTelling(names: Names, args: Args, edges: Edges, d: nat) {
    var x := names.node(Document(d));
    Telling(ContainsOut(edges, x), Other(edges, x), Any(), ChunksOf(names, args, d), args.chunks + 1)
  }

  lemma ChunksOfSize(names: Names, args: Args, d: nat)
    requires Distinct(names)
    ensures |ChunksOf(names, args, d)| == args.chunks
  {
    ContainsLinksSize(d, args.chunks);
    ChunkNamesSize(names, ContainsLinks(d, args.chunks));
  }

  lemma OneHopTruthIsEnds(names: Names, args: Args, edges: Edges, d: nat)
    ensures var x := names.node(Document(d));
            OneHopTruth(names, args, edges, d) <==>
            Ends(ContainsOut(edges, x), Other(edges, x), Any()) == ChunksOf(names, args, d)
  {
    var x := names.node(Document(d));
    assert (set id | id in ContainsOut(edges, x) :: edges[id].target)
        == Ends(ContainsOut(edges, x), Other(edges, x), Any());
  }

  /** One truthful answer to the one-hop query, compared with the edges. */
  lemma OneHopJudged(names: Names, args: Args, edges: Edges, index: Index, d: nat)
    requires Distinct(names) && Truthful(edges, index)
    ensures var x := names.node(Document(d));
            exists cut ::
              && IsCut(ContainsOut(edges, x), cut, args.chunks + 1)
              && cut == EdgesIn(index(Request(x, Outgoing, Some(ContainsKind), args.chunks + 1)))
              && (OneHopRight(names, args, index, d) <==>
                    Ends(cut, Other(edges, x), Any()) == ChunksOf(names, args, d))
  {
    var x := names.node(Document(d));
    var request := Request(x, Outgoing, Some(ContainsKind), args.chunks + 1);
    assert IncidentEdges(edges, request) == ContainsOut(edges, x);
    assert Lists(edges, request, index(request));
    AnswerIsCut(edges, request, index(request));
    NodesAreEnds(edges, request, index(request));
  }

  /**
   The one-hop verdict is the truth about the edges for every truthful index if
   and only if the edges are telling.
   */
  lemma OneHopSoundExactly(names: Names, args: Args, edges: Edges, d: nat)
    requires Distinct(names)
    ensures (forall index: Index :: Truthful(edges, index) ==>
              (OneHopRight(names, args, index, d) <==> OneHopTruth(names, args, edges, d))) <==>
            OneHopTelling(names, args, edges, d)
  {
    var x, expected := names.node(Document(d)), ChunksOf(names, args, d);
    var ids, far, limit := ContainsOut(edges, x), Other(edges, x), args.chunks + 1;
    ChunksOfSize(names, args, d);
    OneHopTruthIsEnds(names, args, edges, d);
    if OneHopTelling(names, args, edges, d) {
      forall index: Index | Truthful(edges, index)
        ensures OneHopRight(names, args, index, d) <==> OneHopTruth(names, args, edges, d)
      {
        OneHopJudged(names, args, edges, index, d);
        var cut :| IsCut(ids, cut, limit)
          && (OneHopRight(names, args, index, d) <==> Ends(cut, far, Any()) == expected);
        TellingCut(ids, far, Any(), expected, limit, cut);
      }
    } else {
      var cut := MisleadingCut(ids, far, Any(), expected, limit);
      var request := Request(x, Outgoing, Some(ContainsKind), limit);
      assert IncidentEdges(edges, request) == ids;
      var index := ShowingOnce(edges, request, cut);
      OneHopJudged(names, args, edges, index, d);
    }
  }

  /** Without two containment edges from the document to the same node, the verdict is always the truth. */
  lemma OneHopSound(names: Names, args: Args, edges: Edges, index: Index, d: nat)
    requires Distinct(names) && Truthful(edges, index)
    requires var ids := ContainsOut(edges, names.node(Document(d)));
             forall e, f :: e in ids && f in ids && edges[e].target == edges[f].target ==> e == f
    ensures OneHopRight(names, args, index, d) <==> OneHopTruth(names, args, edges, d)
  {
    var x := names.node(Document(d));
    ChunksOfSize(names, args, d);
    SimpleIsTelling(ContainsOut(edges, x), Other(edges, x), Any(), ChunksOf(names, args, d));
    OneHopSoundExactly(names, args, edges, d);
  }

  /** Two edges from `x` to the one chunk of a document, and a third from `x` to itself. */
  ghost function Doubled(x: string, chunk: string): Edges {
    map["a" := Edge(x, chunk, ContainsKind), "b" := Edge(x, chunk, ContainsKind), "c" := Edge(x, x, ContainsKind)]
  }

  lemma DoubledEnds(x: string, chunk: string)
    requires x != chunk
    ensures var edges := Doubled(x, chunk);
            && IsCut(ContainsOut(edges, x), {"a", "b"}, 2)
            && Ends({"a", "b"}, Other(edges, x), Any()) == {chunk}
            && x in Ends(ContainsOut(edges, x), Other(edges, x), Any())
  {
    var edges := Doubled(x, chunk);
    assert ContainsOut(edges, x) == {"a", "b", "c"};
    assert Other(edges, x)("a") == chunk && Other(edges, x)("b") == chunk && Other(edges, x)("c") == x;
  }

  /**
   A listing of two may show the first two edges, and then the verdict is right
   though the document has a neighbour it should not have.
   */
  lemma ParallelEdgesMislead(names: Names, args: Args, d: nat) returns (edges: Edges, index: Index)
    requires Distinct(names) && args.chunks == 1
    ensures Truthful(edges, index) && OneHopRight(names, args, index, d) && !OneHopTruth(names, args, edges, d)
  {
    var x, chunk := names.node(Document(d)), names.node(Chunk(d, 0));
    edges := Doubled(x, chunk);
    DoubledEnds(x, chunk);
    assert ContainsLinks(d, 1) == {Contains(d, 0)};
    assert ChunksOf(names, args, d) == {chunk};
    var request := Request(x, Outgoing, Some(ContainsKind), 2);
    assert IncidentEdges(edges, request) == ContainsOut(edges, x);
    index := ShowingOnce(edges, request, {"a", "b"});
    OneHopJudged(names, args, edges, index, d);
    OneHopTruthIsEnds(names, args, edges, d);
  }

  // ---- Related chunks ----

  /** The edges at a node, whichever way they point. */
  ghost function EdgesAt(edges: Edges, x: string): Ids {
    set id | id in edges && (edges[id].source == x || edges[id].target == x)
  }

  function ChunkOtherThan(isChunk: string -> bool, x: string): Test {
    (y: string) => isChunk(y) && y != x
  }

  ghost function MentioningChunks(names: Names, args: Args, d: nat): set<string>
    requires args.entities > 0
  {
    ChunkNames(names, EntityLinks(args, d % args.entities, args.documents))
  }

  /** The chunks next to the document's entity are those of the entity's documents. */
  ghost predicate RelatedTruth(names: Names, args: Args, isChunk: string -> bool, edges: Edges, d: nat)
    requires args.entities > 0
  {
    var x := names.node(Entity(d % args.entities));
    Ends(EdgesAt(edges, x), Other(edges, x), ChunkOtherThan(isChunk, x)) == MentioningChunks(names, args, d)
  }

  ghost predicate RelatedTelling(names: Names, args: Args, isChunk: string -> bool, edges: Edges, d: nat)
    requires args.entities > 0
  {
    var x, expected := names.node(Entity(d % args.entities)), MentioningChunks(names, args, d);
    Telling(EdgesAt(edges, x), Other(edges, x), ChunkOtherThan(isChunk, x), expected, |expected| + 1)
  }

  lemma {:induction false} ChunkNeighborsAre(isChunk: string -> bool, node: string, answer: seq<Neighbor>, n: nat)
    requires n <= |answer|
    ensures forall y :: y in ChunkNeighbors(isChunk, node, answer, n) <==>
      ChunkOtherThan(isChunk, node)(y) && exists i :: 0 <= i < n && answer[i].node == y
  {
    if n > 0 {
      ChunkNeighborsAre(isChunk, node, answer, n - 1);
    }
  }

  lemma ChunkNeighborsAreEnds(
      isChunk: string -> bool, edges: Edges, request: Request, answer: seq<Neighbor>)
    requires Lists(edges, request, answer)
    ensures ChunkNeighbors(isChunk, request.node, answer, |answer|)
         == Ends(EdgesIn(answer), Other(edges, request.node), ChunkOtherThan(isChunk, request.node))
  {
    var far, relevant := Other(edges, request.node), ChunkOtherThan(isChunk, request.node);
    AnswerIsCut(edges, request, answer);
    ChunkNeighborsAre(isChunk, request.node, answer, |answer|);
    var found := ChunkNeighbors(isChunk, request.node, answer, |answer|);
    forall y | y in found ensures y in Ends(EdgesIn(answer), far, relevant) {
      var i :| 0 <= i < |answer| && answer[i].node == y;
      assert answer[i] in answer && answer[i].edge in EdgesIn(answer) && far(answer[i].edge) == y;
    }
    forall y | y in Ends(EdgesIn(answer), far, relevant) ensures y in found {
      var e :| e in EdgesIn(answer) && far(e) == y;
      var n :| n in answer && n.edge == e;
      var i :| 0 <= i < |answer| && answer[i] == n;
    }
  }

  lemma RelatedJudged(names: Names, args: Args, isChunk: string -> bool, edges: Edges, index: Index, d: nat)
    requires args.entities > 0 && Truthful(edges, index)
    ensures var x, expected := names.node(Entity(d % args.entities)), MentioningChunks(names, args, d);
            exists cut ::
              && IsCut(EdgesAt(edges, x), cut, |expected| + 1)
              && cut == EdgesIn(index(Request(x, Both, None, |expected| + 1)))
              && (RelatedRight(names, args, isChunk, index, d) <==>
                    Ends(cut, Other(edges, x), ChunkOtherThan(isChunk, x)) == expected)
  {
    var x, expected := names.node(Entity(d % args.entities)), MentioningChunks(names, args, d);
    var request := Request(x, Both, None, |expected| + 1);
    assert IncidentEdges(edges, request) == EdgesAt(edges, x);
    assert Lists(edges, request, index(request));
    AnswerIsCut(edges, request, index(request));
    ChunkNeighborsAreEnds(isChunk, edges, request, index(request));
  }

  /** The related-chunk verdict is the truth for every truthful index if and only if the edges are telling. */
  lemma RelatedSoundExactly(names: Names, args: Args, isChunk: string -> bool, edges: Edges, d: nat)
    requires args.entities > 0
    ensures (forall index: Index :: Truthful(edges, index) ==>
              (RelatedRight(names, args, isChunk, index, d) <==> RelatedTruth(names, args, isChunk, edges, d))) <==>
            RelatedTelling(names, args, isChunk, edges, d)
  {
    var x, expected := names.node(Entity(d % args.entities)), MentioningChunks(names, args, d);
    var ids, far, relevant := EdgesAt(edges, x), Other(edges, x), ChunkOtherThan(isChunk, x);
    var limit := |expected| + 1;
    if RelatedTelling(names, args, isChunk, edges, d) {
      forall index: Index | Truthful(edges, index)
        ensures RelatedRight(names, args, isChunk, index, d) <==> RelatedTruth(names, args, isChunk, edges, d)
      {
        RelatedJudged(names, args, isChunk, edges, index, d);
        var cut :| IsCut(ids, cut, limit)
          && (RelatedRight(names, args, isChunk, index, d) <==> Ends(cut, far, relevant) == expected);
        TellingCut(ids, far, relevant, expected, limit, cut);
      }
    } else {
      var cut := MisleadingCut(ids, far, relevant, expected, limit);
      var request := Request(x, Both, None, limit);
      assert IncidentEdges(edges, request) == ids;
      var index := ShowingOnce(edges, request, cut);
      RelatedJudged(names, args, isChunk, edges, index, d);
    }
  }
}
