/**
 The five queries put to whatever graph the store holds: what each verdict means
 for the edges, and exactly when every truthful index gives that verdict.
 */
module GraphVerdicts {
  import opened Wrappers
  import opened PathSearch
  import opened GraphIds
  import opened GraphStore
  import opened GraphOracle
  import opened ListingCuts
  import opened GraphSoundness
  import opened TwoHopSoundness
  import opened PathSoundness
  import Counting

  /** The true answer to a query, in terms of the edges alone. */
  ghost predicate TrueAnswer(names: Names, args: Args, isChunk: string -> bool, edges: Edges, d: nat, operation: nat)
    requires Validated(args)
  {
    match operation
    case 0 => OneHopTruth(names, args, edges, d)
    case 1 => TwoHopTruth(names, args, edges, d)
    case 2 => Ahead(edges, names.node(Document(d)), names.node(Entity(d % args.entities)), 2)
    case 3 => RelatedTruth(names, args, isChunk, edges, d)
    case _ => !Ahead(edges, names.node(Document(d)), names.node(Document((d + 1) % args.documents)), 3)
  }

  /** The limits on listings cannot hide the true answer. */
  ghost predicate TellingFor(names: Names, args: Args, isChunk: string -> bool, edges: Edges, d: nat, operation: nat)
    requires Validated(args)
  {
    match operation
    case 0 => OneHopTelling(names, args, edges, d)
    case 1 => TwoHopTelling(names, args, edges, d)
    case 2 => PathTelling(edges, names.node(Document(d)), names.node(Entity(d % args.entities)), 2)
    case 3 => RelatedTelling(names, args, isChunk, edges, d)
    case _ => PathTelling(edges, names.node(Document(d)), names.node(Document((d + 1) % args.documents)), 3)
  }

  /** Every truthful index gives the true answer. */
  ghost predicate Sound(names: Names, args: Args, isChunk: string -> bool, edges: Edges, d: nat, operation: nat)
    requires Validated(args)
  {
    forall index: Index :: Truthful(edges, index) ==>
      (AnswerRight(names, args, isChunk, index, d, operation) <==>
       TrueAnswer(names, args, isChunk, edges, d, operation))
  }

  lemma HopVerdicts(names: Names, args: Args, isChunk: string -> bool, edges: Edges, d: nat)
    requires Validated(args) && Distinct(names)
    ensures Sound(names, args, isChunk, edges, d, 0) <==> TellingFor(names, args, isChunk, edges, d, 0)
    ensures Sound(names, args, isChunk, edges, d, 1) <==> TellingFor(names, args, isChunk, edges, d, 1)
  {
    OneHopSoundExactly(names, args, edges, d);
    TwoHopSoundExactly(names, args, edges, d);
  }

  lemma RelatedVerdict(names: Names, args: Args, isChunk: string -> bool, edges: Edges, d: nat)
    requires Validated(args)
    ensures Sound(names, args, isChunk, edges, d, 3) <==> TellingFor(names, args, isChunk, edges, d, 3)
  {
    RelatedSoundExactly(names, args, isChunk, edges, d);
  }

  lemma PathVerdicts(names: Names, args: Args, isChunk: string -> bool, edges: Edges, d: nat, operation: nat)
    requires Validated(args) && (operation == 2 || operation >= 4)
    ensures Sound(names, args, isChunk, edges, d, operation) <==>
      TellingFor(names, args, isChunk, edges, d, operation)
  {
    if operation == 2 {
      PathSoundExactly(edges, names.node(Document(d)), names.node(Entity(d % args.entities)), 2);
    } else {
      PathSoundExactly(edges, names.node(Document(d)), names.node(Document((d + 1) % args.documents)), 3);
    }
  }

  /**
   The verdict on any query of any graph is the truth about its edges, with
   every truthful index, if and only if the edges are telling.
   */
  lemma VerdictExactly(names: Names, args: Args, isChunk: string -> bool, edges: Edges, d: nat, operation: nat)
    requires Validated(args) && Distinct(names)
    ensures Sound(names, args, isChunk, edges, d, operation) <==>
      TellingFor(names, args, isChunk, edges, d, operation)
  {
    if operation < 2 {
      HopVerdicts(names, args, isChunk, edges, d);
    } else if operation == 3 {
      RelatedVerdict(names, args, isChunk, edges, d);
    } else {
      PathVerdicts(names, args, isChunk, edges, d, operation);
    }
  }

  // ---- The graph the builder writes ----

  lemma BuiltDocumentEdges(names: Names, args: Args, edges: Edges, d: nat)
    requires Validated(args) && Distinct(names) && HoldsLinks(names, args, edges) && d < args.documents
    ensures OutEdges(edges, names.node(Document(d))) == LinkNames(names, ContainsLinks(d, args.chunks))
    ensures |OutEdges(edges, names.node(Document(d)))| == args.chunks
    ensures ContainsOut(edges, names.node(Document(d))) <= OutEdges(edges, names.node(Document(d)))
  {
    var request := Request(names.node(Document(d)), Outgoing, None, 1);
    forall id ensures Incident(edges, request, id) <==> id in LinkNames(names, ContainsLinks(d, args.chunks)) {
      DocumentEdges(names, args, edges, d, request, id);
    }
    assert IncidentEdges(edges, request) == OutEdges(edges, request.node);
    ContainsLinksSize(d, args.chunks);
    LinkNamesSize(names, ContainsLinks(d, args.chunks));
  }

  lemma BuiltChunkEdges(names: Names, args: Args, edges: Edges, d: nat, c: nat)
    requires Validated(args) && Distinct(names) && HoldsLinks(names, args, edges)
    requires d < args.documents && c < args.chunks
    ensures OutEdges(edges, names.node(Chunk(d, c))) == {names.link(Mentions(d, c))}
  {
    var request := Request(names.node(Chunk(d, c)), Outgoing, None, 1);
    forall id ensures Incident(edges, request, id) <==> id in LinkNames(names, {Mentions(d, c)}) {
      ChunkEdges(names, args, edges, d, c, request, id);
    }
    assert IncidentEdges(edges, request) == OutEdges(edges, request.node);
  }

  lemma BuiltEntityEdges(names: Names, args: Args, edges: Edges, e: nat)
    requires Validated(args) && Distinct(names) && HoldsLinks(names, args, edges) && e < args.entities
    ensures |EdgesAt(edges, names.node(Entity(e)))| == |ChunkNames(names, EntityLinks(args, e, args.documents))|
  {
    var request, links := Request(names.node(Entity(e)), Both, None, 1), EntityLinks(args, e, args.documents);
    forall id ensures Incident(edges, request, id) <==> id in LinkNames(names, links) {
      EntityEdges(names, args, edges, e, request, id);
    }
    assert IncidentEdges(edges, request) == EdgesAt(edges, request.node);
    assert EdgesAt(edges, request.node) == LinkNames(names, links);
    LinkNamesSize(names, links);
    ChunkNamesSize(names, links);
  }

  lemma BuiltFewEdges(names: Names, args: Args, edges: Edges, x: string)
    requires Validated(args) && Distinct(names) && HoldsLinks(names, args, edges)
    ensures |OutEdges(edges, x)| <= 256
  {
    if id :| id in OutEdges(edges, x) {
      var l := LinkOf(names, args, edges, id);
      match l {
        case Contains(d, c) => BuiltDocumentEdges(names, args, edges, d);
        case Mentions(d, c) => BuiltChunkEdges(names, args, edges, d, c);
      }
    }
  }

  lemma BuiltTwoHop(names: Names, args: Args, edges: Edges, d: nat)
    requires Validated(args) && Distinct(names) && HoldsLinks(names, args, edges) && d < args.documents
    ensures TwoHopTelling(names, args, edges, d)
  {
    forall e | e in OutEdges(edges, names.node(Document(d))) ensures OnwardFrom(edges, e) == 1 {
      var l := LinkOf(names, args, edges, e);
      BuiltChunkEdges(names, args, edges, l.document, l.chunk);
    }
    TwoHopRegular(names, args, edges, d);
  }

  /** The graph the builder writes is within every limit. */
  lemma BuiltIsTelling(names: Names, args: Args, isChunk: string -> bool, edges: Edges, d: nat, operation: nat)
    requires Validated(args) && Distinct(names) && HoldsLinks(names, args, edges) && d < args.documents
    ensures TellingFor(names, args, isChunk, edges, d, operation)
  {
    forall x ensures |OutEdges(edges, x)| <= 256 {
      BuiltFewEdges(names, args, edges, x);
    }
    match operation {
      case 0 =>
        BuiltDocumentEdges(names, args, edges, d);
        Counting.SubsetSize(ContainsOut(edges, names.node(Document(d))), OutEdges(edges, names.node(Document(d))));
      case 1 => BuiltTwoHop(names, args, edges, d);
      case 2 => FewIsTelling(edges, names.node(Document(d)), names.node(Entity(d % args.entities)), 2);
      case 3 => BuiltEntityEdges(names, args, edges, d % args.entities);
      case _ => FewIsTelling(edges, names.node(Document(d)), names.node(Document((d + 1) % args.documents)), 3);
    }
  }

  /** What is true of the graph the builder writes: everything, but for the negative path over a single document. */
  lemma BuiltTruth(
      names: Names, args: Args, isChunk: string -> bool, nodes: map<string, NodeKind>, edges: Edges,
      d: nat, operation: nat)
    requires Validated(args) && Distinct(names) && ChunkTest(names, isChunk) && d < args.documents
    requires HoldsGraph(names, args, nodes, edges)
    ensures TrueAnswer(names, args, isChunk, edges, d, operation) <==> operation < 4 || args.documents >= 2
  {
    var open := TruthfulIndexExists();
    BuiltIsTelling(names, args, isChunk, edges, d, operation);
    VerdictExactly(names, args, isChunk, edges, d, operation);
    AnswersAgree(names, args, isChunk, nodes, edges, open(edges), d, operation);
  }

  /** One query against whatever graph the store holds. */
  method AskAnyGraph(args: Args, index: Index, queryIndex: nat, ghost edges: Edges)
    returns (result: Result<bool, SearchError>)
    requires Validated(args) && Truthful(edges, index)
    ensures var names, d := NamesOf(args.workspace), (queryIndex / 5) % args.documents;
            TellingFor(names, args, IsChunkId, edges, d, queryIndex % 5) ==>
              result == Success(TrueAnswer(names, args, IsChunkId, edges, d, queryIndex % 5))
  {
    var names := NamesOf(args.workspace);
    ghost var d := (queryIndex / 5) % args.documents;
    NamesDistinct(args.workspace);
    ghost var ends := set id | id in edges :: edges[id].target;
    forall x, y | y in PathListing(index)(x) ensures y in ends {
      ListedTargets(edges, index, x);
    }
    result := KnownAnswer(names, args, IsChunkId, index, queryIndex, queryIndex % 5, ends);
    VerdictExactly(names, args, IsChunkId, edges, d, queryIndex % 5);
  }
}
