/**
 When the two-hop verdict is the truth about the edges.  The first listing is
 cut at one more than the chunks of a document and the second at two, so what
 counts is how many edges each of them can hide.
 */
module TwoHopSoundness {
  import opened Wrappers
  import opened GraphIds
  import opened GraphStore
  import opened GraphOracle
  import opened ListingCuts
  import opened GraphSoundness
  import Counting

  ghost function Total(ids: Ids, weight: string -> nat): nat {
    if ids == {} then 0
    else
      var e :| e in ids;
      weight(e) + Total(ids - {e}, weight)
  }

  lemma {:induction false} TotalSplit(ids: Ids, weight: string -> nat, e: string)
    requires e in ids
    ensures Total(ids, weight) == weight(e) + Total(ids - {e}, weight)
  {
    var f :| f in ids && Total(ids, weight) == weight(f) + Total(ids - {f}, weight);
    if e != f {
      TotalSplit(ids - {f}, weight, e);
      TotalSplit(ids - {e}, weight, f);
      assert ids - {f} - {e} == ids - {e} - {f};
    }
  }

  lemma {:induction false} TotalSubset(some: Ids, all: Ids, weight: string -> nat)
    requires some <= all
    ensures Total(some, weight) <= Total(all, weight)
  {
    if some != {} {
      var e :| e in some;
      TotalSplit(some, weight, e);
      TotalSplit(all, weight, e);
      TotalSubset(some - {e}, all - {e}, weight);
    }
  }

  /** Smaller weights give a smaller total, strictly if one of them is strictly smaller. */
  lemma {:induction false} TotalBelow(ids: Ids, light: string -> nat, heavy: string -> nat)
    requires forall e :: e in ids ==> light(e) <= heavy(e)
    ensures Total(ids, light) <= Total(ids, heavy)
    ensures Total(ids, light) == Total(ids, heavy) <==> forall e :: e in ids ==> light(e) == heavy(e)
  {
    if ids != {} {
      var e :| e in ids;
      TotalSplit(ids, light, e);
      TotalSplit(ids, heavy, e);
      TotalBelow(ids - {e}, light, heavy);
    }
  }

  lemma {:induction false} TotalAtLeast(ids: Ids, weight: string -> nat)
    requires forall e :: e in ids ==> weight(e) >= 1
    ensures Total(ids, weight) >= |ids|
  {
    if ids != {} {
      var e :| e in ids;
      TotalSplit(ids, weight, e);
      TotalAtLeast(ids - {e}, weight);
    }
  }

  /** How many edges continue an edge. */
  ghost function OnwardFrom(edges: Edges, id: string): nat {
    if id in edges then |OutEdges(edges, edges[id].target)| else 0
  }

  /** How many of them a listing of two shows. */
  ghost function SeenFrom(edges: Edges, id: string): nat {
    if OnwardFrom(edges, id) <= 2 then OnwardFrom(edges, id) else 2
  }

  ghost function Onward(edges: Edges): string -> nat {
    (id: string) => OnwardFrom(edges, id)
  }

  ghost function Seen(edges: Edges): string -> nat {
    (id: string) => SeenFrom(edges, id)
  }

  /** The edges out of `x` that lead to `goal`. */
  ghost function Towards(edges: Edges, x: string, goal: string): Ids {
    set id | id in OutEdges(edges, x) && edges[id].target == goal
  }

  /** A listing of two can show nothing but the goal after this edge. */
  ghost predicate Agrees(edges: Edges, e: string, goal: string) {
    e in edges && |Towards(edges, edges[e].target, goal)| >= SeenFrom(edges, e)
  }

  /** Every two-hop path out of the document ends at its entity, and there are as many as it has chunks. */
  ghost predicate TwoHopTruth(names: Names, args: Args, edges: Edges, d: nat)
    requires args.entities > 0
  {
    var first, goal := OutEdges(edges, names.node(Document(d))), names.node(Entity(d % args.entities));
    && (forall e, f :: e in first && f in OutEdges(edges, edges[e].target) ==> edges[f].target == goal)
    && Total(first, Onward(edges)) == args.chunks
  }

  /** These edges can all agree, and after them as many onward edges are shown as there are chunks. */
  ghost predicate LooksRight(edges: Edges, cut: Ids, goal: string, chunks: nat) {
    (forall e :: e in cut ==> Agrees(edges, e, goal)) && Total(cut, Seen(edges)) == chunks
  }

  /** Some cut of the edges out of the document looks right. */
  ghost predicate Passable(names: Names, args: Args, edges: Edges, d: nat)
    requires args.entities > 0
  {
    var first, goal := OutEdges(edges, names.node(Document(d))), names.node(Entity(d % args.entities));
    exists cut :: IsCut(first, cut, args.chunks + 1) && LooksRight(edges, cut, goal, args.chunks)
  }

  ghost predicate TwoHopTelling(names: Names, args: Args, edges: Edges, d: nat)
    requires args.entities > 0
  {
    var first := OutEdges(edges, names.node(Document(d)));
    if TwoHopTruth(names, args, edges, d) then
      |first| <= args.chunks + 1 && forall e :: e in first ==> OnwardFrom(edges, e) <= 2
    else !Passable(names, args, edges, d)
  }

  /** What a truthful index shows after one edge. */
  ghost function After(index: Index, edges: Edges, e: string): seq<Neighbor>
    requires e in edges
  {
    index(Request(edges[e].target, Outgoing, None, 2))
  }

  lemma AfterShows(edges: Edges, index: Index, e: string)
    requires Truthful(edges, index) && e in edges
    ensures |After(index, edges, e)| == SeenFrom(edges, e)
    ensures IsCut(OutEdges(edges, edges[e].target), EdgesIn(After(index, edges, e)), 2)
    ensures forall n :: n in After(index, edges, e) ==> n.edge in edges && n.node == edges[n.edge].target
  {
    var request := Request(edges[e].target, Outgoing, None, 2);
    assert IncidentEdges(edges, request) == OutEdges(edges, edges[e].target);
    assert Lists(edges, request, index(request));
    AnswerIsCut(edges, request, index(request));
    forall n | n in index(request) ensures n.edge in edges && n.node == edges[n.edge].target {
      assert n.edge in EdgesIn(index(request));
    }
  }

  ghost predicate AllShow(answer: seq<Neighbor>, goal: string) {
    forall i :: 0 <= i < |answer| ==> answer[i].node == goal
  }

  /** The neighbours are shown with their edges, each once. */
  ghost predicate ShowsEdges(edges: Edges, first: seq<Neighbor>) {
    && (forall i :: 0 <= i < |first| ==> first[i].edge in edges && first[i].node == edges[first[i].edge].target)
    && (forall i, j :: 0 <= i < j < |first| ==> first[i].edge != first[j].edge)
  }

  /** How many ends are found through the first `n` first hops. */
  lemma {:induction false} HopsCounted(edges: Edges, index: Index, first: seq<Neighbor>, n: nat)
    requires Truthful(edges, index) && n <= |first| && ShowsEdges(edges, first)
    ensures |HopEnds(index, first, n, 2)| == Total(EdgesIn(first[..n]), Seen(edges))
  {
    if n == 0 {
      assert EdgesIn(first[..0]) == {};
    } else {
      var e := first[n - 1].edge;
      HopsCounted(edges, index, first, n - 1);
      AfterShows(edges, index, e);
      LastEdge(first, n);
      TotalSplit(EdgesIn(first[..n]), Seen(edges), e);
    }
  }

  ghost predicate OnlyGoal(ends: seq<string>, goal: string) {
    forall i :: 0 <= i < |ends| ==> ends[i] == goal
  }

  /** When all those ends are the goal. */
  lemma {:induction false} HopsJudged(edges: Edges, index: Index, first: seq<Neighbor>, n: nat, goal: string)
    requires n <= |first| && ShowsEdges(edges, first)
    ensures OnlyGoal(HopEnds(index, first, n, 2), goal) <==>
      forall m :: 0 <= m < n ==> AllShow(After(index, edges, first[m].edge), goal)
  {
    if n > 0 {
      HopsJudged(edges, index, first, n - 1, goal);
      HopsJoin(HopEnds(index, first, n - 1, 2), After(index, edges, first[n - 1].edge), goal);
    }
  }

  lemma HopsJoin(ends: seq<string>, answer: seq<Neighbor>, goal: string)
    ensures OnlyGoal(ends + NodesOfAnswer(answer), goal) <==> OnlyGoal(ends, goal) && AllShow(answer, goal)
  {
    var all := ends + NodesOfAnswer(answer);
    if OnlyGoal(all, goal) {
      forall i | 0 <= i < |ends| ensures ends[i] == goal {
        assert all[i] == ends[i];
      }
      forall i | 0 <= i < |answer| ensures answer[i].node == goal {
        assert all[|ends| + i] == answer[i].node;
      }
    }
  }

  /** What is shown first is a cut of the edges out of the node. */
  lemma FirstShown(edges: Edges, index: Index, x: string, limit: nat)
    requires Truthful(edges, index)
    ensures var first := index(Request(x, Outgoing, None, limit));
            IsCut(OutEdges(edges, x), EdgesIn(first), limit) && ShowsEdges(edges, first)
  {
    var request := Request(x, Outgoing, None, limit);
    assert IncidentEdges(edges, request) == OutEdges(edges, x);
    var first := index(request);
    assert Lists(edges, request, first);
    AnswerIsCut(edges, request, first);
    forall i | 0 <= i < |first| ensures first[i].edge in edges && first[i].node == edges[first[i].edge].target {
      assert first[i] in first && first[i].edge in EdgesIn(first);
    }
  }

  /** The ends are the goal `k` times exactly when as many are shown and each edge shows nothing else. */
  lemma EndsJudged(edges: Edges, index: Index, first: seq<Neighbor>, goal: string, k: nat)
    requires Truthful(edges, index) && ShowsEdges(edges, first)
    ensures HopEnds(index, first, |first|, 2) == seq(k, _ => goal) <==>
      Total(EdgesIn(first), Seen(edges)) == k && EachShows(edges, index, EdgesIn(first), goal)
  {
    HopsCounted(edges, index, first, |first|);
    HopsJudged(edges, index, first, |first|, goal);
    assert first[..|first|] == first;
    RightByEnds(HopEnds(index, first, |first|, 2), k, goal);
    EachEdgeShown(index, edges, first, goal);
  }

  /** After each of these edges nothing but the goal is shown. */
  ghost predicate EachShows(edges: Edges, index: Index, ids: Ids, goal: string) {
    forall e :: e in ids ==> e in edges && AllShow(After(index, edges, e), goal)
  }

  /** The two-hop verdict, in terms of the cut shown first and what is shown after each of its edges. */
  lemma TwoHopJudged(names: Names, args: Args, edges: Edges, index: Index, d: nat)
    requires args.entities > 0 && Truthful(edges, index)
    ensures var x, goal := names.node(Document(d)), names.node(Entity(d % args.entities));
            var cut := EdgesIn(index(Request(x, Outgoing, None, args.chunks + 1)));
            && IsCut(OutEdges(edges, x), cut, args.chunks + 1)
            && (TwoHopRight(names, args, index, d) <==>
                  Total(cut, Seen(edges)) == args.chunks && EachShows(edges, index, cut, goal))
  {
    var x, goal := names.node(Document(d)), names.node(Entity(d % args.entities));
    var first := index(Request(x, Outgoing, None, args.chunks + 1));
    FirstShown(edges, index, x, args.chunks + 1);
    EndsJudged(edges, index, first, goal, args.chunks);
  }

  lemma RightByEnds(ends: seq<string>, k: nat, goal: string)
    ensures ends == seq(k, _ => goal) <==> |ends| == k && OnlyGoal(ends, goal)
  {
  }

  lemma EachEdgeShown(index: Index, edges: Edges, first: seq<Neighbor>, goal: string)
    requires ShowsEdges(edges, first)
    ensures (forall m :: 0 <= m < |first| ==> AllShow(After(index, edges, first[m].edge), goal)) <==>
      EachShows(edges, index, EdgesIn(first), goal)
  {
    if forall m :: 0 <= m < |first| ==> AllShow(After(index, edges, first[m].edge), goal) {
      forall e | e in EdgesIn(first) ensures e in edges && AllShow(After(index, edges, e), goal) {
        var n :| n in first && n.edge == e;
        var m :| 0 <= m < |first| && first[m] == n;
      }
    } else {
      var m :| 0 <= m < |first| && !AllShow(After(index, edges, first[m].edge), goal);
      assert first[m] in first && first[m].edge in EdgesIn(first);
    }
  }

  /** If only the goal is shown after an edge, enough of its onward edges lead there. */
  lemma ShownAgrees(edges: Edges, index: Index, e: string, goal: string)
    requires Truthful(edges, index) && e in edges && AllShow(After(index, edges, e), goal)
    ensures Agrees(edges, e, goal)
  {
    var answer := After(index, edges, e);
    AfterShows(edges, index, e);
    forall f | f in EdgesIn(answer) ensures f in Towards(edges, edges[e].target, goal) {
      var n :| n in answer && n.edge == f;
      var i :| 0 <= i < |answer| && answer[i] == n;
    }
    EdgesInSizeOf(edges, index, e);
    Counting.SubsetSize(EdgesIn(answer), Towards(edges, edges[e].target, goal));
  }

  lemma EdgesInSizeOf(edges: Edges, index: Index, e: string)
    requires Truthful(edges, index) && e in edges
    ensures |EdgesIn(After(index, edges, e))| == SeenFrom(edges, e)
  {
    AfterShows(edges, index, e);
  }

  /** A true graph within the limits passes with every truthful index. */
  lemma TruePasses(names: Names, args: Args, edges: Edges, index: Index, d: nat)
    requires args.entities > 0 && Truthful(edges, index)
    requires TwoHopTruth(names, args, edges, d) && TwoHopTelling(names, args, edges, d)
    ensures TwoHopRight(names, args, index, d)
  {
    var x, goal := names.node(Document(d)), names.node(Entity(d % args.entities));
    var all := OutEdges(edges, x);
    var cut := EdgesIn(index(Request(x, Outgoing, None, args.chunks + 1)));
    TwoHopJudged(names, args, edges, index, d);
    Counting.SubsetSize(cut, all);
    assert cut == all;
    TotalBelow(all, Seen(edges), Onward(edges));
    forall e | e in cut ensures AllShow(After(index, edges, e), goal) {
      AfterShows(edges, index, e);
      var answer := After(index, edges, e);
      forall i | 0 <= i < |answer| ensures answer[i].node == goal {
        assert answer[i] in answer && answer[i].edge in EdgesIn(answer);
      }
    }
  }

  /** With a cut that cannot pass, no truthful index passes. */
  lemma FalseFails(names: Names, args: Args, edges: Edges, index: Index, d: nat)
    requires args.entities > 0 && Truthful(edges, index) && TwoHopRight(names, args, index, d)
    ensures Passable(names, args, edges, d)
  {
    var x, goal := names.node(Document(d)), names.node(Entity(d % args.entities));
    var cut := EdgesIn(index(Request(x, Outgoing, None, args.chunks + 1)));
    TwoHopJudged(names, args, edges, index, d);
    forall e | e in cut ensures Agrees(edges, e, goal) {
      ShownAgrees(edges, index, e, goal);
    }
    assert LooksRight(edges, cut, goal, args.chunks);
  }

  /** The two-hop verdict is the truth about the edges, for every truthful index, if the edges are telling. */
  lemma TwoHopSound(names: Names, args: Args, edges: Edges, index: Index, d: nat)
    requires args.entities > 0 && Truthful(edges, index) && TwoHopTelling(names, args, edges, d)
    ensures TwoHopRight(names, args, index, d) <==> TwoHopTruth(names, args, edges, d)
  {
    if TwoHopTruth(names, args, edges, d) {
      TruePasses(names, args, edges, index, d);
    } else if TwoHopRight(names, args, index, d) {
      FalseFails(names, args, edges, index, d);
    }
  }

  /** A true graph beyond the limits is refused by some truthful index. */
  lemma TrueRefused(names: Names, args: Args, edges: Edges, d: nat) returns (index: Index)
    requires args.entities > 0 && args.chunks > 0
    requires TwoHopTruth(names, args, edges, d) && !TwoHopTelling(names, args, edges, d)
    ensures Truthful(edges, index) && !TwoHopRight(names, args, index, d)
  {
    var x := names.node(Document(d));
    var all, limit := OutEdges(edges, x), args.chunks + 1;
    var request := Request(x, Outgoing, None, limit);
    assert IncidentEdges(edges, request) == all;
    var cut: Ids;
    if |all| <= limit {
      cut := all;
      TotalBelow(all, Seen(edges), Onward(edges));
    } else {
      var e := SomeOnward(edges, all);
      cut := Extend({}, all - {e}, limit);
      TotalBelow(cut, Seen(edges), Onward(edges));
      TotalSubset(cut, all - {e}, Onward(edges));
      TotalSplit(all, Onward(edges), e);
    }
    index := ShowingOnce(edges, request, cut);
    TwoHopJudged(names, args, edges, index, d);
  }

  lemma {:induction false} SomeOnward(edges: Edges, ids: Ids) returns (e: string)
    requires Total(ids, Onward(edges)) > 0
    ensures e in ids && OnwardFrom(edges, e) > 0
  {
    e :| e in ids;
    if OnwardFrom(edges, e) == 0 {
      TotalSplit(ids, Onward(edges), e);
      e := SomeOnward(edges, ids - {e});
    }
  }

  /** A truthful index that shows a given cut first, and prefers the goal everywhere else. */
  lemma FavouringIndex(edges: Edges, first: Request, cut: Ids, goal: string) returns (index: Index)
    requires IsCut(IncidentEdges(edges, first), cut, first.limit)
    ensures Truthful(edges, index) && EdgesIn(index(first)) == cut
    ensures forall r :: r != first ==> EdgesIn(index(r)) == Preferring(edges, r, Towards(edges, r.node, goal))
  {
    index := ShowingIndex(
      edges, (r: Request) => if r == first then cut else Preferring(edges, r, Towards(edges, r.node, goal)));
  }

  /** With one chunk, a cut that looks right has no edge from the document to itself. */
  lemma NoLoopShown(edges: Edges, x: string, goal: string, cut: Ids, e: string)
    requires x != goal && e in cut && cut <= OutEdges(edges, x) && LooksRight(edges, cut, goal, 1)
    ensures edges[e].target != x
  {
    TotalSplit(cut, Seen(edges), e);
    if edges[e].target == x {
      assert Seen(edges)(e) == SeenFrom(edges, e);
      Counting.SubsetSize({e}, OutEdges(edges, x));
      Counting.SubsetSize(Towards(edges, x, goal), OutEdges(edges, x));
    }
  }

  /** A false graph that can pass does pass with some truthful index. */
  lemma FalsePasses(names: Names, args: Args, edges: Edges, d: nat) returns (index: Index)
    requires args.entities > 0 && Passable(names, args, edges, d)
    requires Distinct(names)
    ensures Truthful(edges, index) && TwoHopRight(names, args, index, d)
  {
    var x, goal := names.node(Document(d)), names.node(Entity(d % args.entities));
    var first := Request(x, Outgoing, None, args.chunks + 1);
    var cut :| IsCut(OutEdges(edges, x), cut, args.chunks + 1) && LooksRight(edges, cut, goal, args.chunks);
    assert IncidentEdges(edges, first) == OutEdges(edges, x);
    index := FavouringIndex(edges, first, cut, goal);
    TwoHopJudged(names, args, edges, index, d);
    forall e | e in cut ensures e in edges && AllShow(After(index, edges, e), goal) {
      if args.chunks == 1 {
        NoLoopShown(edges, x, goal, cut, e);
      }
      assert Request(edges[e].target, Outgoing, None, 2) != first;
      AgreeingShown(edges, index, e, goal);
    }
  }

  lemma AgreeingShown(edges: Edges, index: Index, e: string, goal: string)
    requires Truthful(edges, index) && Agrees(edges, e, goal)
    requires var r := Request(edges[e].target, Outgoing, None, 2);
             EdgesIn(index(r)) == Preferring(edges, r, Towards(edges, r.node, goal))
    ensures AllShow(After(index, edges, e), goal)
  {
    var r := Request(edges[e].target, Outgoing, None, 2);
    var answer, wanted := index(r), Towards(edges, r.node, goal);
    AfterShows(edges, index, e);
    EdgesInSizeOf(edges, index, e);
    assert IncidentEdges(edges, r) == OutEdges(edges, r.node);
    assert wanted * IncidentEdges(edges, r) == wanted;
    if wanted <= EdgesIn(answer) {
      Counting.SubsetSize(wanted, EdgesIn(answer));
    }
    assert EdgesIn(answer) <= wanted;
    forall i | 0 <= i < |answer| ensures answer[i].node == goal {
      assert answer[i] in answer && answer[i].edge in EdgesIn(answer);
    }
  }

  /**
   The two-hop verdict is the truth for every truthful index if and only if the
   edges are telling.
   */
  lemma TwoHopSoundExactly(names: Names, args: Args, edges: Edges, d: nat)
    requires args.entities > 0 && args.chunks > 0 && Distinct(names)
    ensures (forall index: Index :: Truthful(edges, index) ==>
              (TwoHopRight(names, args, index, d) <==> TwoHopTruth(names, args, edges, d))) <==>
            TwoHopTelling(names, args, edges, d)
  {
    if TwoHopTelling(names, args, edges, d) {
      forall index: Index | Truthful(edges, index)
        ensures TwoHopRight(names, args, index, d) <==> TwoHopTruth(names, args, edges, d)
      {
        TwoHopSound(names, args, edges, index, d);
      }
    } else if TwoHopTruth(names, args, edges, d) {
      var index := TrueRefused(names, args, edges, d);
    } else {
      var index := FalsePasses(names, args, edges, d);
    }
  }

  /** Where nothing is hidden, an edge that can agree leads on to nothing but the goal. */
  lemma AgreesWhole(edges: Edges, e: string, goal: string)
    requires Agrees(edges, e, goal) && OnwardFrom(edges, e) <= 2
    ensures forall f :: f in OutEdges(edges, edges[e].target) ==> edges[f].target == goal
  {
    var all, some := OutEdges(edges, edges[e].target), Towards(edges, edges[e].target, goal);
    Counting.SubsetSize(some, all);
    forall f | f in all ensures edges[f].target == goal {
      assert f in some;
    }
  }

  /** When every edge out of the document is continued by one or two edges, the verdict is always the truth. */
  lemma TwoHopRegular(names: Names, args: Args, edges: Edges, d: nat)
    requires args.entities > 0
    requires forall e :: e in OutEdges(edges, names.node(Document(d))) ==> 1 <= OnwardFrom(edges, e) <= 2
    ensures TwoHopTelling(names, args, edges, d)
  {
    var x, goal := names.node(Document(d)), names.node(Entity(d % args.entities));
    var all, limit := OutEdges(edges, x), args.chunks + 1;
    TotalAtLeast(all, Onward(edges));
    if Passable(names, args, edges, d) {
      var cut :| IsCut(all, cut, limit) && LooksRight(edges, cut, goal, args.chunks);
      TotalAtLeast(cut, Seen(edges));
      Counting.SubsetSize(cut, all);
      assert cut == all;
      TotalBelow(all, Seen(edges), Onward(edges));
      forall e, f | e in all && f in OutEdges(edges, edges[e].target) ensures edges[f].target == goal {
        AgreesWhole(edges, e, goal);
      }
    }
  }
}
