/**
 When the path verdicts are the truth about the edges.  The search lists up to
 256 edges of a node, and an index may list any 256 of them.
 */
module PathSoundness {
  import opened Wrappers
  import opened PathSearch
  import opened GraphIds
  import opened GraphStore
  import opened GraphOracle
  import opened ListingCuts
  import opened GraphSoundness
  import Counting

  /** Some edge leads from `x` to `y`. */
  ghost predicate Joined(edges: Edges, x: string, y: string) {
    exists e :: e in OutEdges(edges, x) && edges[e].target == y
  }

  /** `y` is at most `hops` edges ahead of `x`. */
  ghost predicate Ahead(edges: Edges, x: string, y: string, hops: nat)
    decreases hops
  {
    x == y || (hops > 0 && exists z :: Ahead(edges, x, z, hops - 1) && Joined(edges, z, y))
  }

  /** The edges out of `x` shown to the search. */
  ghost function ShownOut(index: Index, x: string): Ids {
    EdgesIn(index(Request(x, Outgoing, None, 256)))
  }

  /** The search lists the targets of a cut of the outgoing edges. */
  lemma ListedTargets(edges: Edges, index: Index, x: string)
    requires Truthful(edges, index)
    ensures IsCut(OutEdges(edges, x), ShownOut(index, x), 256)
    ensures forall y :: y in PathListing(index)(x) <==> exists e :: e in ShownOut(index, x) && edges[e].target == y
  {
    var request := Request(x, Outgoing, None, 256);
    var answer := index(request);
    assert IncidentEdges(edges, request) == OutEdges(edges, x);
    assert Lists(edges, request, answer);
    AnswerIsCut(edges, request, answer);
    forall y | y in PathListing(index)(x) ensures exists e :: e in ShownOut(index, x) && edges[e].target == y {
      var i :| 0 <= i < |answer| && answer[i].node == y;
      assert answer[i] in answer && answer[i].edge in ShownOut(index, x);
    }
    forall e | e in ShownOut(index, x) ensures edges[e].target in PathListing(index)(x) {
      var n :| n in answer && n.edge == e;
      var i :| 0 <= i < |answer| && answer[i] == n;
      assert NodesOfAnswer(answer)[i] == n.node;
    }
  }

  /** What the search can reach is ahead in the graph, whatever the index shows. */
  lemma {:induction false} ReachedIsAhead(edges: Edges, index: Index, x: string, y: string, hops: nat)
    requires Truthful(edges, index) && Reaches(PathListing(index), x, y, hops)
    ensures Ahead(edges, x, y, hops)
    decreases hops
  {
    if x != y {
      var z :| Reaches(PathListing(index), x, z, hops - 1) && y in PathListing(index)(z);
      ReachedIsAhead(edges, index, x, z, hops - 1);
      ListedTargets(edges, index, z);
      assert Joined(edges, z, y);
    }
  }

  /** However the listings are cut, `y` is reached from `x` within these hops: see `SureExactly`. */
  ghost predicate Sure(edges: Edges, x: string, y: string, hops: nat)
    decreases hops
  {
    || x == y
    || (hops > 0 && var unsure := set e | e in OutEdges(edges, x) && !Sure(edges, edges[e].target, y, hops - 1);
        unsure != OutEdges(edges, x) && |unsure| < 256)
  }

  /** The edges out of `x` after which `y` may be missed. */
  ghost function Unsure(edges: Edges, x: string, y: string, hops: nat): Ids {
    set e | e in OutEdges(edges, x) && !Sure(edges, edges[e].target, y, hops)
  }

  lemma SureStep(edges: Edges, x: string, y: string, hops: nat)
    ensures Sure(edges, x, y, hops) <==>
      x == y || (hops > 0 && Unsure(edges, x, y, hops - 1) != OutEdges(edges, x)
                 && |Unsure(edges, x, y, hops - 1)| < 256)
  {
    if hops > 0 {
      assert Unsure(edges, x, y, hops - 1) ==
             set e | e in OutEdges(edges, x) && !Sure(edges, edges[e].target, y, hops - 1);
    }
  }

  lemma {:induction false} SureMore(edges: Edges, x: string, y: string, hops: nat, more: nat)
    requires Sure(edges, x, y, hops) && hops <= more
    ensures Sure(edges, x, y, more)
    decreases hops
  {
    SureStep(edges, x, y, hops);
    SureStep(edges, x, y, more);
    if x != y {
      forall e | e in OutEdges(edges, x) && Sure(edges, edges[e].target, y, hops - 1)
        ensures Sure(edges, edges[e].target, y, more - 1)
      {
        SureMore(edges, edges[e].target, y, hops - 1, more - 1);
      }
      Counting.SubsetSize(Unsure(edges, x, y, more - 1), Unsure(edges, x, y, hops - 1));
      Counting.SubsetSize(Unsure(edges, x, y, hops - 1), OutEdges(edges, x));
    }
  }

  /** A step followed by a path. */
  lemma {:induction false} ReachesAfter(out: Listing, x: string, z: string, y: string, hops: nat)
    requires z in out(x) && Reaches(out, z, y, hops)
    ensures Reaches(out, x, y, hops + 1)
    decreases hops
  {
    if z == y {
      assert Reaches(out, x, x, hops);
    } else {
      var w :| Reaches(out, z, w, hops - 1) && y in out(w);
      ReachesAfter(out, x, z, w, hops - 1);
    }
  }

  /** A path begins with a step. */
  lemma {:induction false} ReachesFirst(out: Listing, x: string, y: string, hops: nat) returns (z: string)
    requires Reaches(out, x, y, hops) && x != y
    ensures hops > 0 && z in out(x) && Reaches(out, z, y, hops - 1)
    decreases hops
  {
    var w :| Reaches(out, x, w, hops - 1) && y in out(w);
    if w == x {
      z := y;
    } else {
      z := ReachesFirst(out, x, w, hops - 1);
    }
  }

  /** A sure path is reached with every truthful index. */
  lemma {:induction false} SureReached(edges: Edges, index: Index, x: string, y: string, hops: nat)
    requires Truthful(edges, index) && Sure(edges, x, y, hops)
    ensures Reaches(PathListing(index), x, y, hops)
    decreases hops
  {
    SureStep(edges, x, y, hops);
    if x != y {
      var unsure, cut := Unsure(edges, x, y, hops - 1), ShownOut(index, x);
      ListedTargets(edges, index, x);
      if cut <= unsure {
        Counting.SubsetSize(cut, unsure);
        Counting.SubsetSize(unsure, OutEdges(edges, x));
        assert false;
      }
      var e :| e in cut && e !in unsure;
      SureReached(edges, index, edges[e].target, y, hops - 1);
      ReachesAfter(PathListing(index), x, edges[e].target, y, hops - 1);
    }
  }

  /** The most hops, up to a bound, within which `y` may be missed. */
  ghost function Doubt(edges: Edges, x: string, y: string, bound: nat): nat {
    if bound == 0 || !Sure(edges, x, y, bound) then bound else Doubt(edges, x, y, bound - 1)
  }

  lemma {:induction false} DoubtIsMost(edges: Edges, x: string, y: string, bound: nat, h: nat)
    requires h <= bound && !Sure(edges, x, y, h)
    ensures h <= Doubt(edges, x, y, bound) && !Sure(edges, x, y, Doubt(edges, x, y, bound))
  {
    if bound > 0 && Sure(edges, x, y, bound) {
      DoubtIsMost(edges, x, y, bound - 1, h);
    }
  }

  /** The edges an index shows first to hide `y`. */
  ghost function Hiding(edges: Edges, x: string, y: string, bound: nat): Ids {
    var k := Doubt(edges, x, y, bound);
    if k == 0 then {} else Unsure(edges, x, y, k - 1)
  }

  /** A truthful index that shows as few sure edges as it can. */
  lemma HidingIndex(edges: Edges, y: string, bound: nat) returns (index: Index)
    ensures Truthful(edges, index)
    ensures forall x, h: nat, e :: 0 < h <= bound && !Sure(edges, x, y, h) && e in ShownOut(index, x) ==>
      e in Unsure(edges, x, y, h - 1)
  {
    index := ShowingIndex(edges, (r: Request) => Preferring(edges, r, Hiding(edges, r.node, y, bound)));
    forall x, h: nat, e | 0 < h <= bound && !Sure(edges, x, y, h) && e in ShownOut(index, x)
      ensures e in Unsure(edges, x, y, h - 1)
    {
      PreferredOut(edges, x, Hiding(edges, x, y, bound));
      DoubtIsMost(edges, x, y, bound, h);
      HiddenFrom(edges, x, y, Doubt(edges, x, y, bound), h, e, ShownOut(index, x));
    }
  }

  /** When the preferred edges fill the listing, or are all there are, nothing else is shown. */
  lemma NothingElse(all: Ids, preferred: Ids, cut: Ids, limit: nat)
    requires IsCut(all, cut, limit) && preferred <= all && (preferred <= cut || cut <= preferred)
    requires preferred == all || |preferred| >= limit
    ensures cut <= preferred
  {
    if preferred <= cut {
      Counting.SubsetSize(preferred, cut);
    }
  }

  lemma PreferredOut(edges: Edges, x: string, preferred: Ids)
    requires preferred <= OutEdges(edges, x)
    ensures var cut := Preferring(edges, Request(x, Outgoing, None, 256), preferred);
            IsCut(OutEdges(edges, x), cut, 256) && (preferred <= cut || cut <= preferred)
  {
    assert IncidentEdges(edges, Request(x, Outgoing, None, 256)) == OutEdges(edges, x);
    assert preferred * OutEdges(edges, x) == preferred;
  }

  lemma HiddenFrom(edges: Edges, x: string, y: string, k: nat, h: nat, e: string, cut: Ids)
    requires 0 < h <= k && !Sure(edges, x, y, k) && e in cut && IsCut(OutEdges(edges, x), cut, 256)
    requires Unsure(edges, x, y, k - 1) <= cut || cut <= Unsure(edges, x, y, k - 1)
    ensures e in Unsure(edges, x, y, h - 1)
  {
    SureStep(edges, x, y, k);
    NothingElse(OutEdges(edges, x), Unsure(edges, x, y, k - 1), cut, 256);
    StillUnsure(edges, edges[e].target, y, h - 1, k - 1);
  }

  lemma StillUnsure(edges: Edges, x: string, y: string, fewer: nat, hops: nat)
    requires !Sure(edges, x, y, hops) && fewer <= hops
    ensures !Sure(edges, x, y, fewer)
  {
    if Sure(edges, x, y, fewer) {
      SureMore(edges, x, y, fewer, hops);
    }
  }

  lemma {:induction false} HiddenNotReached(
      edges: Edges, index: Index, x: string, y: string, hops: nat, bound: nat)
    requires Truthful(edges, index) && hops <= bound
    requires forall x, h: nat, e :: 0 < h <= bound && !Sure(edges, x, y, h) && e in ShownOut(index, x) ==>
      e in Unsure(edges, x, y, h - 1)
    requires Reaches(PathListing(index), x, y, hops)
    ensures Sure(edges, x, y, hops)
    decreases hops
  {
    if x != y && !Sure(edges, x, y, hops) {
      var z := ReachesFirst(PathListing(index), x, y, hops);
      ListedTargets(edges, index, x);
      HiddenNotReached(edges, index, z, y, hops - 1, bound);
      assert false;
    }
  }

  /** Every truthful index lets the search reach `y` if and only if the path is sure. */
  lemma SureExactly(edges: Edges, x: string, y: string, hops: nat)
    ensures (forall index: Index :: Truthful(edges, index) ==> Reaches(PathListing(index), x, y, hops)) <==>
      Sure(edges, x, y, hops)
  {
    if Sure(edges, x, y, hops) {
      forall index: Index | Truthful(edges, index) ensures Reaches(PathListing(index), x, y, hops) {
        SureReached(edges, index, x, y, hops);
      }
    } else {
      var index := HidingIndex(edges, y, hops);
      if Reaches(PathListing(index), x, y, hops) {
        HiddenNotReached(edges, index, x, y, hops, hops);
      }
    }
  }

  /** If there is a path at all, no cut of the listings can hide every one. */
  ghost predicate PathTelling(edges: Edges, x: string, y: string, hops: nat) {
    Ahead(edges, x, y, hops) ==> Sure(edges, x, y, hops)
  }

  /** With every truthful index the search decides whether `y` is ahead, if and only if the edges are telling. */
  lemma PathSoundExactly(edges: Edges, x: string, y: string, hops: nat)
    ensures (forall index: Index :: Truthful(edges, index) ==>
              (Reaches(PathListing(index), x, y, hops) <==> Ahead(edges, x, y, hops))) <==>
            PathTelling(edges, x, y, hops)
  {
    SureExactly(edges, x, y, hops);
    forall index: Index | Truthful(edges, index) && Reaches(PathListing(index), x, y, hops)
      ensures Ahead(edges, x, y, hops)
    {
      ReachedIsAhead(edges, index, x, y, hops);
    }
  }

  /** Where no node has more than 256 outgoing edges, the search is right about every pair of nodes. */
  lemma {:induction false} FewIsTelling(edges: Edges, x: string, y: string, hops: nat)
    requires forall z :: |OutEdges(edges, z)| <= 256
    ensures PathTelling(edges, x, y, hops)
  {
    forall index: Index | Truthful(edges, index) && Ahead(edges, x, y, hops)
      ensures Reaches(PathListing(index), x, y, hops)
    {
      AheadReached(edges, index, x, y, hops);
    }
    SureExactly(edges, x, y, hops);
  }

  lemma {:induction false} AheadReached(edges: Edges, index: Index, x: string, y: string, hops: nat)
    requires Truthful(edges, index) && Ahead(edges, x, y, hops)
    requires forall z :: |OutEdges(edges, z)| <= 256
    ensures Reaches(PathListing(index), x, y, hops)
    decreases hops
  {
    if x != y {
      var z :| Ahead(edges, x, z, hops - 1) && Joined(edges, z, y);
      AheadReached(edges, index, x, z, hops - 1);
      ListedTargets(edges, index, z);
      Counting.SubsetSize(ShownOut(index, z), OutEdges(edges, z));
      assert y in PathListing(index)(z);
    }
  }
}
