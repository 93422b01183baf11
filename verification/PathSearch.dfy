/**
 The depth-bounded breadth-first path search of the graph index
 (crates/graph/src/native.rs), over any listing of outgoing neighbours.
 */
module PathSearch {
  import opened Wrappers

  const MAX_PATH_DEPTH: nat := 3

  datatype SearchError = DepthCapped

  type Listing = string -> seq<string>

  datatype Item = Item(node: string, depth: nat)

  /** `to` is at most `hops` edges away from `origin`. */
  ghost predicate Reaches(out: Listing, origin: string, to: string, hops: nat)
    decreases hops
  {
    || origin == to
    || (hops > 0 && exists x :: Reaches(out, origin, x, hops - 1) && to in out(x))
  }

  lemma {:induction false} ReachesMore(out: Listing, origin: string, to: string, hops: nat, more: nat)
    requires Reaches(out, origin, to, hops) && hops <= more
    ensures Reaches(out, origin, to, more)
    decreases hops
  {
    if origin != to {
      var x :| Reaches(out, origin, x, hops - 1) && to in out(x);
      ReachesMore(out, origin, x, hops - 1, more - 1);
    }
  }

  /** Every neighbour of `x` has been seen, at most one level further out. */
  ghost predicate Expanded(out: Listing, dist: map<string, nat>, x: string)
    requires x in dist
  {
    forall y :: y in out(x) ==> y in dist && dist[y] <= dist[x] + 1
  }

  /**
   The state between two dequeues.  `dist` gives each visited node the depth it
   was queued with; `done` are the nodes already dequeued; the queue holds the
   rest, first those of the current level, then those one level further.
   */
  ghost predicate Seen(out: Listing, origin: string, cap: nat, dist: map<string, nat>) {
    && origin in dist && dist[origin] == 0
    && forall x :: x in dist ==> dist[x] <= cap && Reaches(out, origin, x, dist[x])
  }

  ghost predicate Queued(dist: map<string, nat>, queue: seq<Item>, done: set<string>, level: nat) {
    && (forall i :: 0 <= i < |queue| ==>
      queue[i].node in dist && dist[queue[i].node] == queue[i].depth && level <= queue[i].depth <= level + 1)
    && (forall i, j :: 0 <= i < j < |queue| ==> queue[i].depth <= queue[j].depth)
    && (forall x :: x in dist ==> x in done || exists d :: Item(x, d) in queue)
    && (forall x :: x in done ==> x in dist && dist[x] <= level)
  }

  ghost predicate AllExpanded(out: Listing, cap: nat, dist: map<string, nat>, done: set<string>) {
    forall x :: x in done && x in dist && dist[x] < cap ==> Expanded(out, dist, x)
  }

  lemma {:induction false} AllFound(
        out: Listing, origin: string, cap: nat, dist: map<string, nat>, y: string, hops: nat)
    requires Seen(out, origin, cap, dist) && AllExpanded(out, cap, dist, dist.Keys)
    requires hops <= cap && Reaches(out, origin, y, hops)
    ensures y in dist && dist[y] <= hops
    decreases hops
  {
    if y != origin {
      var x :| Reaches(out, origin, x, hops - 1) && y in out(x);
      AllFound(out, origin, cap, dist, x, hops - 1);
      assert Expanded(out, dist, x);
    }
  }

  ghost predicate Extends(dist: map<string, nat>, dist': map<string, nat>) {
    forall x :: x in dist ==> x in dist' && dist'[x] == dist[x]
  }

  ghost predicate Covered(neighbors: seq<string>, k: nat, dist: map<string, nat>, bound: nat)
    requires k <= |neighbors|
  {
    forall i :: 0 <= i < k ==> neighbors[i] in dist && dist[neighbors[i]] <= bound
  }

  /** One more neighbour is covered, whether it was seen before or is seen now. */
  lemma Covering(
        dist: map<string, nat>, queue: seq<Item>, done: set<string>, neighbors: seq<string>, k: nat, depth: nat)
    requires k < |neighbors| && Covered(neighbors, k, dist, depth + 1) && Queued(dist, queue, done, depth)
    ensures neighbors[k] in dist ==> Covered(neighbors, k + 1, dist, depth + 1)
    ensures neighbors[k] !in dist ==> Covered(neighbors, k + 1, dist[neighbors[k] := depth + 1], depth + 1)
  {
    if neighbors[k] in dist && neighbors[k] !in done {
      var d :| Item(neighbors[k], d) in queue;
    }
  }

  /** Queues the neighbours of a node that were not visited before. */
  method Expand(out: Listing, node: string, depth: nat, visited: set<string>, queue: seq<Item>,
                ghost universe: set<string>, ghost origin: string, ghost cap: nat,
                ghost dist: map<string, nat>, ghost done: set<string>)
    returns (visited': set<string>, queue': seq<Item>, ghost dist': map<string, nat>)
    requires visited == dist.Keys && Seen(out, origin, cap, dist) && Queued(dist, queue, done, depth)
    requires node in done && dist[node] == depth < cap
    requires AllExpanded(out, cap, dist, done - {node})
    requires visited <= universe && forall y :: y in out(node) ==> y in universe
    ensures visited' == dist'.Keys && Seen(out, origin, cap, dist') && Queued(dist', queue', done, depth)
    ensures AllExpanded(out, cap, dist', done)
    ensures visited <= visited' <= universe
    ensures visited' == visited ==> queue' == queue
  {
    visited', queue', dist' := visited, queue, dist;
    var neighbors := out(node);
    for k := 0 to |neighbors|
      invariant visited' == dist'.Keys && Seen(out, origin, cap, dist') && Queued(dist', queue', done, depth)
      invariant visited <= visited' <= universe && (visited' == visited ==> queue' == queue)
      invariant Extends(dist, dist') && Covered(neighbors, k, dist', depth + 1)
    {
      var next := neighbors[k];
      Covering(dist', queue', done, neighbors, k, depth);
      if next !in visited' {
        Pushed(out, origin, cap, dist', queue', done, node, depth, next);
        visited' := visited' + {next};
        queue' := queue' + [Item(next, depth + 1)];
        dist' := dist'[next := depth + 1];
      }
    }
    KeptExpanded(out, cap, dist, dist', done, node);
  }

  lemma Pushed(
        out: Listing, origin: string, cap: nat, dist: map<string, nat>, queue: seq<Item>, done: set<string>,
        node: string, depth: nat, next: string)
    requires Seen(out, origin, cap, dist) && Queued(dist, queue, done, depth)
    requires node in dist && dist[node] == depth < cap && next in out(node) && next !in dist
    ensures Seen(out, origin, cap, dist[next := depth + 1])
    ensures Queued(dist[next := depth + 1], queue + [Item(next, depth + 1)], done, depth)
  {
    assert Reaches(out, origin, node, depth);
    assert Reaches(out, origin, next, depth + 1);
    var after, longer := dist[next := depth + 1], queue + [Item(next, depth + 1)];
    forall x | x in after ensures x in done || exists d :: Item(x, d) in longer {
      if x == next {
        assert longer[|queue|] == Item(next, depth + 1);
      } else if x !in done {
        var d :| Item(x, d) in queue;
        assert Item(x, d) in longer;
      }
    }
  }

  lemma KeptExpanded(
        out: Listing, cap: nat, dist: map<string, nat>, dist': map<string, nat>, done: set<string>, node: string)
    requires AllExpanded(out, cap, dist, done - {node}) && node in dist
    requires forall x :: x in done ==> x in dist
    requires Extends(dist, dist')
    requires Expanded(out, dist', node)
    ensures AllExpanded(out, cap, dist', done)
  {
    forall x | x in done && x in dist' && dist'[x] < cap ensures Expanded(out, dist', x) {
      if x != node {
        assert x in done - {node} && Expanded(out, dist, x);
      }
    }
  }

  /** The search answers whether `to` is within `maxDepth` edges; a depth above the cap is an error. */
  method PathExists(
        out: Listing, origin: string, to: string, maxDepth: nat, ghost universe: set<string>)
    returns (result: Result<bool, SearchError>)
    requires origin in universe && forall x, y :: y in out(x) ==> y in universe
    ensures maxDepth > MAX_PATH_DEPTH ==> result == Failure(DepthCapped)
    ensures maxDepth <= MAX_PATH_DEPTH ==> result == Success(Reaches(out, origin, to, maxDepth))
  {
    if maxDepth == 0 {
      return Success(origin == to);
    }
    if maxDepth > MAX_PATH_DEPTH {
      return Failure(DepthCapped);
    }
    var visited := {origin};
    var queue: seq<Item> := [Item(origin, 0)];
    ghost var dist: map<string, nat> := map[origin := 0];
    ghost var done: set<string> := {};
    ghost var level: nat := 0;
    assert queue[0] == Item(origin, 0);
    while queue != []
      invariant visited == dist.Keys && visited <= universe
      invariant Seen(out, origin, maxDepth, dist) && Queued(dist, queue, done, level)
      invariant AllExpanded(out, maxDepth, dist, done) && to !in done
      decreases |universe - visited|, |queue|
    {
      var Item(node, depth) := queue[0];
      if node == to {
        ReachesMore(out, origin, to, depth, maxDepth);
        return Success(true);
      }
      Dequeued(dist, queue, done, level);
      queue := queue[1..];
      done := done + {node};
      level := depth;
      if depth < maxDepth {
        assert done - {node} <= done;
        ghost var before := visited;
        visited, queue, dist := Expand(out, node, depth, visited, queue, universe, origin, maxDepth, dist, done);
        Fewer(universe, before, visited);
      }
    }
    assert dist.Keys == done;
    if Reaches(out, origin, to, maxDepth) {
      AllFound(out, origin, maxDepth, dist, to, maxDepth);
    }
    return Success(false);
  }

  lemma Dequeued(dist: map<string, nat>, queue: seq<Item>, done: set<string>, level: nat)
    requires queue != [] && Queued(dist, queue, done, level)
    ensures Queued(dist, queue[1..], done + {queue[0].node}, queue[0].depth)
  {
    forall x | x in dist ensures x in done + {queue[0].node} || exists d :: Item(x, d) in queue[1..] {
      if x !in done && x != queue[0].node {
        var d :| Item(x, d) in queue;
        assert Item(x, d) in queue[1..];
      }
    }
  }

  lemma Fewer(universe: set<string>, before: set<string>, after: set<string>)
    requires before <= after <= universe
    ensures |universe - after| <= |universe - before|
    ensures before != after ==> |universe - after| < |universe - before|
  {
    assert universe - before == (universe - after) + (after - before);
  }
}
