/**
 Exact ground truth for filtered nearest-neighbour queries, and recall against
 it (crates/benchmark/src/ann.rs, scripts/competitor_ann_bench.py).  A neighbour
 row is only the beginning of the full distance order; filtering it is exact
 when enough matching rows are left.
 */
module GroundTruth {
  import opened KeyedMaps
  import opened Wrappers
  import Counting

  datatype Fault = DuplicateIds | OutsideTrain | TooFewNeighbors | NarrowTruth | CountsDiffer | NoQueries

  function Least(a: nat, b: nat): nat {
    if a < b then a else b
  }

  function Take(s: seq<nat>, k: nat): seq<nat> {
    s[..Least(k, |s|)]
  }

  predicate Keeps(modulus: nat, target: nat, row: nat)
    requires modulus > 0
  {
    row % modulus == target
  }

  function Filter(s: seq<nat>, modulus: nat, target: nat): seq<nat>
    requires modulus > 0
  {
    if s == [] then []
    else
      var kept := Filter(s[..|s| - 1], modulus, target);
      if Keeps(modulus, target, s[|s| - 1]) then kept + [s[|s| - 1]] else kept
  }

  /** The source's lookup: the matching neighbours in order, at most `topK`; the first neighbour says what matches. */
  function FilteredGroundTruth(row: seq<nat>, topK: nat, modulus: Option<nat>): seq<nat>
    requires modulus.Some? ==> modulus.value > 0 && row != []
  {
    match modulus
    case None => Take(row, topK)
    case Some(m) => Take(Filter(row, m, row[0] % m), topK)
  }

  // ---- The validators ----

  function Elements(row: seq<nat>): set<nat> {
    set v | v in row
  }

  lemma {:induction false} UniqueCounts(row: seq<nat>)
    ensures |Elements(row)| <= |row|
    ensures |Elements(row)| == |row| <==> NoRepeats(row)
  {
    if row != [] {
      var rest, last := row[..|row| - 1], row[|row| - 1];
      UniqueCounts(rest);
      assert row == rest + [last];
      assert Elements(row) == Elements(rest) + {last};
      if last in rest {
        var i :| 0 <= i < |rest| && rest[i] == last;
        assert row[i] == row[|row| - 1];
        assert Elements(row) == Elements(rest);
      } else {
        assert NoRepeats(row) <==> NoRepeats(rest);
      }
    }
  }

  ghost predicate SoundRow(row: seq<nat>, trainVectors: nat) {
    NoRepeats(row) && forall v :: v in row ==> v < trainVectors
  }

  method ValidateGroundTruth(neighbors: seq<seq<nat>>, trainVectors: nat) returns (result: Result<(), Fault>)
    ensures result.Success? <==> forall q :: 0 <= q < |neighbors| ==> SoundRow(neighbors[q], trainVectors)
    ensures result == Failure(DuplicateIds) ==> exists q :: 0 <= q < |neighbors| && !NoRepeats(neighbors[q])
    ensures result == Failure(OutsideTrain) ==>
      exists q: nat, v: nat :: q < |neighbors| && v in neighbors[q] && v >= trainVectors
    ensures result.Failure? ==> result.error in {DuplicateIds, OutsideTrain}
  {
    for q := 0 to |neighbors|
      invariant forall p :: 0 <= p < q ==> SoundRow(neighbors[p], trainVectors)
    {
      var row := neighbors[q];
      UniqueCounts(row);
      if |Elements(row)| != |row| {
        return Failure(DuplicateIds);
      }
      if exists i :: 0 <= i < |row| && row[i] >= trainVectors {
        var i :| 0 <= i < |row| && row[i] >= trainVectors;
        assert neighbors[q][i] in neighbors[q];
        return Failure(OutsideTrain);
      }
      assert SoundRow(row, trainVectors);
    }
    return Success(());
  }

  method ValidateFiltered(neighbors: seq<seq<nat>>, topK: nat, modulus: Option<nat>) returns (result: Result<(), Fault>)
    requires modulus.Some? ==> modulus.value > 0 && forall q :: 0 <= q < |neighbors| ==> neighbors[q] != []
    ensures modulus.None? ==> result.Success?
    ensures modulus.Some? ==> (result.Success? <==>
      forall q :: 0 <= q < |neighbors| ==> |FilteredGroundTruth(neighbors[q], topK, modulus)| == topK)
  {
    if modulus.None? {
      return Success(());
    }
    for q := 0 to |neighbors|
      invariant forall p :: 0 <= p < q ==> |FilteredGroundTruth(neighbors[p], topK, modulus)| == topK
    {
      if |FilteredGroundTruth(neighbors[q], topK, modulus)| != topK {
        return Failure(TooFewNeighbors);
      }
    }
    return Success(());
  }

  // ---- Exactness ----

  lemma {:induction false} FilterPrefix(s: seq<nat>, t: seq<nat>, modulus: nat, target: nat)
    requires modulus > 0 && s <= t
    ensures Filter(s, modulus, target) <= Filter(t, modulus, target)
    decreases |t|
  {
    if s != t {
      FilterPrefix(s, t[..|t| - 1], modulus, target);
    }
  }

  /** Cutting a beginning is cutting the whole exactly when the beginning is long enough, or is the whole. */
  lemma CutExact(s: seq<nat>, t: seq<nat>, k: nat)
    requires s <= t
    ensures Take(s, k) == Take(t, k) <==> k <= |s| || s == t
  {
    if Take(s, k) == Take(t, k) && k > |s| {
      assert |Take(t, k)| == |s|;
      assert t == t[..|s|];
    }
  }

  /** The rows a cut is taken from: those that match, or all of them without a filter. */
  function Candidates(row: seq<nat>, modulus: Option<nat>): seq<nat>
    requires modulus.Some? ==> modulus.value > 0 && row != []
  {
    match modulus
    case None => row
    case Some(m) => Filter(row, m, row[0] % m)
  }

  /**
   When a neighbour row begins the full distance order, what it yields is what
   the full order yields exactly when it has `topK` candidates, or no candidate
   of the order lies beyond it.
   */
  lemma FilteredExact(row: seq<nat>, order: seq<nat>, topK: nat, modulus: Option<nat>)
    requires row <= order && row != []
    requires modulus.Some? ==> modulus.value > 0
    ensures FilteredGroundTruth(row, topK, modulus) == FilteredGroundTruth(order, topK, modulus)
       <==> topK <= |Candidates(row, modulus)| || Candidates(row, modulus) == Candidates(order, modulus)
  {
    if modulus.Some? {
      FilterPrefix(row, order, modulus.value, row[0] % modulus.value);
    }
    CutExact(Candidates(row, modulus), Candidates(order, modulus), topK);
  }

  // ---- What exactness means for the distances ----

  /** Every train row once, nearest first. */
  ghost predicate DistanceOrder(distance: nat -> real, trainVectors: nat, order: seq<nat>) {
    && NoRepeats(order)
    && (forall v: nat :: v in order <==> v < trainVectors)
    && Sorted(distance, order)
  }

  ghost predicate Sorted(distance: nat -> real, order: seq<nat>) {
    forall i, j :: 0 <= i < j < |order| ==> distance(order[i]) <= distance(order[j])
  }

  predicate Matches(modulus: Option<nat>, target: nat, row: nat)
    requires modulus.Some? ==> modulus.value > 0
  {
    modulus.Some? ==> row % modulus.value == target
  }

  lemma {:induction false} FilterKeepsOrder(distance: nat -> real, s: seq<nat>, modulus: nat, target: nat)
    requires modulus > 0 && NoRepeats(s) && Sorted(distance, s)
    ensures var kept := Filter(s, modulus, target);
            && NoRepeats(kept) && Sorted(distance, kept)
            && forall v: nat :: v in kept <==> v in s && Keeps(modulus, target, v)
  {
    if s != [] {
      var rest, last := s[..|s| - 1], s[|s| - 1];
      FilterKeepsOrder(distance, rest, modulus, target);
      assert s == rest + [last];
      var kept := Filter(rest, modulus, target);
      forall i | 0 <= i < |kept| ensures kept[i] != last && distance(kept[i]) <= distance(last) {
        assert kept[i] in rest;
        var j :| 0 <= j < |rest| && rest[j] == kept[i];
        assert s[j] == kept[i] && s[|s| - 1] == last;
      }
    }
  }

  /** The answer is `topK` matching train rows, nearest first, and no matching row left out is nearer. */
  ghost predicate Nearest(
        distance: nat -> real, trainVectors: nat, topK: nat, modulus: Option<nat>, target: nat, answer: seq<nat>)
    requires modulus.Some? ==> modulus.value > 0
  {
    && |answer| == topK && NoRepeats(answer) && Sorted(distance, answer)
    && (forall v: nat :: v in answer ==> v < trainVectors && Matches(modulus, target, v))
    && forall v: nat, w: nat :: v in answer && w < trainVectors && Matches(modulus, target, w) && w !in answer ==>
      distance(v) <= distance(w)
  }

  lemma TakeNearest(
        distance: nat -> real, trainVectors: nat, topK: nat, modulus: Option<nat>, target: nat, all: seq<nat>)
    requires modulus.Some? ==> modulus.value > 0
    requires NoRepeats(all) && Sorted(distance, all) && topK <= |all|
    requires forall v: nat :: v in all <==> v < trainVectors && Matches(modulus, target, v)
    ensures Nearest(distance, trainVectors, topK, modulus, target, Take(all, topK))
  {
    var answer := Take(all, topK);
    assert forall v :: v in answer ==> v in all;
    forall v, w | v in answer && w in all && w !in answer ensures distance(v) <= distance(w) {
      var i :| 0 <= i < |answer| && answer[i] == v;
      var j :| 0 <= j < |all| && all[j] == w;
      assert all[i] == v && forall k :: 0 <= k < |answer| ==> all[k] in answer;
    }
  }

  function TargetOf(row: seq<nat>, modulus: Option<nat>): nat
    requires modulus.Some? ==> modulus.value > 0 && row != []
  {
    if modulus.Some? then row[0] % modulus.value else 0
  }

  /**
   Filtered ground truth is exact: from a beginning of the full order that
   passed the width guard and the filter validator, it is the true nearest
   matching rows.
   */
  lemma GroundTruthExact(
      distance: nat -> real, trainVectors: nat, row: seq<nat>, order: seq<nat>, topK: nat, modulus: Option<nat>)
    requires DistanceOrder(distance, trainVectors, order) && row <= order && row != []
    requires topK <= |row|
    requires modulus.Some? ==> modulus.value > 0 && |FilteredGroundTruth(row, topK, modulus)| == topK
    ensures Nearest(
      distance, trainVectors, topK, modulus, TargetOf(row, modulus), FilteredGroundTruth(row, topK, modulus))
  {
    FilteredExact(row, order, topK, modulus);
    if modulus.Some? {
      FilterKeepsOrder(distance, order, modulus.value, row[0] % modulus.value);
      FilterPrefix(row, order, modulus.value, row[0] % modulus.value);
    }
    TakeNearest(distance, trainVectors, topK, modulus, TargetOf(row, modulus), Candidates(order, modulus));
  }

  // ---- Loading the queries and running every guard ----

  /** How many query records are taken when reading stops at the limit or at the shorter file. */
  function Taken(queries: nat, rows: nat, limit: Option<nat>): nat {
    var both := Least(queries, rows);
    if limit.Some? then Least(limit.value, both) else both
  }

  /** Reading reaches the limit before either file ends, or both files end together. */
  predicate EndsTogether(queries: nat, rows: nat, limit: Option<nat>) {
    queries == rows || (limit.Some? && limit.value <= Least(queries, rows))
  }

  ghost predicate WideEnough(neighbors: seq<seq<nat>>, n: nat, topK: nat)
    requires n <= |neighbors|
  {
    forall q :: 0 <= q < n ==> topK <= |neighbors[q]|
  }

  /** Reads query and neighbour records side by side; a neighbour row must be at least `topK` wide. */
  method LoadQueries(queries: nat, neighbors: seq<seq<nat>>, topK: nat, limit: Option<nat>)
    returns (result: Result<seq<seq<nat>>, Fault>)
    ensures var n := Taken(queries, |neighbors|, limit);
            && (result.Success? <==>
                  n > 0 && EndsTogether(queries, |neighbors|, limit) && WideEnough(neighbors, n, topK))
            && (result.Success? ==> result.value == neighbors[..n])
  {
    var n: nat := 0;
    while limit.None? || n < limit.value
      invariant n <= Taken(queries, |neighbors|, limit)
      invariant WideEnough(neighbors, n, topK)
      decreases |neighbors| - n
    {
      if n < queries && n < |neighbors| {
        if |neighbors[n]| < topK {
          return Failure(NarrowTruth);
        }
        n := n + 1;
      } else if n >= queries && n >= |neighbors| {
        break;
      } else {
        return Failure(CountsDiffer);
      }
    }
    if n == 0 {
      return Failure(NoQueries);
    }
    return Success(neighbors[..n]);
  }

  ghost predicate Filterable(rows: seq<seq<nat>>, topK: nat, modulus: Option<nat>)
    requires modulus.Some? ==> modulus.value > 0
  {
    modulus.Some? ==>
      forall q :: 0 <= q < |rows| && rows[q] != [] ==> |FilteredGroundTruth(rows[q], topK, modulus)| == topK
  }

  /** The neighbour rows begin the true distance orders of their queries. */
  ghost predicate TrueBeginnings(
      distances: seq<nat -> real>, orders: seq<seq<nat>>, trainVectors: nat, neighbors: seq<seq<nat>>) {
    && |distances| == |orders| == |neighbors|
    && forall q :: 0 <= q < |neighbors| ==>
         DistanceOrder(distances[q], trainVectors, orders[q]) && neighbors[q] <= orders[q]
  }

  ghost predicate AllNearest(
      distances: seq<nat -> real>, trainVectors: nat, topK: nat, modulus: Option<nat>, rows: seq<seq<nat>>)
    requires modulus.Some? ==> modulus.value > 0
  {
    && |rows| <= |distances|
    && (forall q :: 0 <= q < |rows| ==> rows[q] != [])
    && forall q :: 0 <= q < |rows| ==>
         Nearest(
           distances[q], trainVectors, topK, modulus, TargetOf(rows[q], modulus),
           FilteredGroundTruth(rows[q], topK, modulus))
  }

  /**
   Everything the tool checks before it measures.  It succeeds exactly when the
   records pair up, every row taken is wide enough, without repeats, inside the
   train range and yields `topK` matches; then, if the rows begin the true
   orders, every query's ground truth is its true nearest matching rows.
   */
  method PrepareTruth(
      queries: nat, neighbors: seq<seq<nat>>, topK: nat, limit: Option<nat>, modulus: Option<nat>, trainVectors: nat,
      ghost distances: seq<nat -> real>, ghost orders: seq<seq<nat>>)
    returns (result: Result<seq<seq<nat>>, Fault>)
    requires topK > 0 && (modulus.Some? ==> modulus.value > 0)
    ensures var n := Taken(queries, |neighbors|, limit);
            && (result.Success? <==>
                  && n > 0 && EndsTogether(queries, |neighbors|, limit) && WideEnough(neighbors, n, topK)
                  && (forall q :: 0 <= q < n ==> SoundRow(neighbors[q], trainVectors))
                  && Filterable(neighbors[..n], topK, modulus))
            && (result.Success? ==> result.value == neighbors[..n])
    ensures result.Success? && TrueBeginnings(distances, orders, trainVectors, neighbors) ==>
      AllNearest(distances, trainVectors, topK, modulus, result.value)
  {
    var loaded := LoadQueries(queries, neighbors, topK, limit);
    if loaded.Failure? {
      return loaded;
    }
    var rows := loaded.value;
    assert forall q :: 0 <= q < |rows| ==> rows[q] == neighbors[q];
    var sound := ValidateGroundTruth(rows, trainVectors);
    if sound.Failure? {
      return Failure(sound.error);
    }
    var filtered := ValidateFiltered(rows, topK, modulus);
    if filtered.Failure? {
      return Failure(filtered.error);
    }
    if TrueBeginnings(distances, orders, trainVectors, neighbors) {
      forall q | 0 <= q < |rows|
        ensures Nearest(distances[q], trainVectors, topK, modulus, TargetOf(rows[q], modulus),
                        FilteredGroundTruth(rows[q], topK, modulus))
      {
        GroundTruthExact(distances[q], trainVectors, rows[q], orders[q], topK, modulus);
      }
    }
    return Success(rows);
  }

  // ---- Recall ----

  /** A number of rows as a share of `k`. */
  function Share(n: nat, k: nat): real
    requires k > 0
  {
    n as real / k as real
  }

  function RecallAtK(returned: set<nat>, expected: seq<nat>, topK: nat): real
    requires topK > 0
  {
    Share(|returned * Elements(Take(expected, topK))|, topK)
  }

  /** The Python form, over an already cut list. */
  function RecallOfList(returned: set<nat>, expected: seq<nat>, topK: nat): real
    requires topK > 0
  {
    Share(|returned * Elements(expected)|, topK)
  }

  /** A share of `k` parts: one part each, none for no row, the whole for `k` rows. */
  lemma ShareLaws(n: nat, k: nat)
    requires k > 0
    ensures Share(n, k) * k as real == n as real
    ensures Share(n + 1, k) == Share(n, k) + 1.0 / k as real
    ensures Share(n, k) >= 0.0 && (Share(n, k) == 0.0 <==> n == 0)
    ensures n <= k ==> Share(n, k) <= 1.0 && (Share(n, k) == 1.0 <==> n == k)
  {
  }

  /** Recall lies in [0, 1]; it is 1 exactly when the answer has `topK` different rows and all of them were returned. */
  lemma RecallExact(returned: set<nat>, expected: seq<nat>, topK: nat)
    requires topK > 0
    ensures 0.0 <= RecallAtK(returned, expected, topK) <= 1.0
    ensures RecallAtK(returned, expected, topK) == 1.0 <==>
      |Elements(Take(expected, topK))| == topK && Elements(Take(expected, topK)) <= returned
  {
    var wanted := Elements(Take(expected, topK));
    UniqueCounts(Take(expected, topK));
    Counting.SubsetSize(returned * wanted, wanted);
    assert returned * wanted == wanted <==> wanted <= returned;
    ShareLaws(|returned * wanted|, topK);
  }

  /** On a validated answer the implementations agree, and recall is 1 exactly when every expected row was returned. */
  lemma RecallOfTruth(returned: set<nat>, answer: seq<nat>, topK: nat)
    requires topK > 0 && |answer| == topK && NoRepeats(answer)
    ensures RecallAtK(returned, answer, topK) == RecallOfList(returned, answer, topK)
    ensures RecallAtK(returned, answer, topK) == 1.0 <==> forall v :: v in answer ==> v in returned
  {
    assert Take(answer, topK) == answer;
    UniqueCounts(answer);
    RecallExact(returned, answer, topK);
  }

  /**
   What recall counts.  It is 0 exactly when no expected row was returned; one
   more expected row raises it by one part in `topK`, any other row leaves it.
   */
  lemma RecallCounts(returned: set<nat>, expected: seq<nat>, topK: nat, row: nat)
    requires topK > 0 && row !in returned
    ensures RecallAtK(returned, expected, topK) == 0.0 <==> forall v :: v in Take(expected, topK) ==> v !in returned
    ensures RecallAtK(returned + {row}, expected, topK)
         == RecallAtK(returned, expected, topK) + if row in Take(expected, topK) then 1.0 / topK as real else 0.0
  {
    var wanted := Elements(Take(expected, topK));
    ShareLaws(|returned * wanted|, topK);
    if row in wanted {
      assert (returned + {row}) * wanted == returned * wanted + {row};
    } else {
      assert (returned + {row}) * wanted == returned * wanted;
    }
    if |returned * wanted| == 0 {
      assert returned * wanted == {};
    }
  }

  /** How many of the first `n` positions of the answer were returned. */
  function Hits(returned: set<nat>, answer: seq<nat>, n: nat): nat
    requires n <= |answer|
  {
    if n == 0 then 0 else Hits(returned, answer, n - 1) + if answer[n - 1] in returned then 1 else 0
  }

  lemma OneMoreHit(returned: set<nat>, listed: set<nat>, row: nat)
    requires row !in listed
    ensures |returned * (listed + {row})| == |returned * listed| + if row in returned then 1 else 0
  {
    if row in returned {
      assert returned * (listed + {row}) == returned * listed + {row};
    } else {
      assert returned * (listed + {row}) == returned * listed;
    }
  }

  lemma ElementsGrow(answer: seq<nat>, n: nat)
    requires 0 < n <= |answer| && NoRepeats(answer)
    ensures Elements(answer[..n]) == Elements(answer[..n - 1]) + {answer[n - 1]}
    ensures answer[n - 1] !in Elements(answer[..n - 1])
  {
    assert answer[..n] == answer[..n - 1] + [answer[n - 1]];
  }

  lemma {:induction false} HitsAre(returned: set<nat>, answer: seq<nat>, n: nat)
    requires n <= |answer| && NoRepeats(answer)
    ensures Hits(returned, answer, n) == |returned * Elements(answer[..n])|
  {
    if n > 0 {
      HitsAre(returned, answer, n - 1);
      ElementsGrow(answer, n);
      OneMoreHit(returned, Elements(answer[..n - 1]), answer[n - 1]);
    }
  }

  /** On a validated answer recall is the share of its positions that were returned, in both implementations. */
  lemma RecallIsShare(returned: set<nat>, answer: seq<nat>, topK: nat)
    requires topK > 0 && |answer| == topK && NoRepeats(answer)
    ensures RecallAtK(returned, answer, topK) == Share(Hits(returned, answer, topK), topK)
    ensures RecallOfList(returned, answer, topK) == Share(Hits(returned, answer, topK), topK)
  {
    HitsAre(returned, answer, topK);
    assert answer[..topK] == answer && Take(answer, topK) == answer;
  }
}
