/**
 The token F1 score of an answer (scripts/agentic_memory_evaluate.py): a greedy
 pass over a table of counts finds the size of the multiset intersection.
 Splitting text into tokens is outside the model, and scores are exact
 fractions.
 */
module TokenOverlap {

  function Overlap(reference: seq<string>, actual: seq<string>): nat {
    |multiset(reference) * multiset(actual)|
  }

  /** The score by its meaning: twice the shared tokens over all tokens; two empty answers agree. */
  function F1(reference: seq<string>, actual: seq<string>): real {
    if reference == [] && actual == [] then 1.0
    else 2.0 * Overlap(reference, actual) as real / (|reference| + |actual|) as real
  }

  function CountOf(table: map<string, nat>, token: string): nat {
    if token in table then table[token] else 0
  }

  /** What the table still has after the tokens matched so far. */
  ghost predicate Remaining(table: map<string, nat>, reference: multiset<string>, seen: multiset<string>) {
    forall t :: CountOf(table, t) == (reference - seen)[t]
  }

  lemma MatchedOne(reference: multiset<string>, seen: multiset<string>, token: string)
    ensures reference * (seen + multiset{token})
         == if (reference - seen)[token] > 0 then reference * seen + multiset{token} else reference * seen
  {
  }

  lemma RemainingOne(table: map<string, nat>, reference: multiset<string>, seen: multiset<string>, token: string)
    requires Remaining(table, reference, seen)
    ensures CountOf(table, token) == 0 ==> Remaining(table, reference, seen + multiset{token})
    ensures CountOf(table, token) > 0 ==> Remaining(table[token := table[token] - 1], reference, seen + multiset{token})
  {
    assert forall t :: t != token ==> (reference - (seen + multiset{token}))[t] == (reference - seen)[t];
  }

  method CountTokens(tokens: seq<string>) returns (table: map<string, nat>)
    ensures Remaining(table, multiset(tokens), multiset{})
  {
    table := map[];
    for k := 0 to |tokens|
      invariant forall t :: CountOf(table, t) == multiset(tokens[..k])[t]
    {
      assert tokens[..k + 1] == tokens[..k] + [tokens[k]];
      table := table[tokens[k] := CountOf(table, tokens[k]) + 1];
    }
    assert tokens[..|tokens|] == tokens;
  }

  /** The greedy pass: each token of the answer uses up one occurrence, if one is left. */
  method GreedyOverlap(reference: seq<string>, actual: seq<string>) returns (overlap: nat)
    ensures overlap == Overlap(reference, actual)
  {
    var remaining := CountTokens(reference);
    ghost var wanted := multiset(reference);
    overlap := 0;
    for k := 0 to |actual|
      invariant Remaining(remaining, wanted, multiset(actual[..k]))
      invariant overlap == |wanted * multiset(actual[..k])|
    {
      var token := actual[k];
      assert actual[..k + 1] == actual[..k] + [token];
      MatchedOne(wanted, multiset(actual[..k]), token);
      RemainingOne(remaining, wanted, multiset(actual[..k]), token);
      if CountOf(remaining, token) > 0 {
        overlap := overlap + 1;
        remaining := remaining[token := remaining[token] - 1];
      }
    }
    assert actual[..|actual|] == actual;
  }

  lemma HarmonicMean(overlap: nat, m: nat, n: nat)
    requires m > 0 && n > 0
    ensures var precision, recall := overlap as real / n as real, overlap as real / m as real;
            && (precision + recall == 0.0 <==> overlap == 0)
            && (overlap > 0 ==>
              2.0 * precision * recall / (precision + recall) == 2.0 * overlap as real / (m + n) as real)
  {
    var o, rm, rn := overlap as real, m as real, n as real;
    var precision, recall := o / rn, o / rm;
    assert precision * rn == o && recall * rm == o;
    if overlap > 0 {
      assert precision > 0.0 && recall > 0.0;
      assert (precision + recall) * (rm * rn) == o * (rm + rn);
      assert precision * recall * (rm * rn) == o * o;
      QuotientOf(2.0 * precision * recall, precision + recall, 2.0 * o, rm + rn, rm * rn, o);
    }
  }

  /** Fractions agree when both sides scale to the same products. */
  lemma QuotientOf(p: real, q: real, r: real, s: real, scale: real, o: real)
    requires q > 0.0 && s > 0.0 && scale > 0.0 && o > 0.0
    requires q * scale == o * s && p * scale == r * o
    ensures p / q == r / s
  {
    assert p * scale * (o * s) == r * o * (q * scale);
    assert (p * s - r * q) * (scale * o) == 0.0;
    assert p * s == r * q;
    assert p == p / q * q && r == r / s * s;
    assert (p / q - r / s) * (q * s) == p * s - r * q;
  }

  method TokenF1(reference: seq<string>, actual: seq<string>) returns (score: real)
    ensures score == F1(reference, actual)
  {
    if reference == [] && actual == [] {
      return 1.0;
    }
    if reference == [] || actual == [] {
      assert Overlap(reference, actual) == 0;
      return 0.0;
    }
    var overlap := GreedyOverlap(reference, actual);
    var precision := overlap as real / |actual| as real;
    var recall := overlap as real / |reference| as real;
    HarmonicMean(overlap, |reference|, |actual|);
    return if precision + recall == 0.0 then 0.0 else 2.0 * precision * recall / (precision + recall);
  }

  lemma IntersectionSize(a: multiset<string>, b: multiset<string>)
    ensures |a * b| <= |a| && |a * b| <= |b|
    ensures |a * b| == |a| == |b| <==> a == b
  {
    assert a == a * b + (a - b) && b == a * b + (b - a);
    assert |a| == |a * b| + |a - b| && |b| == |a * b| + |b - a|;
    if |a - b| == 0 && |b - a| == 0 {
      assert a - b == multiset{} && b - a == multiset{};
    }
    if a == b {
      assert a * b == a;
    }
  }

  /** The score is symmetric, between 0 and 1, and 1 exactly for permutations of the same tokens. */
  lemma ScoreLaws(reference: seq<string>, actual: seq<string>)
    ensures F1(reference, actual) == F1(actual, reference)
    ensures 0.0 <= F1(reference, actual) <= 1.0
    ensures F1(reference, actual) == 1.0 <==> multiset(reference) == multiset(actual)
  {
    var a, b := multiset(reference), multiset(actual);
    assert a * b == b * a;
    IntersectionSize(a, b);
    assert |a| == |reference| && |b| == |actual|;
    var o, total := Overlap(reference, actual), |reference| + |actual|;
    if total > 0 {
      Ratio(2 * o, total);
      assert 2.0 * o as real == (2 * o) as real;
    } else {
      assert reference == [] && actual == [];
    }
  }

  lemma Ratio(x: nat, total: nat)
    requires x <= total && total > 0
    ensures 0.0 <= x as real / total as real <= 1.0
    ensures x as real / total as real == 1.0 <==> x == total
  {
  }
}
