/**
 What a listing that stops at a limit can hide.  A node has a set of edges, each
 with a far end; a listing shows all of them or, when there are too many, any
 cut of the size of the limit.  The module says exactly when every cut tells the
 truth about the far ends.
 */
module ListingCuts {
  import Counting

  type Ids = set<string>

  type FarEnd = string -> string

  type Test = string -> bool

  /** The far ends of these edges that pass the test. */
  ghost function Ends(ids: Ids, far: FarEnd, relevant: Test): set<string> {
    set e | e in ids && relevant(far(e)) :: far(e)
  }

  /** The edges that lead elsewhere than to `x`. */
  ghost function Besides(ids: Ids, far: FarEnd, x: string): Ids {
    set e | e in ids && far(e) != x
  }

  /** The edges that show nothing but expected ends: they lead to one, or to an end that does not matter. */
  ghost function Conforming(ids: Ids, far: FarEnd, relevant: Test, expected: set<string>): Ids {
    set e | e in ids && (far(e) in expected || !relevant(far(e)))
  }

  /** All the edges, or as many of them as the limit allows. */
  ghost predicate IsCut(ids: Ids, cut: Ids, limit: nat) {
    cut <= ids && |cut| == if |ids| <= limit then |ids| else limit
  }

  /** Whichever cut is shown, it shows the expected ends exactly when the edges have them. */
  ghost predicate Reliable(ids: Ids, far: FarEnd, relevant: Test, expected: set<string>, limit: nat) {
    forall cut :: IsCut(ids, cut, limit) ==>
      (Ends(cut, far, relevant) == expected <==> Ends(ids, far, relevant) == expected)
  }

  /**
   The edges fit the limit; or they have the expected ends and so few lead
   elsewhere than to any one of them that no cut can miss it; or they have not,
   and too few conform for a cut to look right.
   */
  ghost predicate Telling(ids: Ids, far: FarEnd, relevant: Test, expected: set<string>, limit: nat) {
    || |ids| <= limit
    || (if Ends(ids, far, relevant) == expected then
          forall x :: x in expected ==> |Besides(ids, far, x)| < limit
        else
          !(expected <= Ends(ids, far, relevant) && |Conforming(ids, far, relevant, expected)| >= limit))
  }

  lemma {:induction false} Extend(some: Ids, all: Ids, n: nat) returns (picked: Ids)
    requires some <= all && |some| <= n <= |all|
    ensures some <= picked <= all && |picked| == n
    decreases n - |some|
  {
    if |some| == n {
      picked := some;
    } else {
      assert all == some + (all - some) && |all| == |some| + |all - some|;
      var e :| e in all - some;
      picked := Extend(some + {e}, all, n);
    }
  }

  lemma EndsAdd(ids: Ids, far: FarEnd, relevant: Test, e: string)
    ensures Ends(ids + {e}, far, relevant) == Ends(ids, far, relevant) + if relevant(far(e)) then {far(e)} else {}
  {
  }

  /** The edges are one for each of these ends. */
  ghost predicate Represents(picked: Ids, far: FarEnd, relevant: Test, goals: set<string>) {
    && |picked| == |goals| && Ends(picked, far, relevant) == goals
    && forall e :: e in picked ==> far(e) in goals
  }

  lemma OneMore(picked: Ids, far: FarEnd, relevant: Test, goals: set<string>, e: string)
    requires Represents(picked, far, relevant, goals) && far(e) !in goals && relevant(far(e))
    ensures Represents(picked + {e}, far, relevant, goals + {far(e)})
  {
    EndsAdd(picked, far, relevant, e);
  }

  lemma {:induction false} Representatives(ids: Ids, far: FarEnd, relevant: Test, goals: set<string>)
    returns (picked: Ids)
    requires goals <= Ends(ids, far, relevant)
    ensures picked <= ids && Represents(picked, far, relevant, goals)
  {
    if goals == {} {
      picked := {};
    } else {
      var x :| x in goals;
      var rest := Representatives(ids, far, relevant, goals - {x});
      var e :| e in ids && relevant(far(e)) && far(e) == x;
      OneMore(rest, far, relevant, goals - {x}, e);
      picked := rest + {e};
      assert goals == (goals - {x}) + {x};
    }
  }

  lemma TellingCut(ids: Ids, far: FarEnd, relevant: Test, expected: set<string>, limit: nat, cut: Ids)
    requires Telling(ids, far, relevant, expected, limit) && IsCut(ids, cut, limit)
    ensures Ends(cut, far, relevant) == expected <==> Ends(ids, far, relevant) == expected
  {
    Counting.SubsetSize(cut, ids);
    if |ids| > limit {
      assert Ends(cut, far, relevant) <= Ends(ids, far, relevant);
      if Ends(ids, far, relevant) == expected {
        forall x | x in expected ensures x in Ends(cut, far, relevant) {
          if x !in Ends(cut, far, relevant) {
            assert cut <= Besides(ids, far, x);
            Counting.SubsetSize(cut, Besides(ids, far, x));
          }
        }
      } else if Ends(cut, far, relevant) == expected {
        assert cut <= Conforming(ids, far, relevant, expected);
        Counting.SubsetSize(cut, Conforming(ids, far, relevant, expected));
      }
    }
  }

  /** Unless the edges are telling, some cut shows the wrong thing. */
  lemma MisleadingCut(ids: Ids, far: FarEnd, relevant: Test, expected: set<string>, limit: nat) returns (cut: Ids)
    requires limit == |expected| + 1 && !Telling(ids, far, relevant, expected, limit)
    ensures IsCut(ids, cut, limit)
    ensures Ends(cut, far, relevant) == expected <==> Ends(ids, far, relevant) != expected
  {
    if Ends(ids, far, relevant) == expected {
      var x :| x in expected && |Besides(ids, far, x)| >= limit;
      cut := Extend({}, Besides(ids, far, x), limit);
      assert x !in Ends(cut, far, relevant);
    } else {
      var first := Representatives(ids, far, relevant, expected);
      var conforming := Conforming(ids, far, relevant, expected);
      cut := Extend(first, conforming, limit);
      assert Ends(first, far, relevant) <= Ends(cut, far, relevant);
    }
  }

  /** Listings cut one past the expected number are reliable exactly when the edges are telling. */
  lemma ReliableExactly(ids: Ids, far: FarEnd, relevant: Test, expected: set<string>, limit: nat)
    requires limit == |expected| + 1
    ensures Reliable(ids, far, relevant, expected, limit) <==> Telling(ids, far, relevant, expected, limit)
  {
    if Telling(ids, far, relevant, expected, limit) {
      forall cut | IsCut(ids, cut, limit)
        ensures Ends(cut, far, relevant) == expected <==> Ends(ids, far, relevant) == expected
      {
        TellingCut(ids, far, relevant, expected, limit, cut);
      }
    } else {
      var cut := MisleadingCut(ids, far, relevant, expected, limit);
    }
  }

  lemma {:induction false} InjectiveEnds(ids: Ids, far: FarEnd, relevant: Test)
    requires forall e :: e in ids ==> relevant(far(e))
    requires forall e, f :: e in ids && f in ids && far(e) == far(f) ==> e == f
    ensures |Ends(ids, far, relevant)| == |ids|
  {
    if ids != {} {
      var e :| e in ids;
      InjectiveEnds(ids - {e}, far, relevant);
      EndsAdd(ids - {e}, far, relevant, e);
      assert ids == (ids - {e}) + {e} && far(e) !in Ends(ids - {e}, far, relevant);
    }
  }

  /** Edges to different ends, all of which matter, are always telling. */
  lemma SimpleIsTelling(ids: Ids, far: FarEnd, relevant: Test, expected: set<string>)
    requires forall e :: e in ids ==> relevant(far(e))
    requires forall e, f :: e in ids && f in ids && far(e) == far(f) ==> e == f
    ensures Telling(ids, far, relevant, expected, |expected| + 1)
  {
    InjectiveEnds(ids, far, relevant);
    var conforming := Conforming(ids, far, relevant, expected);
    InjectiveEnds(conforming, far, relevant);
    assert Ends(conforming, far, relevant) <= expected;
    Counting.SubsetSize(Ends(conforming, far, relevant), expected);
  }
}
