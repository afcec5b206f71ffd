/** The pigeonhole arguments behind the services' "affected rows equals list length" tests. */
module Counting {
  predicate Distinct<T(==)>(xs: seq<T>) {
    forall i, j :: 0 <= i < j < |xs| ==> xs[i] != xs[j]
  }

  ghost function Members<T>(xs: seq<T>): set<T> {
    set x | x in xs
  }

  /** A list has at most as many members as entries, and exactly as many when no entry repeats. */
  lemma {:induction false} MemberCount<T>(xs: seq<T>)
    ensures |Members(xs)| <= |xs|
    ensures |Members(xs)| == |xs| <==> Distinct(xs)
  {
    if xs == [] {
    } else {
      var front, last := xs[..|xs| - 1], xs[|xs| - 1];
      MemberCount(front);
      assert Members(xs) == Members(front) + {last};
      if last in front {
        var i :| 0 <= i < |front| && front[i] == last;
        assert xs[i] == xs[|xs| - 1];
        assert Members(xs) == Members(front);
      } else {
        if Distinct(front) {
          forall i, j | 0 <= i < j < |xs| ensures xs[i] != xs[j] {
            assert xs[i] == front[i];
          }
        } else {
          var i, j :| 0 <= i < j < |front| && front[i] == front[j];
          assert xs[i] == xs[j];
        }
      }
    }
  }

  lemma SubsetSameSize<T>(small: set<T>, large: set<T>)
    requires small <= large
    ensures |small| <= |large|
    ensures |small| == |large| ==> small == large
  {
    assert large == small + (large - small);
  }

  /**
   Distinct entries drawn from a list are as many as the list is long
   exactly when the list repeats nothing and none of its entries is missing.
  */
  lemma Pigeonhole<T>(drawn: seq<T>, list: seq<T>)
    requires Distinct(drawn)
    requires forall x :: x in drawn ==> x in list
    ensures |drawn| == |list| <==> Distinct(list) && forall x :: x in list ==> x in drawn
  {
    MemberCount(drawn);
    MemberCount(list);
    SubsetSameSize(Members(drawn), Members(list));
    if |drawn| == |list| {
      forall x | x in list ensures x in drawn {
        assert x in Members(list);
      }
    }
    if forall x :: x in list ==> x in drawn {
      SubsetSameSize(Members(list), Members(drawn));
    }
  }
}
