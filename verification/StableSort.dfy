/**
 Stable sorting by an integer key: `Array.prototype.sort` with a comparator that subtracts two ranks
 (section 23.1.3.30 of ECMA-262, 14th edition), and `ORDER BY key` of a query.
*/
module StableSort {
  function Insert<T>(x: T, xs: seq<T>, key: T -> int): (result: seq<T>)
    ensures |result| == |xs| + 1
  {
    if xs == [] || key(x) <= key(xs[0]) then [x] + xs else [xs[0]] + Insert(x, xs[1..], key)
  }

  lemma {:induction false} InsertEntries<T>(x: T, xs: seq<T>, key: T -> int)
    ensures multiset(Insert(x, xs, key)) == multiset{x} + multiset(xs)
  {
    if xs == [] || key(x) <= key(xs[0]) {
    } else {
      InsertEntries(x, xs[1..], key);
      assert xs == [xs[0]] + xs[1..];
    }
  }

  function SortBy<T>(xs: seq<T>, key: T -> int): (result: seq<T>)
    ensures |result| == |xs|
    ensures multiset(result) == multiset(xs)
  {
    if xs == [] then [] else
      assert xs == [xs[0]] + xs[1..];
      InsertEntries(xs[0], SortBy(xs[1..], key), key);
      Insert(xs[0], SortBy(xs[1..], key), key)
  }

  lemma SortMembers<T(!new)>(xs: seq<T>, key: T -> int)
    ensures forall x :: x in SortBy(xs, key) <==> x in xs
  {
    forall x ensures x in SortBy(xs, key) <==> x in xs {
      assert x in SortBy(xs, key) <==> x in multiset(SortBy(xs, key));
      assert x in xs <==> x in multiset(xs);
    }
  }

  /** Every earlier entry is related to every later one. */
  ghost predicate Pairwise<T(!new)>(xs: seq<T>, related: (T, T) -> bool) {
    forall i, j :: 0 <= i < j < |xs| ==> related(xs[i], xs[j])
  }

  /** A smaller key comes first; entries with equal keys keep the order they had. */
  ghost function ThenBy<T(!new)>(key: T -> int, tie: (T, T) -> bool): (T, T) -> bool {
    (x, y) => key(x) < key(y) || (key(x) == key(y) && tie(x, y))
  }

  lemma {:induction false} InsertPairwise<T(!new)>(x: T, xs: seq<T>, key: T -> int, tie: (T, T) -> bool)
    requires Pairwise(xs, ThenBy(key, tie))
    requires forall y :: y in xs ==> tie(x, y)
    ensures Pairwise(Insert(x, xs, key), ThenBy(key, tie))
  {
    var result := Insert(x, xs, key);
    if xs == [] {
    } else if key(x) <= key(xs[0]) {
      forall j | 1 <= j < |result| ensures ThenBy(key, tie)(result[0], result[j]) {
        assert result[j] == xs[j - 1];
        assert result[j] in xs;
      }
    } else {
      var rest := Insert(x, xs[1..], key);
      InsertPairwise(x, xs[1..], key, tie);
      InsertEntries(x, xs[1..], key);
      forall j | 1 <= j < |result| ensures ThenBy(key, tie)(result[0], result[j]) {
        assert result[j] in multiset(rest);
        if result[j] != x {
          assert result[j] in multiset(xs[1..]);
          var k :| 1 <= k < |xs| && xs[k] == result[j];
        }
      }
    }
  }

  /** Stability: sorting a list that is ordered by `tie` orders it by the key first and by `tie` second. */
  lemma {:induction false} SortIsStable<T(!new)>(xs: seq<T>, key: T -> int, tie: (T, T) -> bool)
    requires Pairwise(xs, tie)
    ensures Pairwise(SortBy(xs, key), ThenBy(key, tie))
  {
    if xs == [] {
    } else {
      SortIsStable(xs[1..], key, tie);
      SortMembers(xs[1..], key);
      InsertPairwise(xs[0], SortBy(xs[1..], key), key, tie);
    }
  }

  lemma SortOrders<T(!new)>(xs: seq<T>, key: T -> int)
    ensures forall i, j :: 0 <= i < j < |xs| ==> key(SortBy(xs, key)[i]) <= key(SortBy(xs, key)[j])
  {
    SortIsStable(xs, key, (x, y) => true);
  }

  lemma {:induction false} InsertKeepsPairs<T(!new)>(x: T, xs: seq<T>, key: T -> int, related: (T, T) -> bool)
    requires forall a, b :: related(a, b) ==> related(b, a)
    requires Pairwise(xs, related) && forall y :: y in xs ==> related(x, y)
    ensures Pairwise(Insert(x, xs, key), related)
  {
    if xs == [] || key(x) <= key(xs[0]) {
    } else {
      var rest := Insert(x, xs[1..], key);
      InsertKeepsPairs(x, xs[1..], key, related);
      InsertEntries(x, xs[1..], key);
      forall j | 0 <= j < |rest| ensures related(xs[0], rest[j]) {
        assert rest[j] in multiset(rest);
        if rest[j] != x {
          assert rest[j] in multiset(xs[1..]);
          var k :| 1 <= k < |xs| && xs[k] == rest[j];
        }
      }
    }
  }

  /** A symmetric relation between every two entries survives sorting. */
  lemma {:induction false} SortKeepsPairs<T(!new)>(xs: seq<T>, key: T -> int, related: (T, T) -> bool)
    requires forall a, b :: related(a, b) ==> related(b, a)
    requires Pairwise(xs, related)
    ensures Pairwise(SortBy(xs, key), related)
  {
    if xs == [] {
    } else {
      SortKeepsPairs(xs[1..], key, related);
      SortMembers(xs[1..], key);
      InsertKeepsPairs(xs[0], SortBy(xs[1..], key), key, related);
    }
  }

  /** Sorting leaves a list alone that already has ascending keys. */
  lemma {:induction false} SortOfSorted<T>(xs: seq<T>, key: T -> int)
    requires forall i, j :: 0 <= i < j < |xs| ==> key(xs[i]) <= key(xs[j])
    ensures SortBy(xs, key) == xs
  {
    if xs == [] {
    } else {
      SortOfSorted(xs[1..], key);
    }
  }

  /** One step of the in-place insertion: the carried entry moves past a smaller neighbour. */
  lemma InsertStep<T>(front: seq<T>, x: T, rest: seq<T>, key: T -> int)
    requires rest != [] && key(rest[0]) < key(x)
    ensures front + Insert(x, rest, key) == (front + [rest[0]]) + Insert(x, rest[1..], key)
  {
  }

  lemma InsertHere<T>(x: T, rest: seq<T>, key: T -> int)
    requires rest == [] || key(x) <= key(rest[0])
    ensures Insert(x, rest, key) == [x] + rest
  {
  }

  method Exchange<T>(a: array<T>, j: nat)
    requires j + 1 < a.Length
    modifies a
    ensures a[..j + 1] == old(a[..j] + [a[j + 1]]) && a[j + 1] == old(a[j]) && a[j + 2..] == old(a[j + 2..])
  {
    a[j], a[j + 1] := a[j + 1], a[j];
  }

  /** Carries `a[at]` to its place in the sorted part behind it. */
  method InsertInPlace<T>(a: array<T>, at: nat, key: T -> int)
    requires at < a.Length
    modifies a
    ensures a[..] == old(a[..at] + Insert(a[at], a[at + 1..], key))
  {
    ghost var x, goal := a[at], a[..at] + Insert(a[at], a[at + 1..], key);
    var j := at;
    while j + 1 < a.Length && key(a[j + 1]) < key(a[j])
      invariant at <= j < a.Length && a[j] == x
      invariant goal == a[..j] + Insert(x, a[j + 1..], key)
      decreases a.Length - j
    {
      InsertStep(a[..j], x, a[j + 1..], key);
      assert a[j + 1..][1..] == a[j + 2..];
      Exchange(a, j);
      j := j + 1;
    }
    InsertHere(x, a[j + 1..], key);
    assert a[..] == a[..j] + ([x] + a[j + 1..]);
  }

  /** The same sort, in place, by the insertions of `SortBy`. */
  method SortInPlace<T>(a: array<T>, key: T -> int)
    modifies a
    ensures a[..] == SortBy(old(a[..]), key)
  {
    ghost var was := a[..];
    var i := a.Length;
    while i > 0
      invariant 0 <= i <= a.Length == |was|
      invariant a[..] == was[..i] + SortBy(was[i..], key)
    {
      i := i - 1;
      assert was[i..][0] == was[i] && was[i..][1..] == was[i + 1..];
      assert a[..][i] == was[i] && a[..][..i] == was[..i] && a[..][i + 1..] == SortBy(was[i + 1..], key);
      InsertInPlace(a, i, key);
    }
  }
}
