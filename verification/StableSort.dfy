/** Sorting as the languages' own `sorted` and `sort` do it: in order, and what is
    level stays in the order it came in. */
module StableSort {

  /** Before everything that it is not after. */
  function Placed<T>(x: T, sorted: seq<T>, notAfter: (T, T) -> bool): seq<T> {
    if sorted == [] || notAfter(x, sorted[0]) then [x] + sorted
    else [sorted[0]] + Placed(x, sorted[1..], notAfter)
  }

  function Sorted<T>(xs: seq<T>, notAfter: (T, T) -> bool): seq<T> {
    if xs == [] then [] else Placed(xs[0], Sorted(xs[1..], notAfter), notAfter)
  }

  function Only<T>(xs: seq<T>, keep: T -> bool): seq<T> {
    if xs == [] then [] else (if keep(xs[0]) then [xs[0]] else []) + Only(xs[1..], keep)
  }

  predicate InOrder<T>(xs: seq<T>, notAfter: (T, T) -> bool) {
    forall i, j :: 0 <= i < j < |xs| ==> notAfter(xs[i], xs[j])
  }

  ghost predicate IsOrder<T(!new)>(notAfter: (T, T) -> bool) {
    && (forall a, b :: notAfter(a, b) || notAfter(b, a))
    && (forall a, b, c :: notAfter(a, b) && notAfter(b, c) ==> notAfter(a, c))
  }

  lemma {:induction false} InPlaced<T>(x: T, sorted: seq<T>, notAfter: (T, T) -> bool, y: T)
    ensures y in Placed(x, sorted, notAfter) <==> y == x || y in sorted
  {
    if sorted != [] {
      InPlaced(x, sorted[1..], notAfter, y);
      assert y in sorted <==> y == sorted[0] || y in sorted[1..];
    }
  }

  lemma {:induction false} InSorted<T>(xs: seq<T>, notAfter: (T, T) -> bool, y: T)
    ensures y in Sorted(xs, notAfter) <==> y in xs
  {
    if xs != [] {
      InSorted(xs[1..], notAfter, y);
      InPlaced(xs[0], Sorted(xs[1..], notAfter), notAfter, y);
      assert y in xs <==> y == xs[0] || y in xs[1..];
    }
  }

  lemma {:induction false} InOnly<T>(xs: seq<T>, keep: T -> bool, y: T)
    ensures y in Only(xs, keep) <==> y in xs && keep(y)
  {
    if xs != [] {
      InOnly(xs[1..], keep, y);
      assert y in xs <==> y == xs[0] || y in xs[1..];
    }
  }

  lemma {:induction false} PlacedInOrder<T(!new)>(x: T, sorted: seq<T>, notAfter: (T, T) -> bool)
    requires IsOrder(notAfter) && InOrder(sorted, notAfter)
    ensures InOrder(Placed(x, sorted, notAfter), notAfter)
  {
    if sorted != [] && !notAfter(x, sorted[0]) {
      var rest := Placed(x, sorted[1..], notAfter);
      PlacedInOrder(x, sorted[1..], notAfter);
      forall j | 0 <= j < |rest| ensures notAfter(sorted[0], rest[j]) {
        InPlaced(x, sorted[1..], notAfter, rest[j]);
      }
    }
  }

  lemma {:induction false} SortedInOrder<T(!new)>(xs: seq<T>, notAfter: (T, T) -> bool)
    requires IsOrder(notAfter)
    ensures InOrder(Sorted(xs, notAfter), notAfter)
  {
    if xs != [] {
      SortedInOrder(xs[1..], notAfter);
      PlacedInOrder(xs[0], Sorted(xs[1..], notAfter), notAfter);
    }
  }

  lemma {:induction false} PlacedIsAll<T>(x: T, sorted: seq<T>, notAfter: (T, T) -> bool)
    ensures multiset(Placed(x, sorted, notAfter)) == multiset{x} + multiset(sorted)
  {
    if sorted != [] && !notAfter(x, sorted[0]) {
      PlacedIsAll(x, sorted[1..], notAfter);
      assert sorted == [sorted[0]] + sorted[1..];
    }
  }

  lemma {:induction false} SortedIsAll<T>(xs: seq<T>, notAfter: (T, T) -> bool)
    ensures multiset(Sorted(xs, notAfter)) == multiset(xs)
  {
    if xs != [] {
      SortedIsAll(xs[1..], notAfter);
      PlacedIsAll(xs[0], Sorted(xs[1..], notAfter), notAfter);
      assert xs == [xs[0]] + xs[1..];
    }
  }

  predicate Distinct<T(==)>(xs: seq<T>) {
    forall i, j :: 0 <= i < j < |xs| ==> xs[i] != xs[j]
  }

  lemma {:induction false} PlacedDistinct<T>(x: T, sorted: seq<T>, notAfter: (T, T) -> bool)
    requires Distinct(sorted) && x !in sorted
    ensures Distinct(Placed(x, sorted, notAfter))
  {
    if sorted != [] && !notAfter(x, sorted[0]) {
      var rest := Placed(x, sorted[1..], notAfter);
      PlacedDistinct(x, sorted[1..], notAfter);
      forall j | 0 <= j < |rest| ensures rest[j] != sorted[0] {
        InPlaced(x, sorted[1..], notAfter, rest[j]);
      }
    }
  }

  lemma {:induction false} SortedDistinct<T>(xs: seq<T>, notAfter: (T, T) -> bool)
    requires Distinct(xs)
    ensures Distinct(Sorted(xs, notAfter))
  {
    if xs != [] {
      SortedDistinct(xs[1..], notAfter);
      InSorted(xs[1..], notAfter, xs[0]);
      PlacedDistinct(xs[0], Sorted(xs[1..], notAfter), notAfter);
    }
  }

  lemma {:induction false} OnlyOfPlaced<T(!new)>(x: T, sorted: seq<T>, notAfter: (T, T) -> bool, keep: T -> bool)
    requires IsOrder(notAfter) && InOrder(sorted, notAfter)
    ensures Only(Placed(x, sorted, notAfter), keep) ==
            if keep(x) then Placed(x, Only(sorted, keep), notAfter) else Only(sorted, keep)
  {
    if sorted == [] || notAfter(x, sorted[0]) {
      var kept := Only(sorted, keep);
      assert ([x] + sorted)[1..] == sorted;
      if kept != [] {
        InOnly(sorted, keep, kept[0]);
        var i :| 0 <= i < |sorted| && sorted[i] == kept[0];
      }
    } else {
      var rest, kept := Placed(x, sorted[1..], notAfter), Only(sorted[1..], keep);
      OnlyOfPlaced(x, sorted[1..], notAfter, keep);
      assert ([sorted[0]] + rest)[1..] == rest && ([sorted[0]] + kept)[1..] == kept;
      if keep(sorted[0]) {
        assert Only(sorted, keep) == [sorted[0]] + kept;
      } else {
        assert Only(sorted, keep) == kept;
      }
    }
  }

  /** Choosing and sorting may change places: what is chosen of a sorted list is
      what was chosen, sorted. */
  lemma {:induction false} OnlyOfSorted<T(!new)>(xs: seq<T>, notAfter: (T, T) -> bool, keep: T -> bool)
    requires IsOrder(notAfter)
    ensures Only(Sorted(xs, notAfter), keep) == Sorted(Only(xs, keep), notAfter)
  {
    if xs != [] {
      hide Placed, InOrder, IsOrder;
      var rest := Only(xs[1..], keep);
      SortedInOrder(xs[1..], notAfter);
      OnlyOfSorted(xs[1..], notAfter, keep);
      OnlyOfPlaced(xs[0], Sorted(xs[1..], notAfter), notAfter, keep);
      if keep(xs[0]) {
        assert Only(xs, keep) == [xs[0]] + rest && ([xs[0]] + rest)[1..] == rest;
      } else {
        assert Only(xs, keep) == rest;
      }
    }
  }

  /** A list in order is left as it is. */
  lemma {:induction false} SortedAlready<T>(xs: seq<T>, notAfter: (T, T) -> bool)
    requires InOrder(xs, notAfter)
    ensures Sorted(xs, notAfter) == xs
  {
    if xs != [] {
      SortedAlready(xs[1..], notAfter);
      assert xs == [xs[0]] + xs[1..];
    }
  }
}
