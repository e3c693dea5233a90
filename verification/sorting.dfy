/**
  The standard library's sort, as an insertion sort over values: what the
  modelled code relies on is that the result is ordered and is a permutation.
 */
module Sorting {

  /** less is a strict weak order on the elements of s. */
  ghost predicate Orders<T(!new)>(less: (T, T) -> bool, s: seq<T>) {
    && (forall x, y :: x in s && y in s && less(x, y) ==> !less(y, x))
    && (forall x, y, z :: x in s && y in s && z in s && !less(x, y) && !less(y, z) ==> !less(x, z))
  }

  ghost predicate Sorted<T>(less: (T, T) -> bool, s: seq<T>) {
    forall i, j :: 0 <= i < j < |s| ==> !less(s[j], s[i])
  }

  function Insert<T>(less: (T, T) -> bool, x: T, s: seq<T>): (r: seq<T>)
    ensures |r| == |s| + 1
  {
    if s == [] || !less(x, s[|s| - 1]) then s + [x]
    else Insert(less, x, s[..|s| - 1]) + [s[|s| - 1]]
  }

  function Sort<T>(less: (T, T) -> bool, s: seq<T>): (r: seq<T>)
    ensures |r| == |s|
  {
    if s == [] then [] else Insert(less, s[|s| - 1], Sort(less, s[..|s| - 1]))
  }

  lemma {:induction false} InsertIsPermutation<T>(less: (T, T) -> bool, x: T, s: seq<T>)
    ensures multiset(Insert(less, x, s)) == multiset(s) + multiset{x}
  {
    if !(s == [] || !less(x, s[|s| - 1])) {
      InsertIsPermutation(less, x, s[..|s| - 1]);
      assert s == s[..|s| - 1] + [s[|s| - 1]];
    }
  }

  lemma {:induction false} SortIsPermutation<T>(less: (T, T) -> bool, s: seq<T>)
    ensures multiset(Sort(less, s)) == multiset(s)
    ensures forall x :: x in Sort(less, s) <==> x in s
  {
    if s != [] {
      SortIsPermutation(less, s[..|s| - 1]);
      InsertIsPermutation(less, s[|s| - 1], Sort(less, s[..|s| - 1]));
      assert s == s[..|s| - 1] + [s[|s| - 1]];
    }
    forall x ensures x in Sort(less, s) <==> x in s {
      assert x in Sort(less, s) <==> x in multiset(Sort(less, s));
      assert x in s <==> x in multiset(s);
    }
  }

  lemma {:induction false} InsertKeepsOrder<T(!new)>(less: (T, T) -> bool, x: T, s: seq<T>)
    requires Orders(less, s + [x]) && Sorted(less, s)
    ensures Sorted(less, Insert(less, x, s))
  {
    if s == [] {
    } else {
      var last := s[|s| - 1];
      assert forall y :: y in s ==> y in s + [x];
      assert x in s + [x];
      if less(x, last) {
        var front := s[..|s| - 1];
        InsertKeepsOrder(less, x, front);
        InsertIsPermutation(less, x, front);
        var r := Insert(less, x, front);
        forall i | 0 <= i < |r| ensures !less(last, r[i]) {
          assert r[i] in multiset(r);
          assert r[i] == x || r[i] in front;
        }
      }
    }
  }

  lemma {:induction false} SortIsSorted<T(!new)>(less: (T, T) -> bool, s: seq<T>)
    requires Orders(less, s)
    ensures Sorted(less, Sort(less, s))
  {
    if s != [] {
      var front := s[..|s| - 1];
      SortIsSorted(less, front);
      SortIsPermutation(less, front);
      assert forall y :: y in Sort(less, front) + [s[|s| - 1]] ==> y in s;
      InsertKeepsOrder(less, s[|s| - 1], Sort(less, front));
    }
  }

  /** Every element stands once. */
  predicate Distinct<T(==)>(s: seq<T>) {
    forall i, j :: 0 <= i < j < |s| ==> s[i] != s[j]
  }

  lemma {:induction false} DistinctIsMultiplicity<T>(s: seq<T>)
    ensures Distinct(s) <==> forall x :: multiset(s)[x] <= 1
  {
    if s != [] {
      var k := |s| - 1;
      assert s == s[..k] + [s[k]];
      DistinctIsMultiplicity(s[..k]);
      if Distinct(s) {
        forall i | 0 <= i < k ensures s[..k][i] != s[k] {
        }
        assert multiset(s[..k])[s[k]] == 0;
      }
      if forall x :: multiset(s)[x] <= 1 {
        forall x ensures multiset(s[..k])[x] <= 1 {
          assert multiset(s)[x] <= 1;
        }
        assert multiset(s)[s[k]] <= 1;
        assert s[k] !in multiset(s[..k]);
      }
    }
  }
}
