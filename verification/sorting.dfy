/**
 * Python's `sorted` over a list whose `<` is given as `less`. `sorted` is a stable merge sort;
 * it is modelled by an insertion sort, which is stable too and, for an order that is a strict
 * total order on the elements present, yields the one sorted permutation there is.
 */
module Sorting {

  /** No element is `less` than one before it. */
  predicate Sorted<T>(s: seq<T>, less: (T, T) -> bool)
  {
    forall i, j :: 0 <= i < j < |s| ==> !less(s[j], s[i])
  }

  /** `less` is irreflexive, transitive and total on `elems`. */
  ghost predicate StrictTotalOn<T>(less: (T, T) -> bool, elems: set<T>)
  {
    && (forall x :: x in elems ==> !less(x, x))
    && (forall x, y, z :: x in elems && y in elems && z in elems && less(x, y) && less(y, z) ==> less(x, z))
    && (forall x, y :: x in elems && y in elems && x != y ==> less(x, y) || less(y, x))
  }

  ghost function Elems<T>(s: seq<T>): set<T>
  {
    set x | x in s
  }

  /** Puts `x` in front of the first element of `s` that is not `less` than it. */
  function Insert<T>(x: T, s: seq<T>, less: (T, T) -> bool): (r: seq<T>)
    ensures multiset(r) == multiset(s) + multiset{x}
  {
    if s == [] then [x]
    else if less(s[0], x) then
      assert s == [s[0]] + s[1..];
      [s[0]] + Insert(x, s[1..], less)
    else [x] + s
  }

  /** `sorted(s)`: a permutation of `s`. */
  function Sort<T>(s: seq<T>, less: (T, T) -> bool): (r: seq<T>)
    ensures multiset(r) == multiset(s)
  {
    if s == [] then []
    else
      assert s == [s[0]] + s[1..];
      Insert(s[0], Sort(s[1..], less), less)
  }

  lemma {:induction false} InsertSorted<T>(x: T, s: seq<T>, less: (T, T) -> bool)
    requires Sorted(s, less)
    requires StrictTotalOn(less, Elems(s) + {x})
    ensures Sorted(Insert(x, s, less), less)
  {
    var r := Insert(x, s, less);
    if s == [] {
    } else if less(s[0], x) {
      var t := s[1..];
      assert Elems(t) + {x} <= Elems(s) + {x};
      InsertSorted(x, t, less);
      var rest := Insert(x, t, less);
      assert r == [s[0]] + rest;
      forall j | 0 < j < |r|
        ensures !less(r[j], s[0])
      {
        assert r[j] in multiset(rest);
        assert r[j] in multiset(t) || r[j] == x;
        if r[j] != x {
          var k :| 0 <= k < |t| && t[k] == r[j];
          assert s[k + 1] == r[j];
        }
      }
    } else {
      assert r == [x] + s;
      forall k | 0 <= k < |s|
        ensures !less(s[k], x)
      {
        if k > 0 && s[k] != s[0] {
          assert s[k] in Elems(s) && s[0] in Elems(s);
        }
      }
    }
  }

  /** Under a strict total order, `sorted` does sort. */
  lemma {:induction false} SortSorted<T>(s: seq<T>, less: (T, T) -> bool)
    requires StrictTotalOn(less, Elems(s))
    ensures Sorted(Sort(s, less), less)
  {
    if s != [] {
      var t := s[1..];
      assert Elems(t) <= Elems(s);
      SortSorted(t, less);
      var st := Sort(t, less);
      assert Elems(st) == Elems(t) by {
        forall y ensures y in st <==> y in t {
          assert y in st <==> y in multiset(st);
          assert y in t <==> y in multiset(t);
        }
      }
      assert Elems(st) + {s[0]} == Elems(s);
      InsertSorted(s[0], st, less);
    }
  }

  /** `SortSorted` for callers that cannot require totality. */
  lemma SortSortedIfTotal<T>(s: seq<T>, less: (T, T) -> bool)
    ensures StrictTotalOn(less, Elems(s)) ==> Sorted(Sort(s, less), less)
  {
    if StrictTotalOn(less, Elems(s)) {
      SortSorted(s, less);
    }
  }

  /** The first elements of two sorted permutations agree. */
  lemma SortedHeads<T>(a: seq<T>, b: seq<T>, less: (T, T) -> bool)
    requires a != [] && Sorted(a, less) && Sorted(b, less)
    requires multiset(a) == multiset(b)
    requires StrictTotalOn(less, Elems(a))
    ensures b != [] && a[0] == b[0]
  {
    assert a[0] in multiset(b);
    assert b[0] in multiset(a);
    var i :| 0 <= i < |a| && a[i] == b[0];
    var j :| 0 <= j < |b| && b[j] == a[0];
    assert a[0] in Elems(a) && b[0] in Elems(a);
  }

  /**
   * Two sorted permutations of the same elements are the same sequence, when `less` is total on
   * those elements: the sorted order does not depend on the order of the input.
   */
  lemma {:induction false} SortedUnique<T>(a: seq<T>, b: seq<T>, less: (T, T) -> bool)
    requires Sorted(a, less) && Sorted(b, less)
    requires multiset(a) == multiset(b)
    requires StrictTotalOn(less, Elems(a))
    ensures a == b
  {
    if a != [] {
      SortedHeads(a, b, less);
      var a', b' := a[1..], b[1..];
      assert a == [a[0]] + a' && b == [b[0]] + b';
      calc {
        multiset(a');
        multiset(a) - multiset{a[0]};
        multiset(b) - multiset{b[0]};
        multiset(b');
      }
      assert Elems(a') <= Elems(a);
      assert Sorted(a', less) && Sorted(b', less);
      SortedUnique(a', b', less);
    }
  }

  /** Sorting two permutations of the same elements gives one result. */
  lemma SortPermutationInvariant<T>(a: seq<T>, b: seq<T>, less: (T, T) -> bool)
    requires multiset(a) == multiset(b)
    requires StrictTotalOn(less, Elems(a))
    ensures Sort(a, less) == Sort(b, less)
  {
    assert Elems(b) == Elems(a) by {
      forall y ensures y in a <==> y in b {
        assert y in a <==> y in multiset(a);
        assert y in b <==> y in multiset(b);
      }
    }
    SortSorted(a, less);
    SortSorted(b, less);
    var sa := Sort(a, less);
    assert Elems(sa) == Elems(a) by {
      forall y ensures y in sa <==> y in a {
        assert y in sa <==> y in multiset(sa);
        assert y in a <==> y in multiset(a);
      }
    }
    SortedUnique(sa, Sort(b, less), less);
  }
}
