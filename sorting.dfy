/**
 * `std::sort` with a comparator that orders by one numeric key. The
 * library's algorithm is not part of this model: `SortBy` is a stable
 * insertion sort, and what callers may rely on is that its result is a
 * sorted permutation of its input.
 */
module Sorting {

  predicate SortedBy<T>(s: seq<T>, key: T -> real) {
    forall i, j :: 0 <= i < j < |s| ==> key(s[i]) <= key(s[j])
  }

  /** Place `x` after every element whose key is not larger. */
  function Insert<T>(x: T, s: seq<T>, key: T -> real): (r: seq<T>)
    requires SortedBy(s, key)
    ensures SortedBy(r, key)
    ensures multiset(r) == multiset(s) + multiset{x}
    ensures |r| == |s| + 1
  {
    if |s| == 0 then [x]
    else if key(s[|s| - 1]) <= key(x) then s + [x]
    else
      var front := s[..|s| - 1];
      assert s == front + [s[|s| - 1]];
      var r' := Insert(x, front, key);
      assert forall i :: 0 <= i < |r'| ==> key(r'[i]) <= key(s[|s| - 1]) by {
        forall i | 0 <= i < |r'| ensures key(r'[i]) <= key(s[|s| - 1]) {
          assert r'[i] in multiset(r');
          assert r'[i] in multiset(front) || r'[i] == x;
        }
      }
      r' + [s[|s| - 1]]
  }

  /** A sorted permutation of `s` by ascending key. */
  function SortBy<T>(s: seq<T>, key: T -> real): (r: seq<T>)
    ensures SortedBy(r, key)
    ensures multiset(r) == multiset(s)
    ensures |r| == |s|
  {
    if |s| == 0 then []
    else
      assert s == s[..|s| - 1] + [s[|s| - 1]];
      Insert(s[|s| - 1], SortBy(s[..|s| - 1], key), key)
  }

  /** The first element of a sorted permutation has the least key. */
  lemma SortedHeadIsLeast<T>(s: seq<T>, r: seq<T>, key: T -> real)
    requires SortedBy(r, key) && multiset(r) == multiset(s) && |r| > 0
    ensures forall x :: x in s ==> key(r[0]) <= key(x)
  {
    forall x | x in s ensures key(r[0]) <= key(x) {
      assert x in multiset(r);
      var i :| 0 <= i < |r| && r[i] == x;
    }
  }

  function Id(x: real): real { x }

  /** Taking the same element out of two equal multisets leaves equal multisets. */
  lemma RemoveMatching<T>(a': seq<T>, l: seq<T>, x: T, r: seq<T>, m: multiset<T>)
    requires multiset(a' + [x]) == m && multiset(l + [x] + r) == m
    ensures multiset(a') == multiset(l + r)
  {
    assert multiset(a' + [x]) == multiset(a') + multiset{x};
    assert multiset(l + [x] + r) == multiset(l) + multiset{x} + multiset(r);
    assert multiset(a') == m - multiset{x};
    assert multiset(l + r) == multiset(l) + multiset(r) == m - multiset{x};
  }
}
