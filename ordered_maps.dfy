/**
 * The key order of `std::map<std::string, ...>`: `std::string::operator<`,
 * the lexicographic order on characters. Loops over such a map visit the
 * keys in this order, which `SortedKeys` describes.
 */
module OrderedMaps {

  /** `a < b` for std::string. */
  predicate StrLt(a: string, b: string) {
    if |a| == 0 then |b| > 0
    else if |b| == 0 then false
    else if a[0] != b[0] then a[0] < b[0]
    else StrLt(a[1..], b[1..])
  }

  lemma {:induction false} StrLtIrreflexive(a: string)
    ensures !StrLt(a, a)
  {
    if |a| > 0 { StrLtIrreflexive(a[1..]); }
  }

  lemma {:induction false} StrLtAsymmetric(a: string, b: string)
    ensures !(StrLt(a, b) && StrLt(b, a))
  {
    if |a| > 0 && |b| > 0 && a[0] == b[0] { StrLtAsymmetric(a[1..], b[1..]); }
  }

  lemma {:induction false} StrLtTransitive(a: string, b: string, c: string)
    requires StrLt(a, b) && StrLt(b, c)
    ensures StrLt(a, c)
  {
    if |a| > 0 && a[0] == b[0] && b[0] == c[0] { StrLtTransitive(a[1..], b[1..], c[1..]); }
  }

  lemma {:induction false} StrLtTotal(a: string, b: string)
    ensures a == b || StrLt(a, b) || StrLt(b, a)
  {
    if |a| > 0 && |b| > 0 && a[0] == b[0] {
      StrLtTotal(a[1..], b[1..]);
      if a[1..] == b[1..] { assert a == [a[0]] + a[1..] && b == [b[0]] + b[1..]; }
    }
  }

  /** `k` is the smallest key of `s`. */
  predicate IsLeast(k: string, s: set<string>) {
    k in s && forall x :: x in s && x != k ==> StrLt(k, x)
  }

  lemma {:induction false} LeastExists(s: set<string>)
    requires s != {}
    ensures exists k :: IsLeast(k, s)
    decreases |s|
  {
    var x :| x in s;
    if s != {x} {
      LeastExists(s - {x});
      var m :| IsLeast(m, s - {x});
      StrLtTotal(x, m);
      if StrLt(x, m) {
        forall y | y in s && y != x ensures StrLt(x, y) {
          if y != m { StrLtTransitive(x, m, y); }
        }
        assert IsLeast(x, s);
      } else {
        assert IsLeast(m, s);
      }
    } else {
      assert IsLeast(x, s);
    }
  }

  lemma LeastUnique(k: string, m: string, s: set<string>)
    requires IsLeast(k, s) && IsLeast(m, s)
    ensures k == m
  {
    if k != m { StrLtAsymmetric(k, m); }
  }

  /** The smallest key of a non-empty key set. */
  ghost function MinKey(s: set<string>): (k: string)
    requires s != {}
    ensures IsLeast(k, s)
  {
    LeastExists(s);
    var k :| IsLeast(k, s); k
  }

  predicate StrictlySorted(ks: seq<string>) {
    forall i, j :: 0 <= i < j < |ks| ==> StrLt(ks[i], ks[j])
  }

  /** The keys of `s` in the order a std::map iterator visits them. */
  ghost function SortedKeys(s: set<string>): (ks: seq<string>)
    ensures |ks| == |s|
    ensures forall k :: k in ks <==> k in s
    ensures StrictlySorted(ks)
    decreases |s|
  {
    if s == {} then []
    else
      var k := MinKey(s);
      var rest := SortedKeys(s - {k});
      assert forall j :: 0 <= j < |rest| ==> StrLt(k, rest[j]) by {
        forall j | 0 <= j < |rest| ensures StrLt(k, rest[j]) { assert rest[j] in s - {k}; }
      }
      [k] + rest
  }

  /** A std::map loop takes the least remaining key next. */
  lemma SortedKeysUnfold(s: set<string>, k: string)
    requires IsLeast(k, s)
    ensures SortedKeys(s) == [k] + SortedKeys(s - {k})
  {
    LeastUnique(k, MinKey(s), s);
  }

  /** No key occurs twice. */
  predicate Distinct<T(==)>(ks: seq<T>) {
    forall i, j :: 0 <= i < j < |ks| ==> ks[i] != ks[j]
  }

  lemma SortedDistinct(ks: seq<string>)
    requires StrictlySorted(ks)
    ensures Distinct(ks)
  {
    forall i, j | 0 <= i < j < |ks| ensures ks[i] != ks[j] {
      StrLtIrreflexive(ks[i]);
    }
  }

  /** Visiting the least remaining key keeps the visited keys a prefix of the key order. */
  lemma VisitLeast(done: seq<string>, remaining: set<string>, all: set<string>, m: string)
    requires done + SortedKeys(remaining) == SortedKeys(all) && IsLeast(m, remaining)
    ensures (done + [m]) + SortedKeys(remaining - {m}) == SortedKeys(all)
  {
    SortedKeysUnfold(remaining, m);
    assert done + ([m] + SortedKeys(remaining - {m})) == (done + [m]) + SortedKeys(remaining - {m});
  }

  /** The keys a sequence holds. */
  function Elements<T>(ks: seq<T>): set<T> {
    set k | k in ks
  }

  /** Dropping the last key of a duplicate-free sequence. */
  lemma DistinctFront<T>(ks: seq<T>)
    requires Distinct(ks) && |ks| > 0
    ensures Distinct(ks[..|ks| - 1])
    ensures ks[|ks| - 1] !in ks[..|ks| - 1]
    ensures Elements(ks) == Elements(ks[..|ks| - 1]) + {ks[|ks| - 1]}
  {
    var front := ks[..|ks| - 1];
    forall i | 0 <= i < |front| ensures front[i] != ks[|ks| - 1] { assert front[i] == ks[i]; }
    assert ks == front + [ks[|ks| - 1]];
  }

  /** The keys of a std::map in iteration order, taking the least remaining key each time. */
  method KeyList(s: set<string>) returns (ks: seq<string>)
    ensures ks == SortedKeys(s)
  {
    ks := [];
    var remaining := s;
    while remaining != {}
      invariant ks + SortedKeys(remaining) == SortedKeys(s)
      decreases |remaining|
    {
      LeastExists(remaining);
      var m :| IsLeast(m, remaining);
      VisitLeast(ks, remaining, s, m);
      ks := ks + [m];
      remaining := remaining - {m};
    }
  }

  /** The same iteration, for a loop that only needs each key once. */
  method KeyEnumeration(s: set<string>) returns (ks: seq<string>)
    ensures Distinct(ks) && forall k :: k in ks <==> k in s
  {
    ks := KeyList(s);
    SortedDistinct(ks);
  }
}
