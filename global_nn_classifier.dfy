/**
 * The category vote at the end of `GlobalNNPipeline::classify`
 * (global_nn_classifier.hpp:84-172). The descriptor, the FLANN search and
 * the models' files are not modelled: the search result arrives as a list
 * of (model index, distance) pairs, and each FLANN model is known only by
 * its category name.
 */
module GlobalNNClassifier {
  import Sorting
  import OrderedMaps

  /** `index_score` with the fields the vote uses. */
  datatype IndexScore = IndexScore(idxModels: nat, score: real)

  /** `index_score` as the ranking of categories fills it: a name and a share of the votes. */
  datatype CategoryScore = CategoryScore(name: string, score: real)

  /** `sortIndexScoresOp`: nearest (lowest distance) first. */
  function Score(s: IndexScore): real { s.score }

  /** `sortIndexScoresOpDesc`: highest share first. */
  function NegShare(c: CategoryScore): real { -c.score }

  predicate IndicesIn(ns: seq<IndexScore>, nModels: nat) {
    forall i :: 0 <= i < |ns| ==> ns[i].idxModels < nModels
  }

  /** The category of each neighbour. */
  function ClassesOf(classOf: seq<string>, ns: seq<IndexScore>): (r: seq<string>)
    requires IndicesIn(ns, |classOf|)
    ensures |r| == |ns| && forall i :: 0 <= i < |ns| ==> r[i] == classOf[ns[i].idxModels]
  {
    seq(|ns|, i requires 0 <= i < |ns| => classOf[ns[i].idxModels])
  }

  /** `category_map` after counting one vote per entry of `cats`, in order. */
  function Votes(cats: seq<string>): (v: map<string, nat>)
    ensures forall c :: c in v <==> c in cats
  {
    if |cats| == 0 then map[]
    else
      var v := Votes(cats[..|cats| - 1]);
      var c := cats[|cats| - 1];
      assert cats == cats[..|cats| - 1] + [c];
      v[c := if c in v then v[c] + 1 else 1]
  }

  /** A category's count is the number of votes cast for it. */
  lemma {:induction false} VotesCount(cats: seq<string>, c: string)
    requires c in cats
    ensures Votes(cats)[c] == multiset(cats)[c]
  {
    var front := cats[..|cats| - 1];
    assert cats == front + [cats[|cats| - 1]];
    if c in front {
      VotesCount(front, c);
    } else {
      assert multiset(front)[c] == 0;
    }
  }

  /** With `ks` the map's keys in iteration order: each category and its share of `numN` votes (lines 151-163). */
  function Shares(votes: map<string, nat>, ks: seq<string>, numN: nat): (r: seq<CategoryScore>)
    requires numN > 0 && forall k :: k in ks ==> k in votes
    ensures |r| == |ks| && forall i :: 0 <= i < |ks| ==> r[i] == CategoryScore(ks[i], votes[ks[i]] as real / numN as real)
  {
    seq(|ks|, i requires 0 <= i < |ks| => CategoryScore(ks[i], votes[ks[i]] as real / numN as real))
  }

  /** The categories sorted by decreasing share (line 165). */
  ghost function Ranking(votes: map<string, nat>, numN: nat): seq<CategoryScore>
    requires numN > 0
  {
    Sorting.SortBy(Shares(votes, OrderedMaps.SortedKeys(votes.Keys), numN), NegShare)
  }

  function Names(r: seq<CategoryScore>): (ns: seq<string>)
    ensures |ns| == |r| && forall i :: 0 <= i < |r| ==> ns[i] == r[i].name
  {
    seq(|r|, i requires 0 <= i < |r| => r[i].name)
  }

  function Confidences(r: seq<CategoryScore>): (cs: seq<real>)
    ensures |cs| == |r| && forall i :: 0 <= i < |r| ==> cs[i] == r[i].score
  {
    seq(|r|, i requires 0 <= i < |r| => r[i].score)
  }

  /** What `classify` leaves in `first_nn_category_`, `categories_` and `confidences_`. */
  datatype Outcome = Outcome(firstNN: string, categories: seq<string>, confidences: seq<real>)

  /** `num_n` (line 128). */
  function NumNeighbours(nn: nat, collected: nat): (n: nat)
    ensures n <= nn && n <= collected && (n == nn || n == collected)
  {
    if nn < collected then nn else collected
  }

  /**
   * `classify` as written: the vote inside the loop at lines 133-148 is
   * cast for `fm`, the nearest neighbour's category, on every iteration.
   */
  ghost function ClassifyAsWritten(classOf: seq<string>, neighbours: seq<IndexScore>): Outcome
    requires |neighbours| > 0 && IndicesIn(neighbours, |classOf|)
  {
    var sorted := Sorting.SortBy(neighbours, Score);
    assert sorted[0] in multiset(neighbours);
    var first := classOf[sorted[0].idxModels];
    var numN := NumNeighbours(|neighbours|, |sorted|);
    var ranking := Ranking(Votes(NCopies(first, numN)), numN);
    Outcome(first, Names(ranking), Confidences(ranking))
  }

  /** `classify` with each of the `num_n` nearest neighbours voting for its own category. */
  ghost function ClassifyOutcome(classOf: seq<string>, neighbours: seq<IndexScore>): Outcome
    requires |neighbours| > 0 && IndicesIn(neighbours, |classOf|)
  {
    var sorted := Sorting.SortBy(neighbours, Score);
    SortedIndicesIn(neighbours, sorted, |classOf|);
    var first := classOf[sorted[0].idxModels];
    var numN := NumNeighbours(|neighbours|, |sorted|);
    var ranking := Ranking(Votes(ClassesOf(classOf, sorted[..numN])), numN);
    Outcome(first, Names(ranking), Confidences(ranking))
  }

  lemma SortedIndicesIn(neighbours: seq<IndexScore>, sorted: seq<IndexScore>, nModels: nat)
    requires IndicesIn(neighbours, nModels) && multiset(sorted) == multiset(neighbours)
    ensures IndicesIn(sorted, nModels)
  {
    forall i | 0 <= i < |sorted| ensures sorted[i].idxModels < nModels {
      assert sorted[i] in multiset(neighbours);
    }
  }

  // ---------------------------------------------------------------------
  // Properties of the ranking
  // ---------------------------------------------------------------------

  /** No element occurs twice in a list with at most one copy of each. */
  lemma {:induction false} DistinctCounts<T>(a: seq<T>, x: T)
    requires OrderedMaps.Distinct(a)
    ensures multiset(a)[x] <= 1
  {
    if |a| > 0 {
      OrderedMaps.DistinctFront(a);
      DistinctCounts(a[..|a| - 1], x);
      assert a == a[..|a| - 1] + [a[|a| - 1]];
    }
  }

  /** A permutation of a duplicate-free list is duplicate-free. */
  lemma DistinctPermutation<T>(a: seq<T>, b: seq<T>)
    requires OrderedMaps.Distinct(a) && multiset(a) == multiset(b)
    ensures OrderedMaps.Distinct(b)
  {
    forall i, j | 0 <= i < j < |b| ensures b[i] != b[j] {
      if b[i] == b[j] {
        assert b == b[..i] + [b[i]] + b[i + 1..j] + [b[j]] + b[j + 1..];
        assert multiset(b)[b[i]] >= 2;
        DistinctCounts(a, b[i]);
      }
    }
  }

  /** The ranking names every category that received a vote, each once. */
  lemma RankingNames(votes: map<string, nat>, numN: nat)
    requires numN > 0
    ensures var r := Ranking(votes, numN);
      OrderedMaps.Distinct(Names(r)) && forall c :: c in Names(r) <==> c in votes
  {
    RankingEntries(votes, numN);
    RankingDistinct(votes, numN);
    RankingCovers(votes, numN);
  }

  lemma RankingDistinct(votes: map<string, nat>, numN: nat)
    requires numN > 0
    ensures OrderedMaps.Distinct(Ranking(votes, numN))
  {
    var ks := OrderedMaps.SortedKeys(votes.Keys);
    OrderedMaps.SortedDistinct(ks);
    var s := Shares(votes, ks, numN);
    assert OrderedMaps.Distinct(s);
    DistinctPermutation(s, Ranking(votes, numN));
  }

  lemma RankingCovers(votes: map<string, nat>, numN: nat)
    requires numN > 0
    ensures forall c :: c in votes ==> c in Names(Ranking(votes, numN))
  {
    var ks := OrderedMaps.SortedKeys(votes.Keys);
    var s := Shares(votes, ks, numN);
    var r := Ranking(votes, numN);
    forall c | c in votes ensures c in Names(r) {
      var k :| 0 <= k < |ks| && ks[k] == c;
      assert s[k] in multiset(r);
      var i :| 0 <= i < |r| && r[i] == s[k];
      assert Names(r)[i] == c;
    }
  }

  /**
   * Each ranked category's share is its number of votes divided by `numN`,
   * and the shares decrease along the ranking.
   */
  lemma RankingEntries(votes: map<string, nat>, numN: nat)
    requires numN > 0
    ensures var r := Ranking(votes, numN);
      && (forall i :: 0 <= i < |r| ==> r[i].name in votes && r[i].score == votes[r[i].name] as real / numN as real)
      && (forall i, j :: 0 <= i < j < |r| ==> r[i].score >= r[j].score)
  {
    var s := Shares(votes, OrderedMaps.SortedKeys(votes.Keys), numN);
    var r := Ranking(votes, numN);
    forall i | 0 <= i < |r|
      ensures r[i].name in votes && r[i].score == votes[r[i].name] as real / numN as real
    {
      assert r[i] in multiset(s);
    }
    assert forall i, j :: 0 <= i < j < |r| ==> NegShare(r[i]) <= NegShare(r[j]);
  }

  /** Permuting the neighbours permutes their categories. */
  lemma ClassesOfPermutation(classOf: seq<string>, a: seq<IndexScore>, b: seq<IndexScore>)
    requires IndicesIn(a, |classOf|) && IndicesIn(b, |classOf|) && multiset(a) == multiset(b)
    ensures multiset(ClassesOf(classOf, a)) == multiset(ClassesOf(classOf, b))
  {
    var f := ClassFn(classOf);
    MapPermutation(f, a, b);
    assert ClassesOf(classOf, a) == MapSeq(f, a);
    assert ClassesOf(classOf, b) == MapSeq(f, b);
  }

  function ClassFn(classOf: seq<string>): IndexScore -> string {
    (n: IndexScore) => if n.idxModels < |classOf| then classOf[n.idxModels] else ""
  }

  function MapSeq<T, U>(f: T -> U, s: seq<T>): (r: seq<U>)
    ensures |r| == |s| && forall i :: 0 <= i < |s| ==> r[i] == f(s[i])
  {
    seq(|s|, i requires 0 <= i < |s| => f(s[i]))
  }

  lemma MapSeqConcat<T, U>(f: T -> U, a: seq<T>, b: seq<T>)
    ensures MapSeq(f, a + b) == MapSeq(f, a) + MapSeq(f, b)
  {
    forall i | 0 <= i < |a + b| ensures MapSeq(f, a + b)[i] == (MapSeq(f, a) + MapSeq(f, b))[i] {
      if i < |a| { assert (a + b)[i] == a[i]; } else { assert (a + b)[i] == b[i - |a|]; }
    }
  }

  /** Mapping over a list with one element taken out and put back at the end. */
  lemma MapSeqSplit<T, U>(f: T -> U, l: seq<T>, x: T, r: seq<T>)
    ensures multiset(MapSeq(f, l + [x] + r)) == multiset(MapSeq(f, l + r)) + multiset{f(x)}
  {
    MapSeqConcat(f, l + [x], r);
    MapSeqConcat(f, l, [x]);
    MapSeqConcat(f, l, r);
  }

  /** Mapping a function over two permutations of a list gives two permutations. */
  lemma {:induction false} MapPermutation<T, U>(f: T -> U, a: seq<T>, b: seq<T>)
    requires multiset(a) == multiset(b)
    ensures multiset(MapSeq(f, a)) == multiset(MapSeq(f, b))
    decreases |a|
  {
    assert |b| == |a| by { assert |multiset(a)| == |multiset(b)|; }
    if |a| > 0 {
      var x := a[|a| - 1];
      var a' := a[..|a| - 1];
      assert a == a' + [x] && a == a' + [x] + [] && a' + [] == a';
      assert x in multiset(b);
      var j :| 0 <= j < |b| && b[j] == x;
      var left, right := b[..j], b[j + 1..];
      assert b == left + [x] + right;
      Sorting.RemoveMatching(a', left, x, right, multiset(a));
      MapPermutation(f, a', left + right);
      MapSeqSplit(f, a', x, []);
      MapSeqSplit(f, left, x, right);
    }
  }

  /** `first_nn_category_` is the category of a neighbour with the least distance (lines 121-123). */
  lemma FirstIsNearest(classOf: seq<string>, neighbours: seq<IndexScore>)
    requires |neighbours| > 0 && IndicesIn(neighbours, |classOf|)
    ensures exists i :: 0 <= i < |neighbours| && classOf[neighbours[i].idxModels] == ClassifyOutcome(classOf, neighbours).firstNN &&
              forall j :: 0 <= j < |neighbours| ==> neighbours[i].score <= neighbours[j].score
  {
    var sorted := Sorting.SortBy(neighbours, Score);
    Sorting.SortedHeadIsLeast(neighbours, sorted, Score);
    assert sorted[0] in multiset(neighbours);
    var i :| 0 <= i < |neighbours| && neighbours[i] == sorted[0];
    forall j | 0 <= j < |neighbours| ensures neighbours[i].score <= neighbours[j].score {
      assert neighbours[j] in neighbours;
    }
  }

  /**
   * The outcome ranks the votes of a permutation of the neighbours'
   * categories (all `num_n` of them, in distance order).
   */
  lemma ClassifyVotes(classOf: seq<string>, neighbours: seq<IndexScore>) returns (votedFor: seq<string>)
    requires |neighbours| > 0 && IndicesIn(neighbours, |classOf|)
    ensures multiset(votedFor) == multiset(ClassesOf(classOf, neighbours))
    ensures var o, r := ClassifyOutcome(classOf, neighbours), Ranking(Votes(votedFor), |neighbours|);
      o.categories == Names(r) && o.confidences == Confidences(r)
  {
    var sorted := Sorting.SortBy(neighbours, Score);
    SortedIndicesIn(neighbours, sorted, |classOf|);
    assert sorted[..|sorted|] == sorted;
    votedFor := ClassesOf(classOf, sorted);
    ClassesOfPermutation(classOf, sorted, neighbours);
  }

  /**
   * With each neighbour voting for its own category, the categories are
   * exactly those of the neighbours, each reported once, one confidence
   * per category.
   */
  lemma ClassifyCategories(classOf: seq<string>, neighbours: seq<IndexScore>)
    requires |neighbours| > 0 && IndicesIn(neighbours, |classOf|)
    ensures var o, cats := ClassifyOutcome(classOf, neighbours), ClassesOf(classOf, neighbours);
      && |o.categories| == |o.confidences|
      && OrderedMaps.Distinct(o.categories)
      && (forall c :: c in o.categories <==> c in cats)
  {
    var votedFor := ClassifyVotes(classOf, neighbours);
    RankingNames(Votes(votedFor), |neighbours|);
    forall c ensures c in votedFor <==> c in ClassesOf(classOf, neighbours) {
      assert c in votedFor <==> c in multiset(votedFor);
    }
  }

  /**
   * Each category's confidence is the share of neighbours in it, and the
   * confidences decrease.
   */
  lemma ClassifyConfidences(classOf: seq<string>, neighbours: seq<IndexScore>)
    requires |neighbours| > 0 && IndicesIn(neighbours, |classOf|)
    ensures var o, cats := ClassifyOutcome(classOf, neighbours), ClassesOf(classOf, neighbours);
      && |o.categories| == |o.confidences|
      && (forall i :: 0 <= i < |o.categories| ==>
            o.confidences[i] == multiset(cats)[o.categories[i]] as real / |neighbours| as real)
      && (forall i, j :: 0 <= i < j < |o.confidences| ==> o.confidences[i] >= o.confidences[j])
  {
    var votedFor := ClassifyVotes(classOf, neighbours);
    RankingEntries(Votes(votedFor), |neighbours|);
    var o := ClassifyOutcome(classOf, neighbours);
    forall i | 0 <= i < |o.categories|
      ensures o.confidences[i] == multiset(ClassesOf(classOf, neighbours))[o.categories[i]] as real / |neighbours| as real
    {
      VotesCount(votedFor, o.categories[i]);
    }
  }

  /**
   * As written, the result has the single category `first_nn_category_`
   * with confidence 1 (`num_n / num_n`), whatever the other neighbours'
   * categories are.
   */
  lemma AsWrittenSingleCategory(classOf: seq<string>, neighbours: seq<IndexScore>)
    requires |neighbours| > 0 && IndicesIn(neighbours, |classOf|)
    ensures var o := ClassifyAsWritten(classOf, neighbours);
      o.categories == [o.firstNN] && o.confidences == [1.0]
  {
    var sorted := Sorting.SortBy(neighbours, Score);
    assert sorted[0] in multiset(neighbours);
    var first := classOf[sorted[0].idxModels];
    assert NumNeighbours(|neighbours|, |sorted|) == |neighbours|;
    VotesNCopies(first, |neighbours|);
    RankingSingle(first, |neighbours|);
    assert Names([CategoryScore(first, 1.0)]) == [first];
    assert Confidences([CategoryScore(first, 1.0)]) == [1.0];
  }

  /**
   * When every neighbour has the same category, the vote as written and
   * the corrected vote coincide: casting each vote for the nearest
   * neighbour's category loses nothing.
   */
  lemma AsWrittenAgreesWhenUniform(classOf: seq<string>, neighbours: seq<IndexScore>, c: string)
    requires |neighbours| > 0 && IndicesIn(neighbours, |classOf|)
    requires forall i :: 0 <= i < |neighbours| ==> classOf[neighbours[i].idxModels] == c
    ensures ClassifyAsWritten(classOf, neighbours) == ClassifyOutcome(classOf, neighbours)
  {
    var sorted := Sorting.SortBy(neighbours, Score);
    SortedIndicesIn(neighbours, sorted, |classOf|);
    var numN := NumNeighbours(|neighbours|, |sorted|);
    forall i | 0 <= i < |sorted|
      ensures classOf[sorted[i].idxModels] == c
    {
      assert sorted[i] in multiset(neighbours);
      var j :| 0 <= j < |neighbours| && neighbours[j] == sorted[i];
    }
    var first := classOf[sorted[0].idxModels];
    assert ClassesOf(classOf, sorted[..numN]) == NCopies(first, numN);
  }

  /** `n` copies of `x`, the votes the loop at lines 133-148 casts. */
  function NCopies(x: string, n: nat): (r: seq<string>)
    ensures |r| == n && forall i :: 0 <= i < n ==> r[i] == x
  {
    if n == 0 then [] else NCopies(x, n - 1) + [x]
  }

  lemma {:induction false} VotesNCopies(x: string, n: nat)
    requires n > 0
    ensures Votes(NCopies(x, n)) == map[x := n]
  {
    if n > 1 {
      VotesNCopies(x, n - 1);
    }
  }

  /** A single category with all `n` votes is ranked alone with share 1. */
  lemma RankingSingle(x: string, n: nat)
    requires n > 0
    ensures Ranking(map[x := n], n) == [CategoryScore(x, 1.0)]
  {
    var votes := map[x := n];
    assert votes.Keys == {x};
    assert OrderedMaps.IsLeast(x, votes.Keys);
    OrderedMaps.SortedKeysUnfold(votes.Keys, x);
    assert votes.Keys - {x} == {};
    assert OrderedMaps.SortedKeys(votes.Keys) == [x];
    var share := n as real / n as real;
    assert share * n as real == n as real;
    assert share == 1.0;
    assert Shares(votes, [x], n) == [CategoryScore(x, 1.0)];
  }

  /**
   * Two neighbours of different categories show the difference: the
   * source reports only the nearest one's category, while both received
   * a neighbour.
   */
  lemma AsWrittenDropsSecondCategory()
    ensures var classOf, ns := ["mug", "bowl"], [IndexScore(0, 0.1), IndexScore(1, 0.2)];
      && ClassifyAsWritten(classOf, ns).categories == ["mug"]
      && "bowl" in ClassifyOutcome(classOf, ns).categories
  {
    var classOf, ns := ["mug", "bowl"], [IndexScore(0, 0.1), IndexScore(1, 0.2)];
    var sorted := Sorting.SortBy(ns, Score);
    Sorting.SortedHeadIsLeast(ns, sorted, Score);
    assert sorted[0] in multiset(ns);
    assert sorted[0] == IndexScore(0, 0.1);
    AsWrittenSingleCategory(classOf, ns);
    ClassifyCategories(classOf, ns);
    assert ClassesOf(classOf, ns)[1] == "bowl";
  }

  // ---------------------------------------------------------------------
  // The imperative pipeline
  // ---------------------------------------------------------------------

  /** The search result (`indices[0][i]`, `distances[0][i]`) for the first `nn` neighbours, in search order. */
  function Gathered(indices: seq<nat>, distances: seq<real>, nn: nat): (r: seq<IndexScore>)
    requires nn <= |indices| && nn <= |distances|
    ensures |r| == nn && forall i :: 0 <= i < nn ==> r[i] == IndexScore(indices[i], distances[i])
  {
    seq(nn, i requires 0 <= i < nn => IndexScore(indices[i], distances[i]))
  }

  /** The loop at lines 110-119. */
  method GatherScores(indices: seq<nat>, distances: seq<real>, nn: nat) returns (scores: seq<IndexScore>)
    requires nn <= |indices| && nn <= |distances|
    ensures scores == Gathered(indices, distances, nn)
  {
    scores := [];
    for i := 0 to nn
      invariant |scores| == i
      invariant forall j :: 0 <= j < i ==> scores[j] == IndexScore(indices[j], distances[j])
    {
      scores := scores + [IndexScore(indices[i], distances[i])];
    }
  }

  /** The map loop (lines 152-163) and the sort (line 165). */
  method RankCategories(votes: map<string, nat>, numN: nat) returns (final: seq<CategoryScore>)
    requires numN > 0
    ensures final == Ranking(votes, numN)
  {
    var ks := OrderedMaps.KeyList(votes.Keys);
    final := ScoreCategories(votes, ks, numN);
    final := Sorting.SortBy(final, NegShare);
  }

  /** Lines 121-171 on the gathered scores. */
  method ClassifyScores(classOf: seq<string>, scores: seq<IndexScore>) returns (o: Outcome)
    requires |scores| > 0 && IndicesIn(scores, |classOf|)
    ensures o == ClassifyOutcome(classOf, scores)
  {
    var sorted := Sorting.SortBy(scores, Score);
    SortedIndicesIn(scores, sorted, |classOf|);
    var first := classOf[sorted[0].idxModels];
    var numN := NumNeighbours(|scores|, |sorted|);
    var votes := TallyVotes(classOf, sorted, numN);
    var final := RankCategories(votes, numN);
    var categories, confidences := Unzip(final);
    o := Outcome(first, categories, confidences);
  }

  /** One more vote adds one to its category's count, or enters the category with count 1. */
  lemma VotesSnoc(cats: seq<string>, i: nat)
    requires i < |cats|
    ensures var v := Votes(cats[..i]);
      Votes(cats[..i + 1]) == v[cats[i] := if cats[i] in v then v[cats[i]] + 1 else 1]
  {
    assert cats[..i + 1][..i] == cats[..i];
  }

  /** The counting loop at lines 133-148, with each neighbour's own category. */
  method TallyVotes(classOf: seq<string>, sorted: seq<IndexScore>, numN: nat) returns (votes: map<string, nat>)
    requires numN <= |sorted| && IndicesIn(sorted, |classOf|)
    ensures votes == Votes(ClassesOf(classOf, sorted[..numN]))
  {
    ghost var cats := ClassesOf(classOf, sorted[..numN]);
    votes := map[];
    for i := 0 to numN
      invariant votes == Votes(cats[..i])
    {
      var cat := classOf[sorted[i].idxModels];
      VotesSnoc(cats, i);
      if cat !in votes {
        votes := votes[cat := 1];
      } else {
        votes := votes[cat := votes[cat] + 1];
      }
    }
    assert cats[..numN] == cats;
  }

  /** The loop at lines 152-163 over the keys `ks` in the map's order. */
  method ScoreCategories(votes: map<string, nat>, ks: seq<string>, numN: nat) returns (final: seq<CategoryScore>)
    requires numN > 0 && forall k :: k in ks ==> k in votes
    ensures final == Shares(votes, ks, numN)
  {
    final := [];
    for i := 0 to |ks|
      invariant final == Shares(votes, ks[..i], numN)
    {
      final := final + [CategoryScore(ks[i], votes[ks[i]] as real / numN as real)];
    }
    assert ks[..|ks|] == ks;
  }

  /** The loop at lines 167-171. */
  method Unzip(final: seq<CategoryScore>) returns (categories: seq<string>, confidences: seq<real>)
    ensures categories == Names(final) && confidences == Confidences(final)
  {
    categories, confidences := [], [];
    for i := 0 to |final|
      invariant categories == Names(final[..i]) && confidences == Confidences(final[..i])
    {
      categories := categories + [final[i].name];
      confidences := confidences + [final[i].score];
    }
    assert final[..|final|] == final;
  }

  class GlobalNNPipeline {
    /** `NN_`: how many neighbours the search returns. */
    var nn: nat
    /** The category (`class_`) of each FLANN model. */
    var flannModelClasses: seq<string>
    var categories: seq<string>
    var confidences: seq<real>
    var firstNNCategory: string

    constructor (nn: nat, flannModelClasses: seq<string>)
      ensures this.nn == nn && this.flannModelClasses == flannModelClasses
      ensures categories == [] && confidences == [] && firstNNCategory == ""
    {
      this.nn := nn;
      this.flannModelClasses := flannModelClasses;
      categories, confidences, firstNNCategory := [], [], "";
    }

    /**
     * `classify` (lines 84-172) from the search result (`indices[i]`,
     * `distances[i]`). The results it reports replace the previous ones.
     */
    method Classify(indices: seq<nat>, distances: seq<real>)
      requires 0 < nn <= |indices| && nn <= |distances|
      requires forall i :: 0 <= i < nn ==> indices[i] < |flannModelClasses|
      modifies this
      ensures nn == old(nn) && flannModelClasses == old(flannModelClasses)
      ensures var o := ClassifyOutcome(flannModelClasses, Gathered(indices, distances, nn));
        firstNNCategory == o.firstNN && categories == o.categories && confidences == o.confidences
    {
      categories, confidences, firstNNCategory := [], [], "";
      var scores := GatherScores(indices, distances, nn);
      var o := ClassifyScores(flannModelClasses, scores);
      firstNNCategory, categories, confidences := o.firstNN, o.categories, o.confidences;
    }
  }
}
