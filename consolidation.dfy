/**
 * Correspondence consolidation of `LocalRecognitionPipeline::do_recognize`:
 * each matcher's correspondences of a model are shifted into the unified
 * keypoint store, deduplicated within the matcher when the matcher runs
 * several estimators, and merged into the list collected so far, keeping
 * the better of two redundant correspondences.
 *
 * Geometry is abstract: `RedundancyTest` stands for the four-part test of
 * two point distances below `min_dist_` and two normal dot products above
 * `max_dotp_`, applied to an existing correspondence (first) and a new one
 * (second) of one model.
 */
module Consolidation {
  import opened Types
  import opened Wrappers
  import opened KeypointStore
  import opened OrderedMaps

  type RedundancyTest = (ModelId, Correspondence, Correspondence) -> bool

  /** Every model index moved by `off`; scene index and distance kept. */
  function Shifted(cs: seq<Correspondence>, off: int): (r: seq<Correspondence>)
    ensures |r| == |cs|
    ensures forall i :: 0 <= i < |cs| ==>
      r[i].indexQuery == cs[i].indexQuery + off &&
      r[i].indexMatch == cs[i].indexMatch && r[i].distance == cs[i].distance
  {
    seq(|cs|, i requires 0 <= i < |cs| => cs[i].(indexQuery := cs[i].indexQuery + off))
  }

  /** `a` is `b` with some elements left out, order kept. */
  predicate IsSubsequence<T(==)>(a: seq<T>, b: seq<T>)
    decreases |b|
  {
    if |b| == 0 then |a| == 0
    else
      || IsSubsequence(a, b[..|b| - 1])
      || (|a| > 0 && a[|a| - 1] == b[|b| - 1] && IsSubsequence(a[..|a| - 1], b[..|b| - 1]))
  }

  lemma {:induction false} SubsequenceBounds<T>(a: seq<T>, b: seq<T>)
    requires IsSubsequence(a, b)
    ensures |a| <= |b|
    ensures forall x :: x in a ==> x in b
    decreases |b|
  {
    if |b| > 0 {
      if IsSubsequence(a, b[..|b| - 1]) {
        SubsequenceBounds(a, b[..|b| - 1]);
      } else {
        SubsequenceBounds(a[..|a| - 1], b[..|b| - 1]);
        assert a == a[..|a| - 1] + [a[|a| - 1]];
      }
    }
  }

  // ---------------------------------------------------------------------
  // Deduplication within one matcher (local_recognition_pipeline.cpp:223-271)
  // ---------------------------------------------------------------------

  /** Some kept correspondence makes `c` redundant. */
  predicate RedundantWithSome(red: RedundancyTest, m: ModelId, kept: seq<Correspondence>, c: Correspondence) {
    exists j :: 0 <= j < |kept| && red(m, kept[j], c)
  }

  /** The compacted list: each correspondence in turn is kept unless an earlier kept one makes it redundant. */
  function Dedup(red: RedundancyTest, m: ModelId, cs: seq<Correspondence>): seq<Correspondence>
    decreases |cs|
  {
    if |cs| == 0 then []
    else
      var d := Dedup(red, m, cs[..|cs| - 1]);
      if RedundantWithSome(red, m, d, cs[|cs| - 1]) then d else d + [cs[|cs| - 1]]
  }

  /** No kept correspondence is redundant with an earlier kept one. */
  predicate PairwiseNonRedundant(red: RedundancyTest, m: ModelId, d: seq<Correspondence>) {
    forall i, j :: 0 <= i < j < |d| ==> !red(m, d[i], d[j])
  }

  lemma {:induction false} DedupSubsequence(red: RedundancyTest, m: ModelId, cs: seq<Correspondence>)
    ensures IsSubsequence(Dedup(red, m, cs), cs)
    ensures |Dedup(red, m, cs)| <= |cs|
    decreases |cs|
  {
    if |cs| > 0 {
      var front := cs[..|cs| - 1];
      DedupSubsequence(red, m, front);
      var d := Dedup(red, m, front);
      if !RedundantWithSome(red, m, d, cs[|cs| - 1]) {
        assert (d + [cs[|cs| - 1]])[..|d|] == d;
      }
    }
    SubsequenceBounds(Dedup(red, m, cs), cs);
  }

  lemma {:induction false} DedupPairwise(red: RedundancyTest, m: ModelId, cs: seq<Correspondence>)
    ensures PairwiseNonRedundant(red, m, Dedup(red, m, cs))
    decreases |cs|
  {
    if |cs| > 0 {
      DedupPairwise(red, m, cs[..|cs| - 1]);
    }
  }

  /** Every input correspondence is kept or made redundant by a kept one. */
  lemma {:induction false} DedupCovers(red: RedundancyTest, m: ModelId, cs: seq<Correspondence>)
    ensures forall c :: c in cs ==>
      c in Dedup(red, m, cs) || RedundantWithSome(red, m, Dedup(red, m, cs), c)
    decreases |cs|
  {
    if |cs| > 0 {
      var front := cs[..|cs| - 1];
      DedupCovers(red, m, front);
      var d := Dedup(red, m, front);
      var d' := Dedup(red, m, cs);
      assert d <= d';
      forall c | c in cs ensures c in d' || RedundantWithSome(red, m, d', c) {
        if c in front {
          if RedundantWithSome(red, m, d, c) {
            var j :| 0 <= j < |d| && red(m, d[j], c);
            assert d'[j] == d[j];
          }
        } else {
          assert c == cs[|cs| - 1];
        }
      }
    }
  }

  /** Compacting a prefix gives a prefix of the compacted list. */
  lemma {:induction false} DedupPrefix(red: RedundancyTest, m: ModelId, cs: seq<Correspondence>, i: nat)
    requires i <= |cs|
    ensures Dedup(red, m, cs[..i]) <= Dedup(red, m, cs)
    decreases |cs|
  {
    if i < |cs| {
      var front := cs[..|cs| - 1];
      assert front[..i] == cs[..i];
      DedupPrefix(red, m, front, i);
    } else {
      assert cs[..i] == cs;
    }
  }

  /**
   * The compaction loop compares each correspondence only with the kept
   * ones before it: with `k` the list kept from the first `i` inputs
   * (a prefix of the result), input `i` is kept right after `k` when
   * no entry of `k` makes it redundant, and otherwise an entry of `k`
   * does.
   */
  lemma DedupCoversEarlier(red: RedundancyTest, m: ModelId, cs: seq<Correspondence>)
    ensures forall i :: 0 <= i < |cs| ==>
      var k := Dedup(red, m, cs[..i]);
      k <= Dedup(red, m, cs) &&
      (RedundantWithSome(red, m, k, cs[i]) ||
       (|k| < |Dedup(red, m, cs)| && Dedup(red, m, cs)[|k|] == cs[i]))
  {
    forall i | 0 <= i < |cs|
      ensures var k := Dedup(red, m, cs[..i]);
        k <= Dedup(red, m, cs) &&
        (RedundantWithSome(red, m, k, cs[i]) ||
         (|k| < |Dedup(red, m, cs)| && Dedup(red, m, cs)[|k|] == cs[i]))
    {
      var k := Dedup(red, m, cs[..i]);
      DedupPrefix(red, m, cs, i);
      DedupPrefix(red, m, cs, i + 1);
      var p := cs[..i + 1];
      assert p[..|p| - 1] == cs[..i] && p[|p| - 1] == cs[i];
      if !RedundantWithSome(red, m, k, cs[i]) {
        assert Dedup(red, m, p) == k + [cs[i]];
        assert Dedup(red, m, p)[|k|] == cs[i];
      }
    }
  }

  /** A list without redundant pairs passes deduplication unchanged. */
  lemma {:induction false} DedupOfNonRedundant(red: RedundancyTest, m: ModelId, d: seq<Correspondence>)
    requires PairwiseNonRedundant(red, m, d)
    ensures Dedup(red, m, d) == d
    decreases |d|
  {
    if |d| > 0 {
      var front := d[..|d| - 1];
      DedupOfNonRedundant(red, m, front);
      assert forall j :: 0 <= j < |front| ==> front[j] == d[j];
      assert !RedundantWithSome(red, m, front, d[|d| - 1]);
    }
  }

  /** Deduplication is idempotent. */
  lemma DedupIdempotent(red: RedundancyTest, m: ModelId, cs: seq<Correspondence>)
    ensures Dedup(red, m, Dedup(red, m, cs)) == Dedup(red, m, cs)
  {
    DedupPairwise(red, m, cs);
    DedupOfNonRedundant(red, m, Dedup(red, m, cs));
  }

  // ---------------------------------------------------------------------
  // Merging into the existing list (local_recognition_pipeline.cpp:277-318)
  // ---------------------------------------------------------------------

  function FirstRedundantFrom(red: RedundancyTest, m: ModelId, olds: seq<Correspondence>, c: Correspondence, j: nat): (r: Option<nat>)
    requires j <= |olds|
    ensures r.Some? ==> j <= r.value < |olds| && red(m, olds[r.value], c)
    ensures r.Some? ==> forall i :: j <= i < r.value ==> !red(m, olds[i], c)
    ensures r.None? ==> forall i :: j <= i < |olds| ==> !red(m, olds[i], c)
    decreases |olds| - j
  {
    if j == |olds| then None
    else if red(m, olds[j], c) then Some(j)
    else FirstRedundantFrom(red, m, olds, c, j + 1)
  }

  /** The first existing correspondence that makes `c` redundant, if any. */
  function FirstRedundant(red: RedundancyTest, m: ModelId, olds: seq<Correspondence>, c: Correspondence): (r: Option<nat>)
    ensures r.Some? ==> r.value < |olds| && red(m, olds[r.value], c)
    ensures r.Some? ==> forall i :: 0 <= i < r.value ==> !red(m, olds[i], c)
    ensures r.None? ==> forall i :: 0 <= i < |olds| ==> !red(m, olds[i], c)
  {
    FirstRedundantFrom(red, m, olds, c, 0)
  }

  /** Of an existing and a redundant new correspondence, the one kept in the slot. */
  function Better(c: Correspondence, existing: Correspondence): Correspondence {
    if c.distance < existing.distance then c else existing
  }

  /** The existing list after overwrites, and the new correspondences kept for appending. */
  datatype MergeResult = MergeResult(updated: seq<Correspondence>, kept: seq<Correspondence>)

  /** Merge of new correspondences, one after the other, into the existing list. */
  function Merge(red: RedundancyTest, m: ModelId, olds: seq<Correspondence>, news: seq<Correspondence>): MergeResult
    decreases |news|
  {
    if |news| == 0 then MergeResult(olds, [])
    else MergeOne(red, m, Merge(red, m, olds, news[..|news| - 1]), news[|news| - 1])
  }

  /** One new correspondence: overwrite-if-better at the first redundant slot, or keep for appending. */
  function MergeOne(red: RedundancyTest, m: ModelId, r: MergeResult, c: Correspondence): MergeResult {
    match FirstRedundant(red, m, r.updated, c)
    case None => MergeResult(r.updated, r.kept + [c])
    case Some(j) => MergeResult(r.updated[j := Better(c, r.updated[j])], r.kept)
  }

  /** The model's list after the merge: the updated existing entries, then the kept new ones. */
  function MergedList(red: RedundancyTest, m: ModelId, olds: seq<Correspondence>, news: seq<Correspondence>): seq<Correspondence> {
    var r := Merge(red, m, olds, news);
    r.updated + r.kept
  }

  /** Existing entries keep their slots; the kept new ones are a subsequence of the new ones. */
  lemma {:induction false} MergeShape(red: RedundancyTest, m: ModelId, olds: seq<Correspondence>, news: seq<Correspondence>)
    ensures |Merge(red, m, olds, news).updated| == |olds|
    ensures IsSubsequence(Merge(red, m, olds, news).kept, news)
    ensures |Merge(red, m, olds, news).kept| <= |news|
    decreases |news|
  {
    if |news| > 0 {
      var front := news[..|news| - 1];
      MergeShape(red, m, olds, front);
      var r := Merge(red, m, olds, front);
      if FirstRedundant(red, m, r.updated, news[|news| - 1]).None? {
        assert (r.kept + [news[|news| - 1]])[..|r.kept|] == r.kept;
      }
    }
    SubsequenceBounds(Merge(red, m, olds, news).kept, news);
  }

  /** The list grows by exactly the number of kept new correspondences. */
  lemma MergedListLayout(red: RedundancyTest, m: ModelId, olds: seq<Correspondence>, news: seq<Correspondence>)
    ensures |MergedList(red, m, olds, news)| == |olds| + |Merge(red, m, olds, news).kept|
    ensures MergedList(red, m, olds, news)[|olds|..] == Merge(red, m, olds, news).kept
    ensures |MergedList(red, m, olds, news)| <= |olds| + |news|
  {
    MergeShape(red, m, olds, news);
  }

  /** No slot gets worse, and a slot only ever takes a new correspondence. */
  lemma {:induction false} MergeNeverWorse(red: RedundancyTest, m: ModelId, olds: seq<Correspondence>, news: seq<Correspondence>)
    ensures |Merge(red, m, olds, news).updated| == |olds|
    ensures forall j :: 0 <= j < |olds| ==>
      var u := Merge(red, m, olds, news).updated[j];
      u.distance <= olds[j].distance && (u == olds[j] || u in news)
    decreases |news|
  {
    MergeShape(red, m, olds, news);
    if |news| > 0 {
      var front := news[..|news| - 1];
      MergeNeverWorse(red, m, olds, front);
      MergeShape(red, m, olds, front);
    }
  }

  /** What one more new correspondence does to the merge (lines 289-313). */
  lemma MergeStep(red: RedundancyTest, m: ModelId, olds: seq<Correspondence>, news: seq<Correspondence>, p: nat)
    requires p < |news|
    ensures var before := Merge(red, m, olds, news[..p]);
            var after := Merge(red, m, olds, news[..p + 1]);
            var c := news[p];
            && ((forall j :: 0 <= j < |before.updated| ==> !red(m, before.updated[j], c)) <==>
                  after.kept == before.kept + [c])
            && ((exists j :: 0 <= j < |before.updated| && red(m, before.updated[j], c)) ==>
                  after.kept == before.kept &&
                  var j := FirstRedundant(red, m, before.updated, c).value;
                  (forall i :: 0 <= i < j ==> !red(m, before.updated[i], c)) &&
                  after.updated == before.updated[j := if c.distance < before.updated[j].distance then c else before.updated[j]])
            && ((forall j :: 0 <= j < |before.updated| ==> !red(m, before.updated[j], c)) ==>
                  after.updated == before.updated)
  {
    assert news[..p + 1][..p] == news[..p];
    var before := Merge(red, m, olds, news[..p]);
    if FirstRedundant(red, m, before.updated, news[p]).Some? {
      assert |before.kept + [news[p]]| > |before.kept|;
    }
  }

  /** Merging prefixes: kept grows by appending, and slot distances only go down. */
  lemma {:induction false} MergeMonotone(red: RedundancyTest, m: ModelId, olds: seq<Correspondence>, news: seq<Correspondence>, p: nat)
    requires p <= |news|
    ensures Merge(red, m, olds, news[..p]).kept <= Merge(red, m, olds, news).kept
    ensures |Merge(red, m, olds, news[..p]).updated| == |Merge(red, m, olds, news).updated| == |olds|
    ensures forall j :: 0 <= j < |olds| ==>
      Merge(red, m, olds, news).updated[j].distance <= Merge(red, m, olds, news[..p]).updated[j].distance
    decreases |news| - p
  {
    MergeShape(red, m, olds, news);
    MergeShape(red, m, olds, news[..p]);
    if p == |news| {
      assert news[..p] == news;
    } else {
      MergeMonotone(red, m, olds, news, p + 1);
      MergeShape(red, m, olds, news[..p + 1]);
      assert news[..p + 1][..p] == news[..p];
    }
  }

  /** Nothing is lost silently: each new correspondence is appended or dominated by a slot. */
  lemma MergeAccountsForAll(red: RedundancyTest, m: ModelId, olds: seq<Correspondence>, news: seq<Correspondence>)
    ensures |Merge(red, m, olds, news).updated| == |olds|
    ensures forall p :: 0 <= p < |news| ==>
      news[p] in Merge(red, m, olds, news).kept ||
      exists j :: 0 <= j < |olds| && Merge(red, m, olds, news).updated[j].distance <= news[p].distance
  {
    var final := Merge(red, m, olds, news);
    MergeShape(red, m, olds, news);
    forall p | 0 <= p < |news|
      ensures news[p] in final.kept || exists j :: 0 <= j < |olds| && final.updated[j].distance <= news[p].distance
    {
      MergeMonotone(red, m, olds, news, p + 1);
      assert news[..p + 1][..p] == news[..p];
      var before := Merge(red, m, olds, news[..p]);
      MergeShape(red, m, olds, news[..p]);
      MergeOneAccounts(red, m, before, news[p]);
      var after := Merge(red, m, olds, news[..p + 1]);
      if news[p] !in after.kept {
        var j :| 0 <= j < |olds| && after.updated[j].distance <= news[p].distance;
        assert final.updated[j].distance <= news[p].distance;
      }
    }
  }

  /** One new correspondence is kept for appending, or some slot ends up at least as close. */
  lemma MergeOneAccounts(red: RedundancyTest, m: ModelId, r: MergeResult, c: Correspondence)
    ensures var after := MergeOne(red, m, r, c);
      c in after.kept || exists j :: 0 <= j < |r.updated| && after.updated[j].distance <= c.distance
  {
    var after := MergeOne(red, m, r, c);
    match FirstRedundant(red, m, r.updated, c)
    case None =>
      assert after.kept[|r.kept|] == c;
    case Some(j) =>
      assert after.updated[j].distance <= c.distance;
  }

  /** Every correspondence of the merged list was an existing or a new one. */
  lemma {:induction false} MergeElements(red: RedundancyTest, m: ModelId, olds: seq<Correspondence>, news: seq<Correspondence>)
    ensures forall c :: c in MergedList(red, m, olds, news) ==> c in olds || c in news
  {
    MergeNeverWorse(red, m, olds, news);
    MergeShape(red, m, olds, news);
    var r := Merge(red, m, olds, news);
    SubsequenceBounds(r.kept, news);
    forall c | c in MergedList(red, m, olds, news) ensures c in olds || c in news {
      var k :| 0 <= k < |r.updated + r.kept| && (r.updated + r.kept)[k] == c;
      if k < |r.updated| {
        assert r.updated[k] == c;
      } else {
        assert r.kept[k - |r.updated|] == c;
      }
    }
  }

  // ---------------------------------------------------------------------
  // One pass over the matchers (local_recognition_pipeline.cpp:196-321)
  // ---------------------------------------------------------------------

  /** What one matcher reports: correspondences per model, and its number of estimators. */
  datatype MatcherOutput = MatcherOutput(correspondences: map<ModelId, seq<Correspondence>>, numEstimators: nat)

  /** A matcher's correspondences in unified indices, deduplicated when it has several estimators. */
  function Prepared(red: RedundancyTest, m: ModelId, raw: seq<Correspondence>, off: int, numEstimators: nat): seq<Correspondence> {
    var s := Shifted(raw, off);
    if numEstimators > 1 then Dedup(red, m, s) else s
  }

  /** The recorded range start, where reading an absent entry yields (and records) 0. */
  function Offset(starts: map<ModelId, nat>, m: ModelId): nat {
    if m in starts then starts[m] else 0
  }

  function Existing(acc: map<ModelId, seq<Correspondence>>, m: ModelId): Option<seq<Correspondence>> {
    if m in acc then Some(acc[m]) else None
  }

  /** A model's list after one matcher: its prepared correspondences, merged if the model was seen before. */
  function ModelStep(red: RedundancyTest, m: ModelId, existing: Option<seq<Correspondence>>,
                     raw: seq<Correspondence>, off: int, numEstimators: nat): seq<Correspondence> {
    var news := Prepared(red, m, raw, off, numEstimators);
    match existing
    case None => news
    case Some(olds) => MergedList(red, m, olds, news)
  }

  /** As written at line 275: a first-seen model is stored with the matcher's raw, unshifted list. */
  function ModelStepAsWritten(red: RedundancyTest, m: ModelId, existing: Option<seq<Correspondence>>,
                              raw: seq<Correspondence>, off: int, numEstimators: nat): seq<Correspondence> {
    match existing
    case None => raw
    case Some(olds) => MergedList(red, m, olds, Prepared(red, m, raw, off, numEstimators))
  }

  function MatcherStep(red: RedundancyTest, acc: map<ModelId, seq<Correspondence>>, out: MatcherOutput,
                       starts: map<ModelId, nat>): map<ModelId, seq<Correspondence>> {
    map m | m in acc.Keys + out.correspondences.Keys ::
      if m in out.correspondences
      then ModelStep(red, m, Existing(acc, m), out.correspondences[m], Offset(starts, m), out.numEstimators)
      else acc[m]
  }

  function MatcherStepAsWritten(red: RedundancyTest, acc: map<ModelId, seq<Correspondence>>, out: MatcherOutput,
                                starts: map<ModelId, nat>): map<ModelId, seq<Correspondence>> {
    map m | m in acc.Keys + out.correspondences.Keys ::
      if m in out.correspondences
      then ModelStepAsWritten(red, m, Existing(acc, m), out.correspondences[m], Offset(starts, m), out.numEstimators)
      else acc[m]
  }

  /** The part of a matcher's output that concerns the models `ks`. */
  function RestrictOutput(out: MatcherOutput, ks: set<ModelId>): MatcherOutput {
    MatcherOutput(map m | m in out.correspondences && m in ks :: out.correspondences[m], out.numEstimators)
  }

  /** Handling one more model of a matcher updates only that model's list, from its list before the matcher. */
  lemma MatcherStepOneModel(red: RedundancyTest, acc: map<ModelId, seq<Correspondence>>, out: MatcherOutput,
                            starts: map<ModelId, nat>, done: set<ModelId>, m: ModelId)
    requires m in out.correspondences && m !in done
    ensures MatcherStep(red, acc, RestrictOutput(out, done + {m}), starts) ==
      MatcherStep(red, acc, RestrictOutput(out, done), starts)[m :=
        ModelStep(red, m, Existing(acc, m), out.correspondences[m], Offset(starts, m), out.numEstimators)]
    ensures Existing(MatcherStep(red, acc, RestrictOutput(out, done), starts), m) == Existing(acc, m)
  {
  }

  lemma MatcherStepWhole(red: RedundancyTest, acc: map<ModelId, seq<Correspondence>>, out: MatcherOutput, starts: map<ModelId, nat>)
    ensures MatcherStep(red, acc, RestrictOutput(out, {}), starts) == acc
    ensures RestrictOutput(out, out.correspondences.Keys) == out
  {
  }

  /**
   * The collected lists after handling the models `ks` of one matcher one
   * at a time, each from its current list (the loop at lines 208-320).
   */
  function MatcherStepKeys(red: RedundancyTest, acc: map<ModelId, seq<Correspondence>>, out: MatcherOutput,
                           starts: map<ModelId, nat>, ks: seq<ModelId>): map<ModelId, seq<Correspondence>>
    requires forall k :: k in ks ==> k in out.correspondences
    decreases |ks|
  {
    if |ks| == 0 then acc
    else
      var cur := MatcherStepKeys(red, acc, out, starts, ks[..|ks| - 1]);
      var m := ks[|ks| - 1];
      cur[m := ModelStep(red, m, Existing(cur, m), out.correspondences[m], Offset(starts, m), out.numEstimators)]
  }

  lemma MatcherStepKeysSnoc(red: RedundancyTest, acc: map<ModelId, seq<Correspondence>>, out: MatcherOutput,
                            starts: map<ModelId, nat>, ks: seq<ModelId>, i: nat)
    requires i < |ks| && forall k :: k in ks ==> k in out.correspondences
    ensures var cur := MatcherStepKeys(red, acc, out, starts, ks[..i]);
      MatcherStepKeys(red, acc, out, starts, ks[..i + 1]) ==
      cur[ks[i] := ModelStep(red, ks[i], Existing(cur, ks[i]), out.correspondences[ks[i]], Offset(starts, ks[i]), out.numEstimators)]
  {
    assert ks[..i + 1][..i] == ks[..i];
  }

  /** Handling distinct models one at a time is handling the part of the output they name. */
  lemma {:induction false} MatcherStepKeysRestrict(red: RedundancyTest, acc: map<ModelId, seq<Correspondence>>, out: MatcherOutput,
                                                   starts: map<ModelId, nat>, ks: seq<ModelId>)
    requires Distinct(ks) && forall k :: k in ks ==> k in out.correspondences
    ensures MatcherStepKeys(red, acc, out, starts, ks) == MatcherStep(red, acc, RestrictOutput(out, Elements(ks)), starts)
    decreases |ks|
  {
    if |ks| == 0 {
      MatcherStepWhole(red, acc, out, starts);
    } else {
      DistinctFront(ks);
      MatcherStepKeysRestrict(red, acc, out, starts, ks[..|ks| - 1]);
      MatcherStepOneModel(red, acc, out, starts, Elements(ks[..|ks| - 1]), ks[|ks| - 1]);
    }
  }

  /** Handling every model of the output, each once, is `MatcherStep`. */
  lemma MatcherStepKeysWhole(red: RedundancyTest, acc: map<ModelId, seq<Correspondence>>, out: MatcherOutput,
                             starts: map<ModelId, nat>, ks: seq<ModelId>)
    requires Distinct(ks) && forall k :: k in ks <==> k in out.correspondences
    ensures MatcherStepKeys(red, acc, out, starts, ks) == MatcherStep(red, acc, out, starts)
  {
    MatcherStepKeysRestrict(red, acc, out, starts, ks);
    assert Elements(ks) == out.correspondences.Keys;
    MatcherStepWhole(red, acc, out, starts);
  }

  /**
   * The range starts of one matcher after handling the models `ks`: reading
   * an absent start with `operator[]` while shifting (line 221) records a 0
   * for a model with at least one correspondence.
   */
  function RecordKeys(starts: map<ModelId, nat>, out: MatcherOutput, ks: seq<ModelId>): map<ModelId, nat>
    requires forall k :: k in ks ==> k in out.correspondences
    decreases |ks|
  {
    if |ks| == 0 then starts
    else
      var cur := RecordKeys(starts, out, ks[..|ks| - 1]);
      var m := ks[|ks| - 1];
      if |out.correspondences[m]| > 0 && m !in cur then cur[m := 0] else cur
  }

  lemma RecordKeysSnoc(starts: map<ModelId, nat>, out: MatcherOutput, ks: seq<ModelId>, i: nat)
    requires i < |ks| && forall k :: k in ks ==> k in out.correspondences
    ensures var cur := RecordKeys(starts, out, ks[..i]);
      RecordKeys(starts, out, ks[..i + 1]) ==
      if |out.correspondences[ks[i]]| > 0 && ks[i] !in cur then cur[ks[i] := 0] else cur
  {
    assert ks[..i + 1][..i] == ks[..i];
  }

  /**
   * `after` is `before` with a 0 entry recorded for each model of `ks` that
   * has a correspondence to shift but no entry.
   */
  ghost predicate RecordsZeros(before: map<ModelId, nat>, after: map<ModelId, nat>, out: MatcherOutput, ks: set<ModelId>) {
    && (forall m :: m in after <==> m in before || (m in ks && m in out.correspondences && |out.correspondences[m]| > 0))
    && (forall m :: m in after ==> after[m] == Offset(before, m))
  }

  /** Zeros recorded while visiting `ks` are exactly those `RecordsZeros` describes. */
  lemma {:induction false} RecordKeysRecords(starts: map<ModelId, nat>, out: MatcherOutput, ks: seq<ModelId>)
    requires forall k :: k in ks ==> k in out.correspondences
    ensures RecordsZeros(starts, RecordKeys(starts, out, ks), out, Elements(ks))
    decreases |ks|
  {
    if |ks| > 0 {
      RecordKeysRecords(starts, out, ks[..|ks| - 1]);
      assert ks == ks[..|ks| - 1] + [ks[|ks| - 1]];
    }
  }

  /** Recording zeros never changes the offset a model is shifted by. */
  lemma {:induction false} RecordKeysOffset(starts: map<ModelId, nat>, out: MatcherOutput, ks: seq<ModelId>, m: ModelId)
    requires forall k :: k in ks ==> k in out.correspondences
    ensures Offset(RecordKeys(starts, out, ks), m) == Offset(starts, m)
    decreases |ks|
  {
    if |ks| > 0 {
      RecordKeysOffset(starts, out, ks[..|ks| - 1], m);
    }
  }

  /** The collected correspondences per model after the matchers `outs`, in order. */
  function Consolidate(red: RedundancyTest, outs: seq<MatcherOutput>, starts: seq<map<ModelId, nat>>): map<ModelId, seq<Correspondence>>
    requires |outs| <= |starts|
    decreases |outs|
  {
    if |outs| == 0 then map[]
    else MatcherStep(red, Consolidate(red, outs[..|outs| - 1], starts), outs[|outs| - 1], starts[|outs| - 1])
  }

  function ConsolidateAsWritten(red: RedundancyTest, outs: seq<MatcherOutput>, starts: seq<map<ModelId, nat>>): map<ModelId, seq<Correspondence>>
    requires |outs| <= |starts|
    decreases |outs|
  {
    if |outs| == 0 then map[]
    else MatcherStepAsWritten(red, ConsolidateAsWritten(red, outs[..|outs| - 1], starts), outs[|outs| - 1], starts[|outs| - 1])
  }

  /**
   * The step as written agrees with the corrected one whenever the model
   * was seen before, or the matcher neither shifts (range start 0) nor
   * compacts (one estimator) its list.
   */
  lemma ModelStepAsWrittenAgrees(red: RedundancyTest, m: ModelId, existing: Option<seq<Correspondence>>,
                                 raw: seq<Correspondence>, off: int, numEstimators: nat)
    requires existing.Some? || (off == 0 && numEstimators <= 1)
    ensures ModelStepAsWritten(red, m, existing, raw, off, numEstimators) == ModelStep(red, m, existing, raw, off, numEstimators)
  {
    if existing.None? {
      assert Shifted(raw, 0) == raw;
    }
  }

  /** A matcher that neither shifts nor compacts the models new to the lists is handled alike as written and corrected. */
  lemma MatcherStepAsWrittenAgrees(red: RedundancyTest, acc: map<ModelId, seq<Correspondence>>, out: MatcherOutput,
                                   starts: map<ModelId, nat>)
    requires out.numEstimators <= 1
    requires forall m :: m in out.correspondences && m !in acc ==> Offset(starts, m) == 0
    ensures MatcherStepAsWritten(red, acc, out, starts) == MatcherStep(red, acc, out, starts)
  {
    forall m | m in out.correspondences
      ensures ModelStepAsWritten(red, m, Existing(acc, m), out.correspondences[m], Offset(starts, m), out.numEstimators)
           == ModelStep(red, m, Existing(acc, m), out.correspondences[m], Offset(starts, m), out.numEstimators)
    {
      ModelStepAsWrittenAgrees(red, m, Existing(acc, m), out.correspondences[m], Offset(starts, m), out.numEstimators);
    }
  }

  /** As written or corrected, the same models end up with collected correspondences; only the lists differ. */
  lemma {:induction false} ConsolidateAsWrittenKeys(red: RedundancyTest, outs: seq<MatcherOutput>, starts: seq<map<ModelId, nat>>)
    requires |outs| <= |starts|
    ensures ConsolidateAsWritten(red, outs, starts).Keys == Consolidate(red, outs, starts).Keys
    decreases |outs|
  {
    if |outs| > 0 {
      ConsolidateAsWrittenKeys(red, outs[..|outs| - 1], starts);
    }
  }

  /** With a single matcher that neither shifts nor compacts, the code as written collects what the corrected step does. */
  lemma SingleMatcherAsWrittenAgrees(red: RedundancyTest, out: MatcherOutput, starts: seq<map<ModelId, nat>>)
    requires |starts| >= 1 && out.numEstimators <= 1
    requires forall m :: m in out.correspondences ==> Offset(starts[0], m) == 0
    ensures ConsolidateAsWritten(red, [out], starts) == Consolidate(red, [out], starts)
  {
    assert [out][..0] == [];
    MatcherStepAsWrittenAgrees(red, map[], out, starts[0]);
  }

  /** A model has collected correspondences iff some matcher reported it. */
  lemma {:induction false} ConsolidateKeys(red: RedundancyTest, outs: seq<MatcherOutput>, starts: seq<map<ModelId, nat>>, m: ModelId)
    requires |outs| <= |starts|
    ensures m in Consolidate(red, outs, starts) <==> exists r :: 0 <= r < |outs| && m in outs[r].correspondences
    decreases |outs|
  {
    if |outs| > 0 {
      var front := outs[..|outs| - 1];
      ConsolidateKeys(red, front, starts, m);
      if m in Consolidate(red, front, starts) {
        var r :| 0 <= r < |front| && m in front[r].correspondences;
        assert outs[r] == front[r];
      }
      if exists r :: 0 <= r < |outs| && m in outs[r].correspondences {
        var r :| 0 <= r < |outs| && m in outs[r].correspondences;
        if r < |outs| - 1 { assert front[r] == outs[r]; }
      }
    }
  }

  // ---------------------------------------------------------------------
  // Index provenance: every collected correspondence points at the
  // keypoint of the unified store that the reporting matcher meant.
  // ---------------------------------------------------------------------

  /** `c` (unified indices) names the same model keypoint, scene point and distance as matcher `r`'s `c0`. */
  predicate SameKeypoint(ms: seq<ModelKeypoints>, r: nat, m: ModelId, c0: Correspondence, c: Correspondence)
    requires r < |ms|
  {
    && c.indexMatch == c0.indexMatch && c.distance == c0.distance
    && m in ms[r] && 0 <= c0.indexQuery < |ms[r][m].keypoints|
    && m in Unified(ms) && 0 <= c.indexQuery < |Unified(ms)[m].keypoints|
    && Unified(ms)[m].keypoints[c.indexQuery] == ms[r][m].keypoints[c0.indexQuery]
  }

  /** Some matcher reported a correspondence that `c` faithfully re-indexes. */
  predicate Reported(ms: seq<ModelKeypoints>, outs: seq<MatcherOutput>, m: ModelId, c: Correspondence)
    requires |outs| <= |ms|
  {
    exists r, k :: 0 <= r < |outs| && m in outs[r].correspondences && 0 <= k < |outs[r].correspondences[m]| &&
      SameKeypoint(ms, r, m, outs[r].correspondences[m][k], c)
  }

  /**
   * The matchers' outputs fit their stores: one output per matcher, a
   * matcher reports only models it holds and indexes their keypoints, and
   * the recorded range starts agree with the store on the matcher's models.
   */
  predicate WellFormedOutputs(ms: seq<ModelKeypoints>, outs: seq<MatcherOutput>, starts: seq<map<ModelId, nat>>) {
    OutputsFit(ms, outs) && |ms| <= |starts| && StartsAgree(ms, starts)
  }

  /** One output per matcher; a matcher reports only models it holds, and indexes their keypoints. */
  predicate OutputsFit(ms: seq<ModelKeypoints>, outs: seq<MatcherOutput>) {
    && |outs| == |ms|
    && (forall r, m :: 0 <= r < |outs| && m in outs[r].correspondences ==> m in ms[r])
    && (forall r, m, k :: 0 <= r < |outs| && m in outs[r].correspondences && 0 <= k < |outs[r].correspondences[m]| ==>
          0 <= outs[r].correspondences[m][k].indexQuery < |ms[r][m].keypoints|)
  }

  /** The recorded range starts agree with the unified store on each matcher's models. */
  predicate StartsAgree(ms: seq<ModelKeypoints>, starts: seq<map<ModelId, nat>>)
    requires |ms| <= |starts|
  {
    forall r, m :: 0 <= r < |ms| && m in ms[r] ==> m in starts[r] && starts[r][m] == RangeStartsOf(ms, r)[m]
  }

  lemma PreparedReported(red: RedundancyTest, ms: seq<ModelKeypoints>, outs: seq<MatcherOutput>,
                         starts: seq<map<ModelId, nat>>, r: nat, m: ModelId)
    requires WellFormedOutputs(ms, outs, starts)
    requires r < |outs| && m in outs[r].correspondences
    ensures forall c :: c in Prepared(red, m, outs[r].correspondences[m], Offset(starts[r], m), outs[r].numEstimators) ==>
      Reported(ms, outs, m, c)
  {
    var raw := outs[r].correspondences[m];
    var off := Offset(starts[r], m);
    var s := Shifted(raw, off);
    forall c | c in s ensures Reported(ms, outs, m, c) {
      var k :| 0 <= k < |s| && s[k] == c;
      UnifiedIndexing(ms, r, m, raw[k].indexQuery as nat);
      assert SameKeypoint(ms, r, m, raw[k], c);
    }
    if outs[r].numEstimators > 1 {
      DedupSubsequence(red, m, s);
      SubsequenceBounds(Dedup(red, m, s), s);
    }
  }

  /** Every collected correspondence was reported by some matcher and re-indexed faithfully. */
  predicate AllReported(ms: seq<ModelKeypoints>, outs: seq<MatcherOutput>, coll: map<ModelId, seq<Correspondence>>)
    requires |outs| <= |ms|
  {
    forall m, c :: m in coll && c in coll[m] ==> Reported(ms, outs, m, c)
  }

  /** Handling one more matcher keeps every collected correspondence reported. */
  lemma MatcherStepReported(red: RedundancyTest, ms: seq<ModelKeypoints>, outs: seq<MatcherOutput>,
                            starts: seq<map<ModelId, nat>>, r: nat, acc: map<ModelId, seq<Correspondence>>)
    requires WellFormedOutputs(ms, outs, starts) && r < |outs|
    requires AllReported(ms, outs, acc)
    ensures AllReported(ms, outs, MatcherStep(red, acc, outs[r], starts[r]))
  {
    var out := outs[r];
    var next := MatcherStep(red, acc, out, starts[r]);
    forall m, c | m in next && c in next[m]
      ensures Reported(ms, outs, m, c)
    {
      if m in out.correspondences {
        PreparedReported(red, ms, outs, starts, r, m);
        var news := Prepared(red, m, out.correspondences[m], Offset(starts[r], m), out.numEstimators);
        if m in acc {
          MergeElements(red, m, acc[m], news);
        }
      }
    }
  }

  lemma {:induction false} ConsolidatePrefixReported(red: RedundancyTest, ms: seq<ModelKeypoints>, outs: seq<MatcherOutput>,
                                                     starts: seq<map<ModelId, nat>>, n: nat)
    requires WellFormedOutputs(ms, outs, starts) && n <= |outs|
    ensures AllReported(ms, outs, Consolidate(red, outs[..n], starts))
    decreases n
  {
    if n > 0 {
      ConsolidatePrefixReported(red, ms, outs, starts, n - 1);
      assert outs[..n][..n - 1] == outs[..n - 1];
      MatcherStepReported(red, ms, outs, starts, n - 1, Consolidate(red, outs[..n - 1], starts));
    }
  }

  /**
   * End to end: each collected correspondence indexes the unified store at
   * the keypoint its matcher meant, with that matcher's scene index and distance.
   */
  lemma ConsolidateReported(red: RedundancyTest, ms: seq<ModelKeypoints>, outs: seq<MatcherOutput>, starts: seq<map<ModelId, nat>>)
    requires WellFormedOutputs(ms, outs, starts)
    ensures forall m, c :: m in Consolidate(red, outs, starts) && c in Consolidate(red, outs, starts)[m] ==>
      Reported(ms, outs, m, c)
  {
    ConsolidatePrefixReported(red, ms, outs, starts, |outs|);
    assert outs[..|outs|] == outs;
  }

  // ---------------------------------------------------------------------
  // The first-seen insertion as written breaks provenance.
  // ---------------------------------------------------------------------

  /** Two matchers hold one keypoint each of a model; only the second reports a correspondence. */
  function ExampleStores(): seq<ModelKeypoints> {
    [ map["cube" := LocalObjectModel([Vec3(0.0, 0.0, 0.0)], [Vec3(0.0, 0.0, 1.0)])],
      map["cube" := LocalObjectModel([Vec3(1.0, 0.0, 0.0)], [Vec3(0.0, 0.0, 1.0)])] ]
  }

  function ExampleOutputs(): seq<MatcherOutput> {
    [ MatcherOutput(map[], 1),
      MatcherOutput(map["cube" := [Correspondence(0, 5, 1.0)]], 1) ]
  }

  function ExampleStarts(): seq<map<ModelId, nat>> {
    [ map["cube" := 0], map["cube" := 1] ]
  }

  function NeverRedundant(m: ModelId, a: Correspondence, b: Correspondence): bool { false }

  lemma ExampleWellFormed()
    ensures WellFormedOutputs(ExampleStores(), ExampleOutputs(), ExampleStarts())
  {
    var ms := ExampleStores();
    assert ms[..0] == [];
    assert ms[..1] == [ms[0]];
    assert Unified(ms[..1]) == ms[0];
    assert RangeStartsOf(ms, 0) == map["cube" := 0];
    assert RangeStartsOf(ms, 1) == map["cube" := 1];
  }

  /**
   * As written, the second matcher's correspondence is stored with model
   * index 0, which in the unified store is the first matcher's keypoint;
   * the corrected step stores index 1, the keypoint it meant.
   */
  lemma FirstSeenAsWrittenMisindexes()
    ensures var asWritten := ConsolidateAsWritten(NeverRedundant, ExampleOutputs(), ExampleStarts());
            "cube" in asWritten && asWritten["cube"] == [Correspondence(0, 5, 1.0)] &&
            !Reported(ExampleStores(), ExampleOutputs(), "cube", asWritten["cube"][0])
    ensures var corrected := Consolidate(NeverRedundant, ExampleOutputs(), ExampleStarts());
            "cube" in corrected && corrected["cube"] == [Correspondence(1, 5, 1.0)] &&
            Reported(ExampleStores(), ExampleOutputs(), "cube", corrected["cube"][0])
  {
    ExampleConsolidations();
    ExampleRawNotReported();
    ExampleWellFormed();
    ConsolidateReported(NeverRedundant, ExampleStores(), ExampleOutputs(), ExampleStarts());
  }

  /** The example's lists: the raw correspondence as written, the shifted one when corrected. */
  lemma ExampleConsolidations()
    ensures var asWritten := ConsolidateAsWritten(NeverRedundant, ExampleOutputs(), ExampleStarts());
            "cube" in asWritten && asWritten["cube"] == [Correspondence(0, 5, 1.0)]
    ensures var corrected := Consolidate(NeverRedundant, ExampleOutputs(), ExampleStarts());
            "cube" in corrected && corrected["cube"] == [Correspondence(1, 5, 1.0)]
  {
    var outs, starts := ExampleOutputs(), ExampleStarts();
    assert outs[..1] == [outs[0]];
    assert outs[..2] == outs;
    assert ConsolidateAsWritten(NeverRedundant, outs[..1], starts) == map[];
    assert Consolidate(NeverRedundant, outs[..1], starts) == map[];
    assert Shifted([Correspondence(0, 5, 1.0)], 1) == [Correspondence(1, 5, 1.0)];
  }

  /** No matcher of the example meant model keypoint 0 with the raw correspondence. */
  lemma ExampleRawNotReported()
    ensures !Reported(ExampleStores(), ExampleOutputs(), "cube", Correspondence(0, 5, 1.0))
  {
    var ms, outs := ExampleStores(), ExampleOutputs();
    var c := Correspondence(0, 5, 1.0);
    assert ms[..1] == [ms[0]] && ms[..2] == ms;
    assert Unified(ms)["cube"].keypoints == [Vec3(0.0, 0.0, 0.0), Vec3(1.0, 0.0, 0.0)];
    forall r, k | 0 <= r < |outs| && "cube" in outs[r].correspondences && 0 <= k < |outs[r].correspondences["cube"]|
      ensures !SameKeypoint(ms, r, "cube", outs[r].correspondences["cube"][k], c)
    {
      assert r == 1 && k == 0;
    }
  }
}
