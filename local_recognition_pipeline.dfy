/**
 * `LocalRecognitionPipeline`: the keypoint bookkeeping of `initialize`, the
 * correspondence consolidation of `do_recognize` and the hypothesis
 * generation of `correspondenceGrouping`, as a class whose methods update
 * its fields step by step. Each method is proved against the specification
 * functions of `KeypointStore`, `Consolidation` and `Grouping`.
 */
module LocalRecognition {
  import opened Types
  import opened Wrappers
  import opened OrderedMaps
  import opened Sorting
  import opened KeypointStore
  import opened Consolidation
  import opened Grouping

  // ---------------------------------------------------------------------
  // In-place steps on one correspondence vector
  // ---------------------------------------------------------------------

  /** Adds the range start to every model index (lines 220-221). */
  method ShiftInPlace(a: array<Correspondence>, off: int)
    modifies a
    ensures a[..] == Shifted(old(a[..]), off)
  {
    for i := 0 to a.Length
      invariant forall k :: 0 <= k < i ==> a[k] == old(a[k]).(indexQuery := old(a[k]).indexQuery + off)
      invariant forall k :: i <= k < a.Length ==> a[k] == old(a[k])
    {
      a[i] := a[i].(indexQuery := a[i].indexQuery + off);
    }
  }

  /** Some of the first `kept` entries of `a` makes `c` redundant (the inner loop at lines 241-264). */
  method RedundantWithKept(red: RedundancyTest, m: ModelId, a: array<Correspondence>, kept: nat, c: Correspondence)
    returns (isRedundant: bool)
    requires kept <= a.Length
    ensures isRedundant == RedundantWithSome(red, m, a[..kept], c)
  {
    for j := 0 to kept
      invariant forall q :: 0 <= q < j ==> !red(m, a[q], c)
    {
      if red(m, a[j], c) {
        assert a[..kept][j] == a[j];
        return true;
      }
    }
    return false;
  }

  /**
   * Compacts `a` in place, keeping each correspondence no kept one makes
   * redundant; returns the number kept (lines 225-270). Slots from the
   * returned count on are left as they were.
   */
  method CompactNonRedundant(red: RedundancyTest, m: ModelId, a: array<Correspondence>) returns (kept: nat)
    modifies a
    ensures kept <= a.Length
    ensures a[..kept] == Dedup(red, m, old(a[..]))
    ensures a[kept..] == old(a[kept..])
  {
    ghost var input := a[..];
    kept := 0;
    var i := 0;
    while i < a.Length
      invariant 0 <= kept <= i <= a.Length
      invariant a[..kept] == Dedup(red, m, input[..i])
      invariant a[kept..] == input[kept..]
    {
      var c := a[i];
      assert c == input[i];
      var isRedundant := RedundantWithKept(red, m, a, kept, c);
      assert input[..i + 1][..i] == input[..i];
      if !isRedundant {
        assert forall q :: 0 <= q < kept ==> a[..kept][q] == a[q];
        a[kept] := c;
        kept := kept + 1;
      }
      i := i + 1;
    }
    assert input[..a.Length] == input;
  }

  /** The first existing entry that makes `c` redundant (the inner loop at lines 290-311). */
  method FindFirstRedundant(red: RedundancyTest, m: ModelId, o: array<Correspondence>, c: Correspondence) returns (found: Option<nat>)
    ensures found == FirstRedundant(red, m, o[..], c)
  {
    var j := 0;
    while j < o.Length
      invariant 0 <= j <= o.Length
      invariant FirstRedundantFrom(red, m, o[..], c, j) == FirstRedundant(red, m, o[..], c)
    {
      if red(m, o[j], c) {
        return Some(j);
      }
      j := j + 1;
    }
    return None;
  }

  /** One new correspondence `c` against the existing list `o` (lines 283-313). */
  method MergeOneInto(red: RedundancyTest, m: ModelId, o: array<Correspondence>, a: array<Correspondence>, kept: nat, c: Correspondence)
    returns (kept': nat)
    requires kept < a.Length && o != a
    modifies o, a
    ensures kept <= kept' <= kept + 1
    ensures var r := MergeOne(red, m, MergeResult(old(o[..]), old(a[..kept])), c);
      o[..] == r.updated && a[..kept'] == r.kept
    ensures forall k :: kept' <= k < a.Length ==> a[k] == old(a[k])
  {
    var found := FindFirstRedundant(red, m, o, c);
    if found.Some? {
      var j := found.value;
      if c.distance < o[j].distance {
        o[j] := c;
      }
      kept' := kept;
    } else {
      a[kept] := c;
      kept' := kept + 1;
    }
  }

  /**
   * Merges the first `n` new correspondences of `a` into the existing list
   * `o` (lines 280-316): a redundant one may overwrite the first existing
   * entry that makes it redundant, a non-redundant one is compacted to the
   * front of `a`. Returns the number compacted.
   */
  method MergeInto(red: RedundancyTest, m: ModelId, o: array<Correspondence>, a: array<Correspondence>, n: nat) returns (kept: nat)
    requires n <= a.Length && o != a
    modifies o, a
    ensures kept <= n
    ensures o[..] == Merge(red, m, old(o[..]), old(a[..n])).updated
    ensures a[..kept] == Merge(red, m, old(o[..]), old(a[..n])).kept
  {
    ghost var olds, news := o[..], a[..n];
    kept := 0;
    var i := 0;
    while i < n
      invariant 0 <= kept <= i <= n
      invariant o[..] == Merge(red, m, olds, news[..i]).updated
      invariant a[..kept] == Merge(red, m, olds, news[..i]).kept
      invariant forall k :: kept <= k < n ==> a[k] == news[k]
    {
      var c := a[i];
      assert news[..i + 1][..i] == news[..i];
      kept := MergeOneInto(red, m, o, a, kept, c);
      i := i + 1;
    }
    assert news[..n] == news;
  }

  /**
   * One matcher's correspondences of model `m` combined with the list
   * collected so far (lines 213-319), on fresh copies. A first-seen model
   * gets its prepared correspondences, as `ModelStep` states.
   */
  method ConsolidateModel(red: RedundancyTest, m: ModelId, existing: Option<seq<Correspondence>>,
                          raw: seq<Correspondence>, off: nat, numEstimators: nat) returns (r: seq<Correspondence>)
    ensures r == ModelStep(red, m, existing, raw, off, numEstimators)
  {
    var a := new Correspondence[|raw|](i requires 0 <= i < |raw| => raw[i]);
    assert a[..] == raw;
    ShiftInPlace(a, off);
    var n := a.Length;
    if numEstimators > 1 {
      n := CompactNonRedundant(red, m, a);
    }
    assert a[..n] == Prepared(red, m, raw, off, numEstimators);
    match existing
    case None =>
      r := a[..n];
    case Some(olds) =>
      var o := new Correspondence[|olds|](i requires 0 <= i < |olds| => olds[i]);
      assert o[..] == olds;
      var kept := MergeInto(red, m, o, a, n);
      r := o[..] + a[..kept];
  }

  /**
   * One matcher's correspondences, model by model in key order (lines
   * 208-320), added to the collected lists `acc`; also returns the
   * matcher's range starts with the zeros reading them records.
   */
  method ConsolidateOutput(red: RedundancyTest, acc: map<ModelId, seq<Correspondence>>, out: MatcherOutput,
                           starts0: map<ModelId, nat>) returns (loh: map<ModelId, seq<Correspondence>>, starts: map<ModelId, nat>)
    ensures loh == MatcherStep(red, acc, out, starts0)
    ensures RecordsZeros(starts0, starts, out, out.correspondences.Keys)
  {
    var ks := KeyEnumeration(out.correspondences.Keys);
    loh, starts := acc, starts0;
    for i := 0 to |ks|
      invariant loh == MatcherStepKeys(red, acc, out, starts0, ks[..i])
      invariant starts == RecordKeys(starts0, out, ks[..i])
    {
      var m := ks[i];
      OutputKeysStep(red, acc, out, starts0, ks, i);
      var raw := out.correspondences[m];
      if |raw| > 0 && m !in starts {
        starts := starts[m := 0];
      }
      var merged := ConsolidateModel(red, m, Existing(loh, m), raw, Offset(starts, m), out.numEstimators);
      loh := loh[m := merged];
    }
    OutputKeysWhole(red, acc, out, starts0, ks);
  }

  /** Handling model `ks[i]` of a matcher: what the loop body of `ConsolidateOutput` computes. */
  lemma OutputKeysStep(red: RedundancyTest, acc: map<ModelId, seq<Correspondence>>, out: MatcherOutput,
                       starts0: map<ModelId, nat>, ks: seq<ModelId>, i: nat)
    requires i < |ks| && forall k :: k in ks ==> k in out.correspondences
    ensures var m, loh, starts := ks[i], MatcherStepKeys(red, acc, out, starts0, ks[..i]), RecordKeys(starts0, out, ks[..i]);
      var starts' := if |out.correspondences[m]| > 0 && m !in starts then starts[m := 0] else starts;
      && RecordKeys(starts0, out, ks[..i + 1]) == starts'
      && MatcherStepKeys(red, acc, out, starts0, ks[..i + 1]) ==
         loh[m := ModelStep(red, m, Existing(loh, m), out.correspondences[m], Offset(starts', m), out.numEstimators)]
  {
    MatcherStepKeysSnoc(red, acc, out, starts0, ks, i);
    RecordKeysSnoc(starts0, out, ks, i);
    RecordKeysOffset(starts0, out, ks[..i], ks[i]);
  }

  /** After every model of a matcher, once each, the loop has computed `MatcherStep` and recorded the zeros. */
  lemma OutputKeysWhole(red: RedundancyTest, acc: map<ModelId, seq<Correspondence>>, out: MatcherOutput,
                        starts0: map<ModelId, nat>, ks: seq<ModelId>)
    requires Distinct(ks) && forall k :: k in ks <==> k in out.correspondences
    ensures MatcherStepKeys(red, acc, out, starts0, ks[..|ks|]) == MatcherStep(red, acc, out, starts0)
    ensures RecordsZeros(starts0, RecordKeys(starts0, out, ks[..|ks|]), out, out.correspondences.Keys)
  {
    assert ks[..|ks|] == ks;
    MatcherStepKeysWhole(red, acc, out, starts0, ks);
    RecordKeysRecords(starts0, out, ks);
    assert Elements(ks) == out.correspondences.Keys;
  }

  // ---------------------------------------------------------------------
  // Transforms of one model's clusters (lines 103-145)
  // ---------------------------------------------------------------------

  /** One rigid transform per cluster (lines 106-107). */
  method EstimateAll(estimate: Estimation, m: ModelId, clusters: seq<seq<Correspondence>>) returns (ts: seq<Matrix4>)
    ensures ts == ClusterTransforms(estimate, m, clusters)
  {
    var arr := new Matrix4[|clusters|](_ => Zero4());
    for i := 0 to |clusters|
      invariant forall k :: 0 <= k < i ==> arr[k] == estimate(m, clusters[k])
    {
      arr[i] := estimate(m, clusters[i]);
    }
    ts := arr[..];
  }

  /** Taking into account a new seed `i`, each cluster is taken iff the old seeds or `i` absorb it. */
  lemma AbsorbedByNewSeed(close: CloseTest, ts: seq<Matrix4>, seeds: seq<nat>, i: nat, k: nat)
    requires i < k < |ts| && forall q :: 0 <= q < |seeds| ==> seeds[q] < |ts|
    ensures AbsorbedBySome(close, ts, seeds + [i], k) <==> AbsorbedBySome(close, ts, seeds, k) || close(ts[i], ts[k])
  {
    var s' := seeds + [i];
    if AbsorbedBySome(close, ts, s', k) {
      var q :| 0 <= q < |s'| && close(ts[s'[q]], ts[k]);
      if q < |seeds| { assert s'[q] == seeds[q]; }
    }
    if AbsorbedBySome(close, ts, seeds, k) {
      var q :| 0 <= q < |seeds| && close(ts[seeds[q]], ts[k]);
      assert s'[q] == seeds[q];
    }
    if close(ts[i], ts[k]) {
      assert s'[|seeds|] == i;
    }
  }

  /** Clusters from `from` on are taken exactly when one of `seeds` absorbs them. */
  ghost predicate TakenBySeeds(close: CloseTest, ts: seq<Matrix4>, seeds: seq<nat>, taken: seq<bool>, from: nat)
    requires |taken| == |ts| && forall q :: 0 <= q < |seeds| ==> seeds[q] < |ts|
  {
    forall k :: from <= k < |ts| ==> (taken[k] <==> AbsorbedBySome(close, ts, seeds, k))
  }

  /** A cluster already taken when its turn comes is no seed, and the marks of the later ones stay right. */
  lemma SkipTaken(close: CloseTest, ts: seq<Matrix4>, taken: seq<bool>, i: nat)
    requires |taken| == |ts| && i < |ts| && taken[i]
    requires TakenBySeeds(close, ts, Seeds(close, ts, i), taken, i)
    ensures Seeds(close, ts, i + 1) == Seeds(close, ts, i)
    ensures TakenBySeeds(close, ts, Seeds(close, ts, i + 1), taken, i + 1)
  {
  }

  /** An untaken cluster becomes a seed; after it absorbs its close successors the marks stay right. */
  lemma NewSeedTakes(close: CloseTest, ts: seq<Matrix4>, before: seq<bool>, after: seq<bool>, i: nat)
    requires |before| == |after| == |ts| && i < |ts| && !before[i]
    requires TakenBySeeds(close, ts, Seeds(close, ts, i), before, i)
    requires forall k :: 0 <= k < |ts| ==> after[k] == (before[k] || k == i || (i < k && close(ts[i], ts[k])))
    ensures Seeds(close, ts, i + 1) == Seeds(close, ts, i) + [i]
    ensures TakenBySeeds(close, ts, Seeds(close, ts, i + 1), after, i + 1)
  {
    var seeds := Seeds(close, ts, i);
    forall k | i < k < |ts|
      ensures after[k] <==> AbsorbedBySome(close, ts, seeds + [i], k)
    {
      AbsorbedByNewSeed(close, ts, seeds, i, k);
    }
  }

  /** A sequence holding each seed's re-estimated transform, in seed order, is the merge's result. */
  lemma MergedBySeed(close: CloseTest, estimate: Estimation, m: ModelId, ts: seq<Matrix4>, clusters: seq<seq<Correspondence>>, merged: seq<Matrix4>)
    requires |clusters| == |ts|
    requires var seeds := Seeds(close, ts, |ts|);
      |merged| == |seeds| && forall q :: 0 <= q < |seeds| ==> merged[q] == MergedTransform(close, estimate, m, ts, clusters, seeds[q])
    ensures merged == MergedTransforms(close, estimate, m, ts, clusters)
  {
  }

  /**
   * The inner loop of the greedy merge (lines 124-140): seed `i` collects
   * the correspondences of every later cluster close to its own transform,
   * and marks those clusters taken.
   */
  method AbsorbLater(close: CloseTest, ts: seq<Matrix4>, clusters: seq<seq<Correspondence>>, taken: array<bool>, i: nat)
    returns (mergedCorrs: seq<Correspondence>)
    requires |clusters| == |ts| == taken.Length && i < |ts|
    modifies taken
    ensures mergedCorrs == Absorbed(close, ts, clusters, i, |ts|)
    ensures forall k :: 0 <= k < |ts| ==> taken[k] == (old(taken[k]) || (i < k && close(ts[i], ts[k])))
  {
    mergedCorrs := clusters[i];
    for j := i + 1 to |ts|
      invariant mergedCorrs == Absorbed(close, ts, clusters, i, j)
      invariant forall k :: 0 <= k < |ts| ==> taken[k] == (old(taken[k]) || (i < k < j && close(ts[i], ts[k])))
    {
      if close(ts[i], ts[j]) {
        mergedCorrs := mergedCorrs + clusters[j];
        taken[j] := true;
      }
    }
  }

  /** Seed `i` is marked taken, absorbs the close later clusters, and yields its re-estimated transform. */
  method TakeSeed(close: CloseTest, estimate: Estimation, m: ModelId, ts: seq<Matrix4>, clusters: seq<seq<Correspondence>>,
                  taken: array<bool>, i: nat) returns (t: Matrix4)
    requires |clusters| == |ts| == taken.Length && i < |ts|
    modifies taken
    ensures t == MergedTransform(close, estimate, m, ts, clusters, i)
    ensures forall k :: 0 <= k < |ts| ==> taken[k] == (old(taken[k]) || k == i || (i < k && close(ts[i], ts[k])))
  {
    taken[i] := true;
    var mergedCorrs := AbsorbLater(close, ts, clusters, taken, i);
    t := estimate(m, mergedCorrs);
  }

  /**
   * The greedy merge over a `cluster_has_been_taken` array (lines
   * 110-145): each untaken cluster in turn becomes a seed, absorbs every
   * later cluster close to its own transform (taken or not), and
   * contributes the transform estimated from the merged correspondences.
   */
  method MergeClose(close: CloseTest, estimate: Estimation, m: ModelId, ts: seq<Matrix4>, clusters: seq<seq<Correspondence>>)
    returns (merged: seq<Matrix4>)
    requires |clusters| == |ts|
    ensures merged == MergedTransforms(close, estimate, m, ts, clusters)
  {
    var taken := new bool[|ts|](_ => false);
    var mergedArr := new Matrix4[|ts|](_ => Zero4());
    var kept := MergeSeeds(close, estimate, m, ts, clusters, taken, mergedArr);
    merged := mergedArr[..kept];
    MergedBySeed(close, estimate, m, ts, clusters, merged);
  }

  /**
   * The loop over the clusters (lines 114-142): the kept transforms go to
   * `mergedArr[0 .. kept)`, one per seed in seed order.
   */
  method MergeSeeds(close: CloseTest, estimate: Estimation, m: ModelId, ts: seq<Matrix4>, clusters: seq<seq<Correspondence>>,
                    taken: array<bool>, mergedArr: array<Matrix4>) returns (kept: nat)
    requires |clusters| == |ts| == taken.Length == mergedArr.Length
    requires forall k :: 0 <= k < |ts| ==> !taken[k]
    modifies taken, mergedArr
    ensures var seeds := Seeds(close, ts, |ts|);
      kept == |seeds| <= |ts| &&
      forall q :: 0 <= q < kept ==> mergedArr[q] == MergedTransform(close, estimate, m, ts, clusters, seeds[q])
  {
    kept := 0;
    ghost var seeds: seq<nat> := [];
    for tfId := 0 to |ts|
      invariant seeds == Seeds(close, ts, tfId) && kept == |seeds| <= tfId
      invariant TakenBySeeds(close, ts, seeds, taken[..], tfId)
      invariant forall q :: 0 <= q < kept ==> mergedArr[q] == MergedTransform(close, estimate, m, ts, clusters, seeds[q])
    {
      if taken[tfId] {
        SkipTaken(close, ts, taken[..], tfId);
        continue;
      }
      ghost var before := taken[..];
      var t := TakeSeed(close, estimate, m, ts, clusters, taken, tfId);
      NewSeedTakes(close, ts, before, taken[..], tfId);
      mergedArr[kept] := t;
      kept := kept + 1;
      seeds := seeds + [tfId];
    }
  }

  // ---------------------------------------------------------------------
  // The pipeline's state
  // ---------------------------------------------------------------------

  /** `model_kp_idx_range_start_` after `resize(n)`: earlier entries kept, new ones empty. */
  function Resized(starts: seq<map<ModelId, nat>>, n: nat): (r: seq<map<ModelId, nat>>)
    ensures |r| == n
    ensures forall i :: 0 <= i < n ==> r[i] == if i < |starts| then starts[i] else map[]
  {
    seq(n, i requires 0 <= i < n => if i < |starts| then starts[i] else map[])
  }

  /** The range starts after `initialize` over the matchers' stores `ms`. */
  function InitializedStarts(starts: seq<map<ModelId, nat>>, ms: seq<ModelKeypoints>): (r: seq<map<ModelId, nat>>)
    ensures |r| == |ms|
  {
    var base := Resized(starts, |ms|);
    seq(|ms|, i requires 0 <= i < |ms| => base[i] + RangeStartsOf(ms, i))
  }

  lemma ConcatAssoc<T>(a: seq<T>, b: seq<T>, c: seq<T>)
    ensures a + (b + c) == (a + b) + c
  {
  }

  class LocalRecognitionPipeline {
    /** `model_keypoints_`: the unified keypoint store of all matchers. */
    var modelKeypoints: ModelKeypoints
    /** `model_kp_idx_range_start_`: per matcher, where its keypoints of each model start. */
    var modelKpIdxRangeStart: seq<map<ModelId, nat>>
    /** `local_obj_hypotheses_`: the collected correspondences per model. */
    var localObjHypotheses: map<ModelId, seq<Correspondence>>
    /** `obj_hypotheses_`: the generated hypothesis groups. */
    var objHypotheses: seq<ObjectHypothesesGroup>

    constructor()
      ensures modelKeypoints == map[] && modelKpIdxRangeStart == []
      ensures localObjHypotheses == map[] && objHypotheses == []
    {
      modelKeypoints := map[];
      modelKpIdxRangeStart := [];
      localObjHypotheses := map[];
      objHypotheses := [];
    }

    /**
     * Registers every model of matcher `i`'s store `d`, in key order:
     * appended to the store if present, copied otherwise, recording the
     * start of the matcher's keypoints (lines 30-51).
     */
    method RegisterModels(d: ModelKeypoints, i: nat)
      requires i < |modelKpIdxRangeStart|
      modifies this
      ensures modelKeypoints == Register(old(modelKeypoints), d)
      ensures modelKpIdxRangeStart == old(modelKpIdxRangeStart)[i := old(modelKpIdxRangeStart[i]) + RangeStarts(old(modelKeypoints), d)]
      ensures localObjHypotheses == old(localObjHypotheses) && objHypotheses == old(objHypotheses)
    {
      var ks := KeyEnumeration(d.Keys);
      var store, starts := modelKeypoints, modelKpIdxRangeStart[i];
      ghost var store0, prior := store, starts;
      for j := 0 to |ks|
        invariant store == RegisterKeys(store0, d, ks[..j])
        invariant starts == StartsKeys(prior, store0, d, ks[..j])
        modifies {}
      {
        var m := ks[j];
        assert ks[..j + 1][..j] == ks[..j];
        if m in store {
          starts := starts[m := |store[m].keypoints|];
          store := store[m := Append(store[m], d[m])];
        } else {
          starts := starts[m := 0];
          store := store[m := d[m]];
        }
      }
      assert ks[..|ks|] == ks;
      RegisterKeysWhole(prior, store0, d, ks);
      modelKeypoints := store;
      modelKpIdxRangeStart := modelKpIdxRangeStart[i := starts];
    }

    /**
     * `initialize` (lines 13-53) over the matchers' stores `ms`: the store
     * is rebuilt from scratch, and the range starts are resized to one
     * map per matcher and filled in.
     */
    method Initialize(ms: seq<ModelKeypoints>)
      requires |ms| > 0
      modifies this
      ensures modelKeypoints == Unified(ms)
      ensures modelKpIdxRangeStart == InitializedStarts(old(modelKpIdxRangeStart), ms)
      ensures localObjHypotheses == old(localObjHypotheses) && objHypotheses == old(objHypotheses)
    {
      modelKeypoints := map[];
      modelKpIdxRangeStart := Resized(modelKpIdxRangeStart, |ms|);
      ghost var base := modelKpIdxRangeStart;
      for i := 0 to |ms|
        invariant modelKeypoints == Unified(ms[..i])
        invariant |modelKpIdxRangeStart| == |ms|
        invariant forall j :: 0 <= j < |ms| ==>
          modelKpIdxRangeStart[j] == if j < i then base[j] + RangeStartsOf(ms, j) else base[j]
        invariant localObjHypotheses == old(localObjHypotheses) && objHypotheses == old(objHypotheses)
      {
        assert ms[..i + 1][..i] == ms[..i];
        RegisterModels(ms[i], i);
      }
      assert ms[..|ms|] == ms;
    }

    /** One matcher's correspondences, model by model in key order (lines 208-320). */
    method ConsolidateMatcher(red: RedundancyTest, out: MatcherOutput, r: nat)
      requires r < |modelKpIdxRangeStart|
      modifies this
      ensures localObjHypotheses == MatcherStep(red, old(localObjHypotheses), out, old(modelKpIdxRangeStart[r]))
      ensures |modelKpIdxRangeStart| == |old(modelKpIdxRangeStart)|
      ensures forall j :: 0 <= j < |modelKpIdxRangeStart| && j != r ==> modelKpIdxRangeStart[j] == old(modelKpIdxRangeStart[j])
      ensures RecordsZeros(old(modelKpIdxRangeStart[r]), modelKpIdxRangeStart[r], out, out.correspondences.Keys)
      ensures modelKeypoints == old(modelKeypoints) && objHypotheses == old(objHypotheses)
    {
      var loh, starts := ConsolidateOutput(red, localObjHypotheses, out, modelKpIdxRangeStart[r]);
      localObjHypotheses := loh;
      modelKpIdxRangeStart := modelKpIdxRangeStart[r := starts];
    }

    /** Appends one single-hypothesis group per transform (lines 149-162 and 169-182). */
    method EmitHypotheses(m: ModelId, clusters: seq<seq<Correspondence>>, transforms: seq<Matrix4>)
      requires |transforms| <= |clusters|
      modifies this
      ensures objHypotheses == old(objHypotheses) + Emit(m, clusters, transforms)
      ensures modelKeypoints == old(modelKeypoints) && modelKpIdxRangeStart == old(modelKpIdxRangeStart)
      ensures localObjHypotheses == old(localObjHypotheses)
    {
      for jj := 0 to |transforms|
        invariant objHypotheses == old(objHypotheses) + Emit(m, clusters, transforms)[..jj]
        invariant modelKeypoints == old(modelKeypoints) && modelKpIdxRangeStart == old(modelKpIdxRangeStart)
        invariant localObjHypotheses == old(localObjHypotheses)
      {
        var newOh := ObjectHypothesis(m, "", transforms[jj], |clusters| as real, clusters[jj]);
        objHypotheses := objHypotheses + [ObjectHypothesesGroup([newOh], false)];
        assert Emit(m, clusters, transforms)[..jj + 1] == Emit(m, clusters, transforms)[..jj] + [ObjectHypothesesGroup([newOh], false)];
      }
      assert Emit(m, clusters, transforms)[..|transforms|] == Emit(m, clusters, transforms);
    }

    /** One model of `correspondenceGrouping` (lines 66-184). */
    method GroupOneModel(cfg: GroupingConfig, m: ModelId)
      requires m in localObjHypotheses
      modifies this
      ensures objHypotheses == old(objHypotheses) + GroupModel(cfg, m, old(localObjHypotheses[m]))
      ensures localObjHypotheses == old(localObjHypotheses)[m := SortedForGrouping(cfg, old(localObjHypotheses[m]))]
      ensures modelKeypoints == old(modelKeypoints) && modelKpIdxRangeStart == old(modelKpIdxRangeStart)
    {
      var corrs := localObjHypotheses[m];
      if |corrs| < 3 {
        localObjHypotheses := localObjHypotheses[m := corrs];
        return;
      }
      var sorted := SortBy(corrs, cfg.key);
      localObjHypotheses := localObjHypotheses[m := sorted];
      var clusters := cfg.cluster(m, sorted);
      var ts := EstimateAll(cfg.estimate, m, clusters);
      var transforms: seq<Matrix4>;
      if cfg.mergeCloseHypotheses {
        transforms := MergeClose(cfg.close, cfg.estimate, m, ts, clusters);
        SeedsShape(cfg.close, ts, |ts|);
      } else {
        transforms := ts;
      }
      EmitHypotheses(m, clusters, transforms);
    }

    /** The grouping loop over the models `ks`, each visited once, in that order (lines 66-184). */
    method GroupInOrder(cfg: GroupingConfig, ks: seq<ModelId>)
      requires Distinct(ks) && forall k :: k in ks <==> k in localObjHypotheses
      modifies this
      ensures objHypotheses == old(objHypotheses) + GroupKeys(cfg, old(localObjHypotheses), ks)
      ensures localObjHypotheses == SortedLists(cfg, old(localObjHypotheses))
      ensures modelKeypoints == old(modelKeypoints) && modelKpIdxRangeStart == old(modelKpIdxRangeStart)
    {
      ghost var loh0 := localObjHypotheses;
      for i := 0 to |ks|
        invariant localObjHypotheses == SortedListsKeys(cfg, loh0, ks[..i])
        invariant objHypotheses == old(objHypotheses) + GroupKeys(cfg, loh0, ks[..i])
        invariant modelKeypoints == old(modelKeypoints) && modelKpIdxRangeStart == old(modelKpIdxRangeStart)
      {
        var m := ks[i];
        GroupKeysPrefix(cfg, loh0, ks, i);
        SortedListsKeysPrefix(cfg, loh0, ks, i);
        SortedListsKeysAt(cfg, loh0, ks[..i]);
        GroupOneModel(cfg, m);
        ConcatAssoc(old(objHypotheses), GroupKeys(cfg, loh0, ks[..i]), GroupModel(cfg, m, loh0[m]));
      }
      assert ks[..|ks|] == ks;
      SortedListsKeysWhole(cfg, loh0, ks);
    }

    /**
     * `correspondenceGrouping` (lines 57-186): models in key order; a model
     * with at least 3 correspondences has its list sorted in place,
     * clustered, and its hypotheses emitted.
     */
    method CorrespondenceGrouping(cfg: GroupingConfig)
      requires forall m :: m in localObjHypotheses ==> m in modelKeypoints
      modifies this
      ensures objHypotheses == old(objHypotheses) + GroupAll(cfg, old(localObjHypotheses))
      ensures localObjHypotheses == SortedLists(cfg, old(localObjHypotheses))
      ensures modelKeypoints == old(modelKeypoints) && modelKpIdxRangeStart == old(modelKpIdxRangeStart)
    {
      var ks := KeyList(localObjHypotheses.Keys);
      SortedDistinct(ks);
      GroupInOrder(cfg, ks);
    }

    /**
     * `do_recognize` (lines 190-325) over the matchers' outputs `outs`:
     * the collected correspondences are rebuilt from scratch, then grouped
     * into hypotheses if asked to.
     */
    method DoRecognize(outs: seq<MatcherOutput>, red: RedundancyTest, generateHypotheses: bool, cfg: GroupingConfig)
      requires |outs| == |modelKpIdxRangeStart|
      requires forall r, m :: 0 <= r < |outs| && m in outs[r].correspondences ==> m in modelKeypoints
      modifies this
      ensures var collected := Consolidate(red, outs, old(modelKpIdxRangeStart));
        && localObjHypotheses == (if generateHypotheses then SortedLists(cfg, collected) else collected)
        && objHypotheses == old(objHypotheses) + (if generateHypotheses then GroupAll(cfg, collected) else [])
      ensures |modelKpIdxRangeStart| == |outs|
      ensures forall r :: 0 <= r < |outs| ==>
        RecordsZeros(old(modelKpIdxRangeStart)[r], modelKpIdxRangeStart[r], outs[r], outs[r].correspondences.Keys)
      ensures modelKeypoints == old(modelKeypoints)
    {
      localObjHypotheses := map[];
      ghost var starts0 := modelKpIdxRangeStart;
      for r := 0 to |outs|
        invariant localObjHypotheses == Consolidate(red, outs[..r], starts0)
        invariant |modelKpIdxRangeStart| == |outs|
        invariant forall j :: r <= j < |outs| ==> modelKpIdxRangeStart[j] == starts0[j]
        invariant forall j :: 0 <= j < r ==>
          RecordsZeros(starts0[j], modelKpIdxRangeStart[j], outs[j], outs[j].correspondences.Keys)
        invariant modelKeypoints == old(modelKeypoints) && objHypotheses == old(objHypotheses)
      {
        assert outs[..r + 1][..r] == outs[..r];
        ConsolidateMatcher(red, outs[r], r);
      }
      assert outs[..|outs|] == outs;
      if generateHypotheses {
        forall m | m in localObjHypotheses ensures m in modelKeypoints {
          ConsolidateKeys(red, outs, starts0, m);
        }
        CorrespondenceGrouping(cfg);
      }
    }
  }

  /**
   * After `initialize` over `ms` and `do_recognize` over outputs that fit
   * the matchers' stores, every collected correspondence of a model
   * indexes the unified store at the keypoint its matcher meant.
   */
  lemma RecognizedCorrespondencesReported(red: RedundancyTest, ms: seq<ModelKeypoints>, outs: seq<MatcherOutput>,
                                          starts: seq<map<ModelId, nat>>)
    requires OutputsFit(ms, outs)
    ensures var collected := Consolidate(red, outs, InitializedStarts(starts, ms));
      forall m, c :: m in collected && c in collected[m] ==> Reported(ms, outs, m, c)
  {
    var init := InitializedStarts(starts, ms);
    assert StartsAgree(ms, init);
    ConsolidateReported(red, ms, outs, init);
  }
}
