/**
 * Hypothesis generation of `LocalRecognitionPipeline::correspondenceGrouping`:
 * per model, the collected correspondences are sorted and clustered, one
 * rigid transform is estimated per cluster, optionally close transforms are
 * merged greedily, and one single-hypothesis group is emitted per remaining
 * transform.
 *
 * Clustering, rigid estimation, the sort key and the "close transforms"
 * test (centroid distance and three rotation angles below their
 * thresholds) are abstract parameters.
 */
module Grouping {
  import opened Types
  import opened Sorting
  import opened OrderedMaps

  /** The "close transforms" test, applied to the seed's transform and a later one. */
  type CloseTest = (Matrix4, Matrix4) -> bool
  /** Graph-based clustering of one model's sorted correspondences. */
  type Clustering = (ModelId, seq<Correspondence>) -> seq<seq<Correspondence>>
  /** Rigid transform estimation from one model's correspondences. */
  type Estimation = (ModelId, seq<Correspondence>) -> Matrix4

  /** Some seed's transform is close to cluster `k`'s. */
  predicate AbsorbedBySome(close: CloseTest, ts: seq<Matrix4>, seeds: seq<nat>, k: nat)
    requires k < |ts| && forall q :: 0 <= q < |seeds| ==> seeds[q] < |ts|
  {
    exists q :: 0 <= q < |seeds| && close(ts[seeds[q]], ts[k])
  }

  /** The seeds among the first `n` clusters: those no earlier seed has taken. */
  function Seeds(close: CloseTest, ts: seq<Matrix4>, n: nat): (s: seq<nat>)
    requires n <= |ts|
    ensures forall q :: 0 <= q < |s| ==> s[q] < n
    decreases n
  {
    if n == 0 then []
    else
      var s := Seeds(close, ts, n - 1);
      if AbsorbedBySome(close, ts, s, n - 1) then s else s + [n - 1]
  }

  predicate StrictlyIncreasing(s: seq<nat>) {
    forall p, q :: 0 <= p < q < |s| ==> s[p] < s[q]
  }

  /** Seeds come in cluster order, and there are at most as many as clusters. */
  lemma {:induction false} SeedsShape(close: CloseTest, ts: seq<Matrix4>, n: nat)
    requires n <= |ts|
    ensures StrictlyIncreasing(Seeds(close, ts, n))
    ensures |Seeds(close, ts, n)| <= n
    decreases n
  {
    if n > 0 { SeedsShape(close, ts, n - 1); }
  }

  /** Later clusters only add seeds after the earlier ones. */
  lemma {:induction false} SeedsExtend(close: CloseTest, ts: seq<Matrix4>, p: nat, n: nat)
    requires p <= n <= |ts|
    ensures Seeds(close, ts, p) <= Seeds(close, ts, n)
    ensures forall q :: |Seeds(close, ts, p)| <= q < |Seeds(close, ts, n)| ==> Seeds(close, ts, n)[q] >= p
    decreases n - p
  {
    if p < n {
      SeedsExtend(close, ts, p + 1, n);
    }
  }

  /** The seeds before cluster `i` are exactly the seeds among the first `i` clusters. */
  lemma SeedsBefore(close: CloseTest, ts: seq<Matrix4>, n: nat, i: nat)
    requires i <= n <= |ts|
    ensures forall s :: s in Seeds(close, ts, i) <==> s in Seeds(close, ts, n) && s < i
  {
    SeedsExtend(close, ts, i, n);
    var si, sn := Seeds(close, ts, i), Seeds(close, ts, n);
    forall s | s in sn && s < i ensures s in si {
      var q :| 0 <= q < |sn| && sn[q] == s;
      assert q < |si|;
      assert si[q] == s;
    }
  }

  /**
   * Greedy merge seeds (local_recognition_pipeline.cpp:115-120): a cluster
   * is a seed iff no earlier seed's transform is close to its own.
   */
  lemma SeedCharacterization(close: CloseTest, ts: seq<Matrix4>, n: nat, i: nat)
    requires i < n <= |ts|
    ensures i in Seeds(close, ts, n) <==>
      forall s :: s in Seeds(close, ts, n) && s < i ==> !close(ts[s], ts[i])
  {
    SeedsBefore(close, ts, n, i);
    SeedsBefore(close, ts, n, i + 1);
    var si := Seeds(close, ts, i);
    if AbsorbedBySome(close, ts, si, i) {
      var q :| 0 <= q < |si| && close(ts[si[q]], ts[i]);
      assert si[q] in si;
    } else {
      assert Seeds(close, ts, i + 1) == si + [i];
      forall s | s in Seeds(close, ts, n) && s < i ensures !close(ts[s], ts[i]) {
        assert s in si;
      }
    }
  }

  /** Every cluster is a seed or is close to an earlier seed: nothing is dropped. */
  lemma SeedsCover(close: CloseTest, ts: seq<Matrix4>, n: nat, i: nat)
    requires i < n <= |ts|
    ensures i in Seeds(close, ts, n) || exists s :: s in Seeds(close, ts, n) && s < i && close(ts[s], ts[i])
  {
    SeedCharacterization(close, ts, n, i);
  }

  /** Without close transforms every cluster is a seed. */
  lemma {:induction false} SeedsWhenNothingClose(close: CloseTest, ts: seq<Matrix4>, n: nat)
    requires n <= |ts|
    requires forall a, b :: !close(a, b)
    ensures Seeds(close, ts, n) == seq(n, i => i)
    decreases n
  {
    if n > 0 {
      SeedsWhenNothingClose(close, ts, n - 1);
      assert !AbsorbedBySome(close, ts, Seeds(close, ts, n - 1), n - 1);
    }
  }

  /**
   * The correspondences a seed `i` collects from the clusters before `n`:
   * its own, then those of every later cluster close to its own transform,
   * taken or not (local_recognition_pipeline.cpp:124-140).
   */
  function Absorbed(close: CloseTest, ts: seq<Matrix4>, clusters: seq<seq<Correspondence>>, i: nat, n: nat): seq<Correspondence>
    requires |clusters| == |ts| && i < |ts| && n <= |ts|
    decreases n
  {
    if n <= i + 1 then clusters[i]
    else Absorbed(close, ts, clusters, i, n - 1) + (if close(ts[i], ts[n - 1]) then clusters[n - 1] else [])
  }

  /** A seed's merged correspondences are its own followed by exactly those of the close later clusters. */
  lemma {:induction false} AbsorbedContents(close: CloseTest, ts: seq<Matrix4>, clusters: seq<seq<Correspondence>>, i: nat, n: nat)
    requires |clusters| == |ts| && i < |ts| && n <= |ts|
    ensures clusters[i] <= Absorbed(close, ts, clusters, i, n)
    ensures forall c :: c in Absorbed(close, ts, clusters, i, n) <==>
      c in clusters[i] || exists j :: i < j < n && close(ts[i], ts[j]) && c in clusters[j]
    decreases n
  {
    if n > i + 1 {
      AbsorbedContents(close, ts, clusters, i, n - 1);
      var a := Absorbed(close, ts, clusters, i, n - 1);
      var extra := if close(ts[i], ts[n - 1]) then clusters[n - 1] else [];
      forall c ensures c in a + extra <==>
        c in clusters[i] || exists j :: i < j < n && close(ts[i], ts[j]) && c in clusters[j]
      {
        if exists j :: i < j < n && close(ts[i], ts[j]) && c in clusters[j] {
          var j :| i < j < n && close(ts[i], ts[j]) && c in clusters[j];
          if j == n - 1 { assert c in extra; }
        }
      }
    }
  }

  /** The transform re-estimated from seed `i`'s merged correspondences. */
  function MergedTransform(close: CloseTest, estimate: Estimation, m: ModelId, ts: seq<Matrix4>, clusters: seq<seq<Correspondence>>, i: nat): Matrix4
    requires |clusters| == |ts| && i < |ts|
  {
    estimate(m, Absorbed(close, ts, clusters, i, |ts|))
  }

  /** The transforms kept by the greedy merge: one re-estimated transform per seed. */
  function MergedTransforms(close: CloseTest, estimate: Estimation, m: ModelId, ts: seq<Matrix4>, clusters: seq<seq<Correspondence>>): (r: seq<Matrix4>)
    requires |clusters| == |ts|
    ensures |r| == |Seeds(close, ts, |ts|)|
  {
    var seeds := Seeds(close, ts, |ts|);
    var r: seq<Matrix4> := seq(|seeds|, q requires 0 <= q < |seeds| => MergedTransform(close, estimate, m, ts, clusters, seeds[q]));
    r
  }

  /** One transform per cluster, estimated from that cluster alone. */
  function ClusterTransforms(estimate: Estimation, m: ModelId, clusters: seq<seq<Correspondence>>): (ts: seq<Matrix4>)
    ensures |ts| == |clusters|
  {
    seq(|clusters|, i requires 0 <= i < |clusters| => estimate(m, clusters[i]))
  }

  /**
   * The groups emitted for a model: one single-hypothesis local group per
   * transform, the j-th carrying cluster j's correspondences and, as
   * confidence, the number of clusters (lines 149-161 and 169-182).
   */
  function Emit(m: ModelId, clusters: seq<seq<Correspondence>>, transforms: seq<Matrix4>): seq<ObjectHypothesesGroup>
    requires |transforms| <= |clusters|
  {
    seq(|transforms|, j requires 0 <= j < |transforms| =>
      ObjectHypothesesGroup([ObjectHypothesis(m, "", transforms[j], |clusters| as real, clusters[j])], false))
  }

  /** What `correspondenceGrouping` needs besides the collected correspondences. */
  datatype GroupingConfig = GroupingConfig(
    key: Correspondence -> real,
    cluster: Clustering,
    estimate: Estimation,
    close: CloseTest,
    mergeCloseHypotheses: bool)

  /** One model's list as it is left after grouping: sorted when it has at least 3 entries. */
  function SortedForGrouping(cfg: GroupingConfig, corrs: seq<Correspondence>): seq<Correspondence> {
    if |corrs| < 3 then corrs else SortBy(corrs, cfg.key)
  }

  /** The groups emitted for one model. */
  function GroupModel(cfg: GroupingConfig, m: ModelId, corrs: seq<Correspondence>): seq<ObjectHypothesesGroup> {
    if |corrs| < 3 then []
    else
      var clusters := cfg.cluster(m, SortBy(corrs, cfg.key));
      var ts := ClusterTransforms(cfg.estimate, m, clusters);
      if cfg.mergeCloseHypotheses
      then SeedsShape(cfg.close, ts, |ts|); Emit(m, clusters, MergedTransforms(cfg.close, cfg.estimate, m, ts, clusters))
      else Emit(m, clusters, ts)
  }

  /** The groups emitted for the models `keys`, in that order. */
  function GroupKeys(cfg: GroupingConfig, loh: map<ModelId, seq<Correspondence>>, keys: seq<ModelId>): seq<ObjectHypothesesGroup>
    requires forall k :: k in keys ==> k in loh
    decreases |keys|
  {
    if |keys| == 0 then []
    else GroupKeys(cfg, loh, keys[..|keys| - 1]) + GroupModel(cfg, keys[|keys| - 1], loh[keys[|keys| - 1]])
  }

  /** Grouping one more model appends its groups. */
  lemma GroupKeysPrefix(cfg: GroupingConfig, loh: map<ModelId, seq<Correspondence>>, keys: seq<ModelId>, i: nat)
    requires i < |keys| && forall k :: k in keys ==> k in loh
    ensures GroupKeys(cfg, loh, keys[..i + 1]) == GroupKeys(cfg, loh, keys[..i]) + GroupModel(cfg, keys[i], loh[keys[i]])
  {
    assert keys[..i + 1][..i] == keys[..i];
  }

  /** Each model's list as one grouping pass leaves it. */
  function SortedLists(cfg: GroupingConfig, loh: map<ModelId, seq<Correspondence>>): map<ModelId, seq<Correspondence>> {
    map m | m in loh :: SortedForGrouping(cfg, loh[m])
  }

  /** The lists after grouping the models `keys`, in that order. */
  function SortedListsKeys(cfg: GroupingConfig, loh: map<ModelId, seq<Correspondence>>, keys: seq<ModelId>): map<ModelId, seq<Correspondence>>
    requires forall k :: k in keys ==> k in loh
    decreases |keys|
  {
    if |keys| == 0 then loh
    else
      var m := keys[|keys| - 1];
      SortedListsKeys(cfg, loh, keys[..|keys| - 1])[m := SortedForGrouping(cfg, loh[m])]
  }

  lemma SortedListsKeysPrefix(cfg: GroupingConfig, loh: map<ModelId, seq<Correspondence>>, keys: seq<ModelId>, i: nat)
    requires i < |keys| && forall k :: k in keys ==> k in loh
    ensures SortedListsKeys(cfg, loh, keys[..i + 1]) == SortedListsKeys(cfg, loh, keys[..i])[keys[i] := SortedForGrouping(cfg, loh[keys[i]])]
  {
    assert keys[..i + 1][..i] == keys[..i];
  }

  /** After grouping `keys`, exactly the models among them have their lists sorted. */
  lemma {:induction false} SortedListsKeysAt(cfg: GroupingConfig, loh: map<ModelId, seq<Correspondence>>, keys: seq<ModelId>)
    requires forall k :: k in keys ==> k in loh
    ensures SortedListsKeys(cfg, loh, keys).Keys == loh.Keys
    ensures forall m :: m in loh ==>
      SortedListsKeys(cfg, loh, keys)[m] == if m in keys then SortedForGrouping(cfg, loh[m]) else loh[m]
    decreases |keys|
  {
    if |keys| > 0 {
      SortedListsKeysAt(cfg, loh, keys[..|keys| - 1]);
      assert keys == keys[..|keys| - 1] + [keys[|keys| - 1]];
    }
  }

  /** Grouping every model leaves `SortedLists`. */
  lemma SortedListsKeysWhole(cfg: GroupingConfig, loh: map<ModelId, seq<Correspondence>>, keys: seq<ModelId>)
    requires forall k :: k in keys <==> k in loh
    ensures SortedListsKeys(cfg, loh, keys) == SortedLists(cfg, loh)
  {
    SortedListsKeysAt(cfg, loh, keys);
  }

  /** All groups emitted by one grouping pass, models visited in key order. */
  ghost function GroupAll(cfg: GroupingConfig, loh: map<ModelId, seq<Correspondence>>): seq<ObjectHypothesesGroup> {
    GroupKeys(cfg, loh, SortedKeys(loh.Keys))
  }

  /** Fewer than 3 correspondences: no hypothesis (lines 75-76). */
  lemma GroupModelNeedsThree(cfg: GroupingConfig, m: ModelId, corrs: seq<Correspondence>)
    ensures |corrs| < 3 ==> GroupModel(cfg, m, corrs) == []
    ensures |GroupModel(cfg, m, corrs)| > 0 ==> |corrs| >= 3
  {
  }

  /** Every emitted group is a local group with one hypothesis of the model, scored by the cluster count. */
  lemma GroupModelShape(cfg: GroupingConfig, m: ModelId, corrs: seq<Correspondence>)
    ensures var clusters := cfg.cluster(m, SortBy(corrs, cfg.key));
      forall j :: 0 <= j < |GroupModel(cfg, m, corrs)| ==>
        var g := GroupModel(cfg, m, corrs)[j];
        && !g.globalHypotheses && |g.ohs| == 1
        && g.ohs[0].modelId == m && g.ohs[0].classId == ""
        && g.ohs[0].confidence == |clusters| as real
        && j < |clusters| && g.ohs[0].corr == clusters[j]
  {
    var clusters := cfg.cluster(m, SortBy(corrs, cfg.key));
    var ts := ClusterTransforms(cfg.estimate, m, clusters);
    SeedsShape(cfg.close, ts, |ts|);
  }

  /** Without merging, exactly one hypothesis per cluster, with that cluster's transform. */
  lemma GroupModelUnmerged(cfg: GroupingConfig, m: ModelId, corrs: seq<Correspondence>)
    requires !cfg.mergeCloseHypotheses && |corrs| >= 3
    ensures var clusters := cfg.cluster(m, SortBy(corrs, cfg.key));
      && |GroupModel(cfg, m, corrs)| == |clusters|
      && forall j :: 0 <= j < |clusters| ==> GroupModel(cfg, m, corrs)[j].ohs[0].transform == cfg.estimate(m, clusters[j])
  {
  }

  /**
   * With merging, one hypothesis per seed, with the transform re-estimated
   * from the seed's merged correspondences; at most one per cluster.
   */
  lemma GroupModelMerged(cfg: GroupingConfig, m: ModelId, corrs: seq<Correspondence>)
    requires cfg.mergeCloseHypotheses && |corrs| >= 3
    ensures var clusters := cfg.cluster(m, SortBy(corrs, cfg.key));
      var ts := ClusterTransforms(cfg.estimate, m, clusters);
      var seeds := Seeds(cfg.close, ts, |ts|);
      && |GroupModel(cfg, m, corrs)| == |seeds| <= |clusters|
      && forall q :: 0 <= q < |seeds| ==>
           GroupModel(cfg, m, corrs)[q].ohs[0].transform == cfg.estimate(m, Absorbed(cfg.close, ts, clusters, seeds[q], |ts|))
  {
    var clusters := cfg.cluster(m, SortBy(corrs, cfg.key));
    var ts := ClusterTransforms(cfg.estimate, m, clusters);
    SeedsShape(cfg.close, ts, |ts|);
  }

  /**
   * The inner loop does not skip taken clusters: cluster 2 is close to both
   * seeds 0 and 1 and its correspondences join both merged lists.
   */
  lemma TakenClusterJoinsTwoSeeds(t0: Matrix4, t1: Matrix4, t2: Matrix4, c0: Correspondence, c1: Correspondence, c2: Correspondence)
    requires t0 != t2 && t1 != t2
    ensures var close := (a: Matrix4, b: Matrix4) => b == t2 && a != t2;
      var ts := [t0, t1, t2];
      var clusters := [[c0], [c1], [c2]];
      && Seeds(close, ts, 3) == [0, 1]
      && Absorbed(close, ts, clusters, 0, 3) == [c0, c2]
      && Absorbed(close, ts, clusters, 1, 3) == [c1, c2]
  {
    var close := (a: Matrix4, b: Matrix4) => b == t2 && a != t2;
    var ts := [t0, t1, t2];
    assert Seeds(close, ts, 1) == [0];
    assert !AbsorbedBySome(close, ts, [0], 1);
    assert Seeds(close, ts, 2) == [0, 1];
    assert close(ts[[0, 1][0]], ts[2]);
    assert AbsorbedBySome(close, ts, [0, 1], 2);
  }
}
