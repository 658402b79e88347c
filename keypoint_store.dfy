/**
 * The unified model keypoint store that `LocalRecognitionPipeline::initialize`
 * builds from all local feature matchers: per model, every matcher's
 * keypoints (and their normals) are appended in matcher order, and the start
 * of each matcher's range is recorded so that its correspondence indices can
 * later be shifted into the unified store.
 */
module KeypointStore {
  import opened Types
  import opened OrderedMaps

  /** One model's keypoints and keypoint normals. */
  datatype LocalObjectModel = LocalObjectModel(keypoints: seq<Vec3>, kpNormals: seq<Vec3>)

  /** What a matcher (or the unified store) holds: keypoints per model. */
  type ModelKeypoints = map<ModelId, LocalObjectModel>

  function Append(u: LocalObjectModel, l: LocalObjectModel): LocalObjectModel {
    LocalObjectModel(u.keypoints + l.keypoints, u.kpNormals + l.kpNormals)
  }

  /** The store after one more matcher's models have been registered. */
  function Register(store: ModelKeypoints, d: ModelKeypoints): ModelKeypoints {
    map m | m in store.Keys + d.Keys ::
      if m in d then (if m in store then Append(store[m], d[m]) else d[m]) else store[m]
  }

  /** The range starts recorded for a matcher: the model's store size before it, or 0 if absent. */
  function RangeStarts(store: ModelKeypoints, d: ModelKeypoints): map<ModelId, nat> {
    map m | m in d :: if m in store then |store[m].keypoints| else 0
  }

  /** The unified store after registering the matchers `ms` in order. */
  function Unified(ms: seq<ModelKeypoints>): ModelKeypoints
    decreases |ms|
  {
    if |ms| == 0 then map[] else Register(Unified(ms[..|ms| - 1]), ms[|ms| - 1])
  }

  /** The range starts recorded for matcher `i`. */
  function RangeStartsOf(ms: seq<ModelKeypoints>, i: nat): map<ModelId, nat>
    requires i < |ms|
  {
    RangeStarts(Unified(ms[..i]), ms[i])
  }

  /** Reference count: how many keypoints of `m` the matchers `ms` hold together. */
  function KeypointCount(ms: seq<ModelKeypoints>, m: ModelId): nat
    decreases |ms|
  {
    if |ms| == 0 then 0
    else KeypointCount(ms[..|ms| - 1], m) + (if m in ms[|ms| - 1] then |ms[|ms| - 1][m].keypoints| else 0)
  }

  /** Every matcher holds as many normals as keypoints for each model. */
  predicate Aligned(ms: seq<ModelKeypoints>) {
    forall j, m :: 0 <= j < |ms| && m in ms[j] ==> |ms[j][m].keypoints| == |ms[j][m].kpNormals|
  }

  /** A model is in the unified store iff some matcher holds it. */
  lemma {:induction false} UnifiedKeys(ms: seq<ModelKeypoints>, m: ModelId)
    ensures m in Unified(ms) <==> exists j :: 0 <= j < |ms| && m in ms[j]
    decreases |ms|
  {
    if |ms| > 0 {
      var front := ms[..|ms| - 1];
      UnifiedKeys(front, m);
      if m in Unified(front) {
        var j :| 0 <= j < |front| && m in front[j];
        assert ms[j] == front[j];
      }
      if exists j :: 0 <= j < |ms| && m in ms[j] {
        var j :| 0 <= j < |ms| && m in ms[j];
        if j < |ms| - 1 { assert front[j] == ms[j]; }
      }
    }
  }

  /** The unified store holds exactly all matchers' keypoints of a model. */
  lemma {:induction false} UnifiedSize(ms: seq<ModelKeypoints>, m: ModelId)
    ensures m in Unified(ms) ==> |Unified(ms)[m].keypoints| == KeypointCount(ms, m)
    ensures m !in Unified(ms) ==> KeypointCount(ms, m) == 0
    decreases |ms|
  {
    if |ms| > 0 { UnifiedSize(ms[..|ms| - 1], m); }
  }

  /** The recorded range start of matcher `i` counts the keypoints of all earlier matchers. */
  lemma RangeStartIsCount(ms: seq<ModelKeypoints>, i: nat, m: ModelId)
    requires i < |ms| && m in ms[i]
    ensures RangeStartsOf(ms, i)[m] == KeypointCount(ms[..i], m)
    ensures (forall j :: 0 <= j < i ==> m !in ms[j]) ==> RangeStartsOf(ms, i)[m] == 0
  {
    UnifiedSize(ms[..i], m);
    UnifiedKeys(ms[..i], m);
  }

  /** Registering more matchers only appends to a model's keypoints and normals. */
  lemma {:induction false} UnifiedPrefix(ms: seq<ModelKeypoints>, i: nat, m: ModelId)
    requires i <= |ms| && m in Unified(ms[..i])
    ensures m in Unified(ms)
    ensures Unified(ms[..i])[m].keypoints <= Unified(ms)[m].keypoints
    ensures Unified(ms[..i])[m].kpNormals <= Unified(ms)[m].kpNormals
    decreases |ms| - i
  {
    if i == |ms| {
      assert ms[..i] == ms;
    } else {
      assert ms[..i + 1][..i] == ms[..i];
      UnifiedPrefix(ms, i + 1, m);
    }
  }

  /**
   * The keypoint a matcher calls `k` for model `m` sits at index
   * range start + `k` of the unified store.
   */
  lemma UnifiedIndexing(ms: seq<ModelKeypoints>, i: nat, m: ModelId, k: nat)
    requires i < |ms| && m in ms[i] && k < |ms[i][m].keypoints|
    ensures m in Unified(ms)
    ensures RangeStartsOf(ms, i)[m] + k < |Unified(ms)[m].keypoints|
    ensures Unified(ms)[m].keypoints[RangeStartsOf(ms, i)[m] + k] == ms[i][m].keypoints[k]
  {
    var before := Unified(ms[..i]);
    assert ms[..i + 1][..i] == ms[..i];
    var after := Unified(ms[..i + 1]);
    assert after[m].keypoints == (if m in before then before[m].keypoints else []) + ms[i][m].keypoints;
    UnifiedPrefix(ms, i + 1, m);
  }

  /** With aligned matchers the unified store is aligned, and normals are indexed like keypoints. */
  lemma {:induction false} UnifiedAligned(ms: seq<ModelKeypoints>, m: ModelId)
    requires Aligned(ms) && m in Unified(ms)
    ensures |Unified(ms)[m].kpNormals| == |Unified(ms)[m].keypoints|
    decreases |ms|
  {
    var front := ms[..|ms| - 1];
    assert Aligned(front) by {
      forall j, m' | 0 <= j < |front| && m' in front[j]
        ensures |front[j][m'].keypoints| == |front[j][m'].kpNormals|
      { assert front[j] == ms[j]; }
    }
    if m in Unified(front) { UnifiedAligned(front, m); }
  }

  lemma UnifiedNormalIndexing(ms: seq<ModelKeypoints>, i: nat, m: ModelId, k: nat)
    requires Aligned(ms)
    requires i < |ms| && m in ms[i] && k < |ms[i][m].kpNormals|
    ensures m in Unified(ms)
    ensures RangeStartsOf(ms, i)[m] + k < |Unified(ms)[m].kpNormals|
    ensures Unified(ms)[m].kpNormals[RangeStartsOf(ms, i)[m] + k] == ms[i][m].kpNormals[k]
  {
    var before := Unified(ms[..i]);
    assert ms[..i + 1][..i] == ms[..i];
    assert Aligned(ms[..i]) by {
      forall j, m' | 0 <= j < i && m' in ms[..i][j]
        ensures |ms[..i][j][m'].keypoints| == |ms[..i][j][m'].kpNormals|
      { assert ms[..i][j] == ms[j]; }
    }
    if m in before { UnifiedAligned(ms[..i], m); }
    var after := Unified(ms[..i + 1]);
    assert after[m].kpNormals == (if m in before then before[m].kpNormals else []) + ms[i][m].kpNormals;
    UnifiedPrefix(ms, i + 1, m);
  }

  /** The models of `d` that are in `ks`. */
  function Restrict(d: ModelKeypoints, ks: set<ModelId>): ModelKeypoints {
    map m | m in d && m in ks :: d[m]
  }

  /** Registering one more model of a matcher updates only that model's entry. */
  lemma RegisterStep(store: ModelKeypoints, d: ModelKeypoints, done: set<ModelId>, m: ModelId)
    requires m in d && m !in done
    ensures Register(store, Restrict(d, done + {m})) ==
      Register(store, Restrict(d, done))[m := if m in store then Append(store[m], d[m]) else d[m]]
    ensures RangeStarts(store, Restrict(d, done + {m})) ==
      RangeStarts(store, Restrict(d, done))[m := if m in store then |store[m].keypoints| else 0]
    ensures m in Register(store, Restrict(d, done)) <==> m in store
    ensures m in store ==> Register(store, Restrict(d, done))[m] == store[m]
  {
    var before, after := Restrict(d, done), Restrict(d, done + {m});
    assert after == before[m := d[m]];
    RegisterUpdate(store, before, m, d[m]);
    RangeStartsUpdate(store, before, m, d[m]);
  }

  /** Registering a matcher store with one more model changes only that model's entry. */
  lemma RegisterUpdate(store: ModelKeypoints, d: ModelKeypoints, m: ModelId, kp: LocalObjectModel)
    requires m !in d
    ensures Register(store, d[m := kp]) == Register(store, d)[m := if m in store then Append(store[m], kp) else kp]
  {
    var l, r := Register(store, d[m := kp]), Register(store, d)[m := if m in store then Append(store[m], kp) else kp];
    assert l.Keys == r.Keys;
    forall k | k in l.Keys ensures l[k] == r[k] {
    }
  }

  lemma RangeStartsUpdate(store: ModelKeypoints, d: ModelKeypoints, m: ModelId, kp: LocalObjectModel)
    requires m !in d
    ensures RangeStarts(store, d[m := kp]) == RangeStarts(store, d)[m := if m in store then |store[m].keypoints| else 0]
  {
    var l, r := RangeStarts(store, d[m := kp]), RangeStarts(store, d)[m := if m in store then |store[m].keypoints| else 0];
    assert l.Keys == r.Keys;
  }

  lemma RestrictAll(d: ModelKeypoints)
    ensures Restrict(d, d.Keys) == d
  {
  }

  lemma MapPlusUpdate(a: map<ModelId, nat>, b: map<ModelId, nat>, k: ModelId, v: nat)
    ensures (a + b)[k := v] == a + b[k := v]
  {
  }

  /**
   * The store after registering the models `ks` of matcher store `d` one
   * at a time, each appended to the current entry or copied in (the loop
   * at lines 30-51).
   */
  function RegisterKeys(store: ModelKeypoints, d: ModelKeypoints, ks: seq<ModelId>): ModelKeypoints
    requires forall k :: k in ks ==> k in d
    decreases |ks|
  {
    if |ks| == 0 then store
    else
      var cur := RegisterKeys(store, d, ks[..|ks| - 1]);
      var m := ks[|ks| - 1];
      cur[m := if m in cur then Append(cur[m], d[m]) else d[m]]
  }

  /** The range starts recorded along the way: the model's current keypoint count, or 0 if absent. */
  function StartsKeys(prior: map<ModelId, nat>, store: ModelKeypoints, d: ModelKeypoints, ks: seq<ModelId>): map<ModelId, nat>
    requires forall k :: k in ks ==> k in d
    decreases |ks|
  {
    if |ks| == 0 then prior
    else
      var cur := RegisterKeys(store, d, ks[..|ks| - 1]);
      var m := ks[|ks| - 1];
      StartsKeys(prior, store, d, ks[..|ks| - 1])[m := if m in cur then |cur[m].keypoints| else 0]
  }

  /** Registering distinct models one at a time is registering the part of `d` they name. */
  lemma {:induction false} RegisterKeysRestrict(store: ModelKeypoints, d: ModelKeypoints, ks: seq<ModelId>)
    requires Distinct(ks) && forall k :: k in ks ==> k in d
    ensures RegisterKeys(store, d, ks) == Register(store, Restrict(d, Elements(ks)))
    decreases |ks|
  {
    if |ks| == 0 {
      assert Restrict(d, Elements(ks)) == map[];
    } else {
      var front, m := ks[..|ks| - 1], ks[|ks| - 1];
      DistinctFront(ks);
      RegisterKeysRestrict(store, d, front);
      RegisterStep(store, d, Elements(front), m);
    }
  }

  /** The range starts recorded that way are those `RangeStarts` gives for the part of `d` they name. */
  lemma {:induction false} StartsKeysRestrict(prior: map<ModelId, nat>, store: ModelKeypoints, d: ModelKeypoints, ks: seq<ModelId>)
    requires Distinct(ks) && forall k :: k in ks ==> k in d
    ensures StartsKeys(prior, store, d, ks) == prior + RangeStarts(store, Restrict(d, Elements(ks)))
    decreases |ks|
  {
    if |ks| == 0 {
      assert Restrict(d, Elements(ks)) == map[];
    } else {
      var front, m := ks[..|ks| - 1], ks[|ks| - 1];
      DistinctFront(ks);
      StartsKeysRestrict(prior, store, d, front);
      RegisterKeysRestrict(store, d, front);
      var done := Elements(front);
      RegisterStep(store, d, done, m);
      MapPlusUpdate(prior, RangeStarts(store, Restrict(d, done)), m, if m in store then |store[m].keypoints| else 0);
    }
  }

  /** Registering every model of `d`, each once, is `Register`. */
  lemma RegisterKeysWhole(prior: map<ModelId, nat>, store: ModelKeypoints, d: ModelKeypoints, ks: seq<ModelId>)
    requires Distinct(ks) && forall k :: k in ks <==> k in d
    ensures RegisterKeys(store, d, ks) == Register(store, d)
    ensures StartsKeys(prior, store, d, ks) == prior + RangeStarts(store, d)
  {
    RegisterKeysRestrict(store, d, ks);
    StartsKeysRestrict(prior, store, d, ks);
    assert Elements(ks) == d.Keys;
    RestrictAll(d);
  }
}
