/**
 * The recognizer base class (recognizer.h): its parameter defaults, the
 * assignment of the older object hypothesis type, and the accessors that
 * return all or only the verified model hypotheses.
 */
module Recognizers {
  import Types

  // ---------------------------------------------------------------------
  // Parameters (recognizer.h:89-122)
  // ---------------------------------------------------------------------

  datatype Parameter = Parameter(
    icpIterations: int,
    icpType: int,
    voxelSizeIcp: real,
    maxCorrDistance: real,
    normalComputationMethod: int,
    mergeCloseHypotheses: bool,
    mergeCloseHypothesesDist: real,
    mergeCloseHypothesesAngle: real,
    resolutionMmModelAssembly: int)

  /** Pose refinement runs only for a positive number of ICP iterations. */
  predicate RefinesPose(p: Parameter) {
    p.icpIterations > 0
  }

  /**
   * The default parameters (lines 102-121): no pose refinement, the ICP
   * variant that crops the scene, normals by method 2, and merging of close
   * hypotheses within 2 cm and 10 degrees.
   */
  function DefaultParameter(): (p: Parameter)
    ensures !RefinesPose(p) && p.icpType == 1
    ensures p.voxelSizeIcp == 0.0025 && p.maxCorrDistance == 0.05
    ensures p.normalComputationMethod == 2
    ensures p.mergeCloseHypotheses && p.mergeCloseHypothesesDist == 0.02 && p.mergeCloseHypothesesAngle == 10.0
    ensures p.resolutionMmModelAssembly == 3
  {
    Parameter(0, 1, 0.0025, 0.05, 2, true, 0.02, 10.0, 3)
  }

  // ---------------------------------------------------------------------
  // The object hypothesis of recognizer.h (lines 53-83)
  // ---------------------------------------------------------------------

  /** The correspondence vector that a hypothesis holds through a shared pointer. */
  class CorrespondenceList {
    var items: seq<Types.Correspondence>

    constructor ()
      ensures items == []
    {
      items := [];
    }
  }

  class ObjectHypothesis {
    var model: Types.ModelId
    var modelSceneCorresp: CorrespondenceList
    var indicesToFlannModels: seq<int>

    /** The default constructor gives the hypothesis its own, empty correspondence list (lines 66-69). */
    constructor (model: Types.ModelId)
      ensures this.model == model && fresh(modelSceneCorresp)
      ensures modelSceneCorresp.items == [] && indicesToFlannModels == []
    {
      this.model := model;
      modelSceneCorresp := new CorrespondenceList();
      indicesToFlannModels := [];
    }

    /**
     * `operator=` (lines 76-82): the correspondences are copied into this
     * hypothesis's own list, which stays the same list object; the flann
     * indices and the model are copied. Self-assignment changes nothing.
     */
    method Assign(rhs: ObjectHypothesis)
      modifies this, modelSceneCorresp
      ensures modelSceneCorresp == old(modelSceneCorresp)
      ensures modelSceneCorresp.items == old(rhs.modelSceneCorresp.items)
      ensures indicesToFlannModels == old(rhs.indicesToFlannModels)
      ensures model == old(rhs.model)
      ensures rhs != this && rhs.modelSceneCorresp != modelSceneCorresp ==> rhs.modelSceneCorresp.items == old(rhs.modelSceneCorresp.items)
    {
      modelSceneCorresp.items := rhs.modelSceneCorresp.items;
      indicesToFlannModels := rhs.indicesToFlannModels;
      model := rhs.model;
    }
  }

  /**
   * After an assignment between two hypotheses that own different lists,
   * a later change of the source's list leaves the target's copy alone.
   */
  method AssignmentCopiesContents(target: ObjectHypothesis, source: ObjectHypothesis, extra: Types.Correspondence)
    requires target.modelSceneCorresp != source.modelSceneCorresp
    modifies target, target.modelSceneCorresp, source.modelSceneCorresp
    ensures target.modelSceneCorresp.items == old(source.modelSceneCorresp.items)
    ensures source.modelSceneCorresp.items == old(source.modelSceneCorresp.items) + [extra]
  {
    target.Assign(source);
    source.modelSceneCorresp.items := source.modelSceneCorresp.items + [extra];
  }

  // ---------------------------------------------------------------------
  // Verified-result filtering (recognizer.h:245-304)
  // ---------------------------------------------------------------------

  /** The ascending indices below `n` whose flag is set. */
  function TrueIndices(flags: seq<bool>, n: nat): (idx: seq<nat>)
    requires n <= |flags|
    ensures forall k :: 0 <= k < |idx| ==> idx[k] < n && flags[idx[k]]
    ensures forall k, l :: 0 <= k < l < |idx| ==> idx[k] < idx[l]
    ensures forall i :: 0 <= i < n && flags[i] ==> i in idx
    ensures |idx| <= n
  {
    if n == 0 then []
    else if flags[n - 1] then TrueIndices(flags, n - 1) + [n - 1]
    else TrueIndices(flags, n - 1)
  }

  /** The entries of `xs` whose flag is set, in their order; flags past `xs` are not read. */
  function Kept<T>(xs: seq<T>, flags: seq<bool>): (r: seq<T>)
    requires |xs| <= |flags|
    ensures |r| <= |xs|
    decreases |xs|
  {
    if |xs| == 0 then []
    else if flags[|xs| - 1] then Kept(xs[..|xs| - 1], flags) + [xs[|xs| - 1]]
    else Kept(xs[..|xs| - 1], flags)
  }

  /**
   * What `getVerifiedModels` and `getVerifiedTransforms` return: nothing
   * when there are fewer flags than entries, the flagged entries otherwise.
   */
  function VerifiedOnly<T>(xs: seq<T>, flags: seq<bool>): (r: seq<T>)
    ensures |flags| < |xs| ==> r == []
    ensures |r| <= |xs|
  {
    if |flags| < |xs| then [] else Kept(xs, flags)
  }

  /** The kept entries are exactly the entries at the flagged indices, ascending. */
  lemma {:induction false} KeptAtTrueIndices<T>(xs: seq<T>, flags: seq<bool>)
    requires |xs| <= |flags|
    ensures var idx := TrueIndices(flags, |xs|);
      |Kept(xs, flags)| == |idx| && forall k :: 0 <= k < |idx| ==> Kept(xs, flags)[k] == xs[idx[k]]
    decreases |xs|
  {
    if |xs| > 0 {
      var front := xs[..|xs| - 1];
      KeptAtTrueIndices(front, flags);
      assert TrueIndices(flags, |front|) == TrueIndices(flags, |xs| - 1);
    }
  }

  /** With every flag set the whole list is returned; with none set, nothing. */
  lemma {:induction false} KeptAllOrNone<T>(xs: seq<T>, flags: seq<bool>)
    requires |xs| <= |flags|
    ensures (forall i :: 0 <= i < |xs| ==> flags[i]) ==> Kept(xs, flags) == xs
    ensures (forall i :: 0 <= i < |xs| ==> !flags[i]) ==> Kept(xs, flags) == []
    decreases |xs|
  {
    if |xs| > 0 {
      KeptAllOrNone(xs[..|xs| - 1], flags);
      assert xs == xs[..|xs| - 1] + [xs[|xs| - 1]];
    }
  }

  /** Only the first `|xs|` flags count: the plane flags after the models are ignored. */
  lemma {:induction false} KeptIgnoresTrailingFlags<T>(xs: seq<T>, flags: seq<bool>, more: seq<bool>)
    requires |xs| <= |flags|
    ensures Kept(xs, flags + more) == Kept(xs, flags)
    decreases |xs|
  {
    if |xs| > 0 {
      KeptIgnoresTrailingFlags(xs[..|xs| - 1], flags, more);
      assert (flags + more)[|xs| - 1] == flags[|xs| - 1];
    }
  }

  /** The loops of `getVerifiedModels` (lines 259-270) and `getVerifiedTransforms` (lines 292-303). */
  method FilterVerified<T>(xs: seq<T>, flags: seq<bool>) returns (r: seq<T>)
    ensures r == VerifiedOnly(xs, flags)
  {
    r := [];
    if |flags| < |xs| {
      return;
    }
    for i := 0 to |xs|
      invariant r == Kept(xs[..i], flags)
    {
      assert xs[..i + 1][..i] == xs[..i];
      if flags[i] {
        r := r + [xs[i]];
      }
    }
    assert xs[..|xs|] == xs;
  }

  class Recognizer {
    var param: Parameter
    var models: seq<Types.ModelId>
    var transforms: seq<Types.Matrix4>
    /** One flag per model, then one per plane. */
    var modelOrPlaneIsVerified: seq<bool>
    var requiresSegmentation: bool
    var indices: seq<int>
    var trainingDir: string

    /** Lines 164-168: the given parameters, no segmentation required, empty lists. */
    constructor (p: Parameter)
      ensures param == p && !requiresSegmentation
      ensures models == [] && transforms == [] && modelOrPlaneIsVerified == [] && indices == []
    {
      param := p;
      requiresSegmentation := false;
      models := [];
      transforms := [];
      modelOrPlaneIsVerified := [];
      indices := [];
      trainingDir := "";
    }

    /** `getModels` (lines 245-249): every generated hypothesis's model, verified or not. */
    function GetModels(): (r: seq<Types.ModelId>)
      reads this
      ensures r == models
    {
      models
    }

    /** `getTransforms` (lines 278-282). */
    function GetTransforms(): (r: seq<Types.Matrix4>)
      reads this
      ensures r == transforms
    {
      transforms
    }

    /** `requiresSegmentation` (lines 323-326). */
    function RequiresSegmentation(): (r: bool)
      reads this
      ensures r == requiresSegmentation
    {
      requiresSegmentation
    }

    /** `getVerifiedModels` (lines 256-271). */
    method GetVerifiedModels() returns (r: seq<Types.ModelId>)
      ensures r == VerifiedOnly(GetModels(), modelOrPlaneIsVerified)
    {
      r := FilterVerified(models, modelOrPlaneIsVerified);
    }

    /** `getVerifiedTransforms` (lines 289-304). */
    method GetVerifiedTransforms() returns (r: seq<Types.Matrix4>)
      ensures r == VerifiedOnly(GetTransforms(), modelOrPlaneIsVerified)
    {
      r := FilterVerified(transforms, modelOrPlaneIsVerified);
    }

    /** `setTrainingDir` (lines 310-314). */
    method SetTrainingDir(dir: string)
      modifies this
      ensures trainingDir == dir
      ensures param == old(param) && models == old(models) && transforms == old(transforms)
      ensures modelOrPlaneIsVerified == old(modelOrPlaneIsVerified) && indices == old(indices)
      ensures requiresSegmentation == old(requiresSegmentation)
    {
      trainingDir := dir;
    }

    /** `setIndices` (lines 328-332). */
    method SetIndices(indices: seq<int>)
      modifies this
      ensures this.indices == indices
      ensures param == old(param) && models == old(models) && transforms == old(transforms)
      ensures modelOrPlaneIsVerified == old(modelOrPlaneIsVerified) && trainingDir == old(trainingDir)
      ensures requiresSegmentation == old(requiresSegmentation)
    {
      this.indices := indices;
    }
  }
}
