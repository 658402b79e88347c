/** Value types shared by the recognition modules. */
module Types {

  /** A model identifier (the name of the model's folder). */
  type ModelId = string

  /**
   * pcl::Correspondence: index_query points into the model keypoint store,
   * index_match into the scene cloud, distance is the descriptor distance
   * (lower is better).
   */
  datatype Correspondence = Correspondence(indexQuery: int, indexMatch: int, distance: real)

  /** A 3D point or normal; its coordinates are never inspected by the model. */
  datatype Vec3 = Vec3(x: real, y: real, z: real)

  /** A 4x4 matrix as four rows of four entries (Eigen::Matrix4f). */
  type Matrix4 = m: seq<seq<real>> | IsMatrix4(m) witness Zero4()

  predicate IsMatrix4(m: seq<seq<real>>) {
    |m| == 4 && forall r :: 0 <= r < 4 ==> |m[r]| == 4
  }

  function Zero4(): (z: seq<seq<real>>)
    ensures IsMatrix4(z)
  {
    seq(4, r => seq(4, c => 0.0))
  }

  /** One pose hypothesis: the model, its pose in the scene, its support. */
  datatype ObjectHypothesis = ObjectHypothesis(
    modelId: ModelId,
    classId: string,
    transform: Matrix4,
    confidence: real,
    corr: seq<Correspondence>)

  /** A group of hypotheses; `globalHypotheses` tells the global pipeline's from the local one's. */
  datatype ObjectHypothesesGroup = ObjectHypothesesGroup(ohs: seq<ObjectHypothesis>, globalHypotheses: bool)
}
