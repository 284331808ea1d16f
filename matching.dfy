/**
 * What both activities share when they match a face against stored
 * embeddings: the crop, the embedding model, the distance between two
 * embeddings, and the smallest of the distances to the references.
 *
 * The embedding model (MobileFaceNet.generateEmbedding) and the distance
 * (MobileFaceNet.cosineDistance) are parameters.
 */
module Matching {
  import opened Enrollment
  import opened MyUtil

  /** The models a screen uses: the cropFace surroundings, the embedder and the distance. */
  datatype Models<!Image> = Models(
    env: Surroundings<Image>,
    embed: (Image, Region) -> Embedding,
    distance: (Embedding, Embedding) -> real)

  /** The distance from a probe to each reference, in order (`embeddings[0]` is the probe). */
  function Distances(probe: Embedding, refs: seq<Embedding>, distance: (Embedding, Embedding) -> real): (d: seq<real>)
    ensures |d| == |refs|
    ensures forall i :: 0 <= i < |refs| ==> d[i] == distance(probe, refs[i])
  {
    seq(|refs|, i requires 0 <= i < |refs| => distance(probe, refs[i]))
  }

  /** `distances[findMinimumDistance(distances)]`. */
  function MinDistance(d: seq<real>): real
    requires |d| > 0
  {
    d[FirstMinIndex(d)]
  }

  /**
   * The selected distance is the smallest one: no distance is below it and
   * one of them equals it; hence it is below a bound (strictly or not)
   * exactly when some distance is.
   */
  lemma MinDistanceIsLeast(d: seq<real>, bound: real)
    requires |d| > 0
    ensures forall i :: 0 <= i < |d| ==> MinDistance(d) <= d[i]
    ensures exists i :: 0 <= i < |d| && d[i] == MinDistance(d)
    ensures MinDistance(d) < bound <==> exists i :: 0 <= i < |d| && d[i] < bound
    ensures MinDistance(d) <= bound <==> exists i :: 0 <= i < |d| && d[i] <= bound
  {
    var k := FirstMinIndex(d);
    assert IsFirstMin(d, k);
    assert d[k] == MinDistance(d);
  }
}
