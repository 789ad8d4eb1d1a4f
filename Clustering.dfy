/**
 * The clustering step. The spectral clusterer is a parameter `predict`,
 * configured with the speaker bounds and applied to the stacked
 * embeddings; all that is assumed of it is one id per embedding.
 */
module Clustering {

  import opened SpeakerCount

  /** What the script relies on from `clusterer.predict`: one cluster id per row. */
  ghost predicate OneIdPerEmbedding<E(!new)>(predict: (SpeakerBounds, seq<E>) -> seq<int>)
  {
    forall bounds, batch :: |batch| > 0 ==> |predict(bounds, batch)| == |batch|
  }

  /**
   * `clusters`: the clusterer's ids when there is at least one embedding,
   * the empty list otherwise (the clusterer is then not called).
   */
  function ClusterIds<E>(embeddings: seq<E>, bounds: SpeakerBounds, predict: (SpeakerBounds, seq<E>) -> seq<int>): (clusters: seq<int>)
    requires |embeddings| > 0 ==> |predict(bounds, embeddings)| == |embeddings|
    ensures |clusters| == |embeddings|
    ensures |embeddings| == 0 ==> clusters == []
  {
    if |embeddings| > 0 then predict(bounds, embeddings) else []
  }

  /**
   * With no embeddings the clusterer is not consulted: the result is the
   * same whatever `predict` would have answered.
   */
  lemma ClusteringSkippedWhenEmpty<E>(bounds: SpeakerBounds, p1: (SpeakerBounds, seq<E>) -> seq<int>, p2: (SpeakerBounds, seq<E>) -> seq<int>)
    ensures ClusterIds([], bounds, p1) == ClusterIds([], bounds, p2) == []
  {
  }
}
