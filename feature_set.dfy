/** The labelled feature source the estimator reads: labels 0 .. LabelCount()-1,
    FeatureCount(lbl) samples per label, each a vector of Dim() reals. Here the
    source is plain data indexed [label][index][feature]. */
module FeatureSets {
  import opened Moments

  datatype FeatureSet = FeatureSet(dim: nat, samples: seq<seq<seq<real>>>) {

    function Dim(): nat { dim }

    function LabelCount(): nat { |samples| }

    function FeatureCount(lbl: nat): nat
      requires lbl < |samples|
    {
      |samples[lbl]|
    }

    /** Every sample of every label has Dim() features. */
    predicate Valid() {
      forall l :: 0 <= l < |samples| ==> Shaped(samples[l], dim)
    }
  }

  /** FetchFeature fills the caller's buffer x with sample `index` of label `lbl`. */
  method FetchFeature(lfs: FeatureSet, lbl: nat, index: nat, x: array<real>)
    requires lfs.Valid() && lbl < lfs.LabelCount() && index < lfs.FeatureCount(lbl)
    requires x.Length == lfs.Dim()
    modifies x
    ensures x[..] == lfs.samples[lbl][index]
  {
    var v := lfs.samples[lbl][index];
    for k := 0 to x.Length
      invariant forall j :: 0 <= j < k ==> x[j] == v[j]
    {
      x[k] := v[k];
    }
  }
}
