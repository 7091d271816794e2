/** Sample statistics of the feature vectors of one label: the column sums, the
    mean vector, the scatter sums and the covariance matrix in the form the
    estimator builds it (upper triangle summed, lower triangle mirrored). */
module Moments {
  import opened DenseMatrix

  /** Every sample has exactly dim features. */
  predicate Shaped(xs: seq<seq<real>>, dim: nat) {
    forall i :: 0 <= i < |xs| ==> |xs[i]| == dim
  }

  /** Sum of feature k over the first n samples. */
  function ColumnSum(xs: seq<seq<real>>, dim: nat, k: nat, n: nat): real
    requires Shaped(xs, dim) && k < dim && n <= |xs|
  {
    if n == 0 then 0.0 else ColumnSum(xs, dim, k, n - 1) + xs[n - 1][k]
  }

  /** The sample mean vector. */
  function Mean(xs: seq<seq<real>>, dim: nat): (mu: seq<real>)
    requires Shaped(xs, dim) && |xs| > 0
    ensures |mu| == dim
    ensures forall k :: 0 <= k < dim ==> mu[k] * (|xs| as real) == ColumnSum(xs, dim, k, |xs|)
  {
    seq(dim, k requires 0 <= k < dim => ColumnSum(xs, dim, k, |xs|) / |xs| as real)
  }

  /** Sum over the first n samples of (x[r] - mu[r]) * (x[c] - mu[c]). */
  function Scatter(xs: seq<seq<real>>, dim: nat, mu: seq<real>, r: nat, c: nat, n: nat): real
    requires Shaped(xs, dim) && |mu| == dim && r < dim && c < dim && n <= |xs|
  {
    if n == 0 then 0.0
    else Scatter(xs, dim, mu, r, c, n - 1) + (xs[n - 1][r] - mu[r]) * (xs[n - 1][c] - mu[c])
  }

  /** Flat entry p of the covariance buffer after the second pass over n samples:
      the scatter sum on and above the diagonal, zero below it. */
  function UpperScatter(xs: seq<seq<real>>, dim: nat, mu: seq<real>, p: nat, n: nat): real
    requires Shaped(xs, dim) && |mu| == dim && p < dim * dim && n <= |xs|
  {
    FlatSplit(dim, p);
    if p / dim <= p % dim then Scatter(xs, dim, mu, p / dim, p % dim, n) else 0.0
  }

  /** Bessel's correction: divide by cnt - 1 when there is more than one sample,
      otherwise leave the sum as it is. */
  function Bessel(v: real, cnt: nat): real {
    if cnt > 1 then v / (cnt - 1) as real else v
  }

  /** Flat entry p of the covariance matrix the estimator builds: entries on and
      above the diagonal are summed, those below copy their mirror image. */
  function CovarianceAt(xs: seq<seq<real>>, dim: nat, p: nat): real
    requires Shaped(xs, dim) && |xs| > 0 && p < dim * dim
  {
    FlatSplit(dim, p);
    var mu := Mean(xs, dim);
    var r, c := p / dim, p % dim;
    if r <= c then Bessel(Scatter(xs, dim, mu, r, c, |xs|), |xs|)
    else Bessel(Scatter(xs, dim, mu, c, r, |xs|), |xs|)
  }

  function Covariance(xs: seq<seq<real>>, dim: nat): (s: seq<real>)
    requires Shaped(xs, dim) && |xs| > 0
    ensures |s| == dim * dim
  {
    seq(dim * dim, p requires 0 <= p < dim * dim => CovarianceAt(xs, dim, p))
  }

  /** The textbook unbiased sample covariance, every entry summed directly. */
  function SampleCovariance(xs: seq<seq<real>>, dim: nat): (s: seq<real>)
    requires Shaped(xs, dim) && |xs| > 0
    ensures |s| == dim * dim
  {
    var mu := Mean(xs, dim);
    seq(dim * dim, p requires 0 <= p < dim * dim =>
      FlatSplit(dim, p); Bessel(Scatter(xs, dim, mu, p / dim, p % dim, |xs|), |xs|))
  }

  lemma {:induction false} ScatterSymmetric(xs: seq<seq<real>>, dim: nat, mu: seq<real>, r: nat, c: nat, n: nat)
    requires Shaped(xs, dim) && |mu| == dim && r < dim && c < dim && n <= |xs|
    ensures Scatter(xs, dim, mu, r, c, n) == Scatter(xs, dim, mu, c, r, n)
  {
    if n > 0 {
      ScatterSymmetric(xs, dim, mu, r, c, n - 1);
    }
  }

  /** Summing only the upper triangle and mirroring loses nothing: the result is
      the full sample covariance. */
  lemma CovarianceIsSampleCovariance(xs: seq<seq<real>>, dim: nat)
    requires Shaped(xs, dim) && |xs| > 0
    ensures Covariance(xs, dim) == SampleCovariance(xs, dim)
  {
    var mu := Mean(xs, dim);
    forall p | 0 <= p < dim * dim
      ensures Covariance(xs, dim)[p] == SampleCovariance(xs, dim)[p]
    {
      FlatSplit(dim, p);
      ScatterSymmetric(xs, dim, mu, p / dim, p % dim, |xs|);
    }
  }

  /** The covariance matrix is exactly symmetric. */
  lemma CovarianceSymmetric(xs: seq<seq<real>>, dim: nat)
    requires Shaped(xs, dim) && |xs| > 0
    ensures Symmetric(Covariance(xs, dim), dim)
  {
    var s := Covariance(xs, dim);
    forall r, c | 0 <= r < dim && 0 <= c < dim
      ensures Cell(s, dim, r, c) == Cell(s, dim, c, r)
    {
      FlatIndex(dim, r, c);
      FlatIndex(dim, c, r);
    }
  }

  /** Sum over the first n samples of x[k] - mu[k]. */
  function DeviationSum(xs: seq<seq<real>>, dim: nat, mu: seq<real>, k: nat, n: nat): real
    requires Shaped(xs, dim) && |mu| == dim && k < dim && n <= |xs|
  {
    if n == 0 then 0.0 else DeviationSum(xs, dim, mu, k, n - 1) + (xs[n - 1][k] - mu[k])
  }

  lemma {:induction false} DeviationSumIsShiftedColumnSum(xs: seq<seq<real>>, dim: nat, mu: seq<real>, k: nat, n: nat)
    requires Shaped(xs, dim) && |mu| == dim && k < dim && n <= |xs|
    ensures DeviationSum(xs, dim, mu, k, n) == ColumnSum(xs, dim, k, n) - (n as real) * mu[k]
  {
    if n > 0 {
      DeviationSumIsShiftedColumnSum(xs, dim, mu, k, n - 1);
    }
  }

  /** The mean is the centre of the samples: their deviations from it cancel. */
  lemma DeviationsFromMeanCancel(xs: seq<seq<real>>, dim: nat, k: nat)
    requires Shaped(xs, dim) && |xs| > 0 && k < dim
    ensures DeviationSum(xs, dim, Mean(xs, dim), k, |xs|) == 0.0
  {
    DeviationSumIsShiftedColumnSum(xs, dim, Mean(xs, dim), k, |xs|);
  }

  lemma {:induction false} ColumnSumOfIdentical(xs: seq<seq<real>>, dim: nat, k: nat, n: nat)
    requires Shaped(xs, dim) && k < dim && 0 < n <= |xs|
    requires forall i :: 0 <= i < |xs| ==> xs[i] == xs[0]
    ensures ColumnSum(xs, dim, k, n) == (n as real) * xs[0][k]
  {
    if n > 1 {
      ColumnSumOfIdentical(xs, dim, k, n - 1);
    }
  }

  lemma {:induction false} ScatterOfIdentical(xs: seq<seq<real>>, dim: nat, mu: seq<real>, r: nat, c: nat, n: nat)
    requires Shaped(xs, dim) && |mu| == dim && r < dim && c < dim && n <= |xs|
    requires forall i :: 0 <= i < |xs| ==> xs[i] == mu
    ensures Scatter(xs, dim, mu, r, c, n) == 0.0
  {
    if n > 0 {
      ScatterOfIdentical(xs, dim, mu, r, c, n - 1);
      assert xs[n - 1] == mu;
      assert xs[n - 1][r] - mu[r] == 0.0;
      assert (xs[n - 1][r] - mu[r]) * (xs[n - 1][c] - mu[c]) == 0.0;
    }
  }

  /** Samples that are all the same vector have that vector as mean and the zero
      matrix as covariance. */
  lemma IdenticalSamplesCovarianceIsZero(xs: seq<seq<real>>, dim: nat)
    requires Shaped(xs, dim) && |xs| > 0
    requires forall i :: 0 <= i < |xs| ==> xs[i] == xs[0]
    ensures Mean(xs, dim) == xs[0]
    ensures Covariance(xs, dim) == ZeroMatrix(dim)
  {
    var mu := Mean(xs, dim);
    forall k | 0 <= k < dim ensures mu[k] == xs[0][k] {
      ColumnSumOfIdentical(xs, dim, k, |xs|);
    }
    assert mu == xs[0];
    forall p | 0 <= p < dim * dim ensures Covariance(xs, dim)[p] == 0.0 {
      FlatSplit(dim, p);
      ScatterOfIdentical(xs, dim, mu, p / dim, p % dim, |xs|);
      ScatterOfIdentical(xs, dim, mu, p % dim, p / dim, |xs|);
    }
  }

  /** A single sample has mean equal to itself, so its covariance is the zero matrix. */
  lemma SingleSampleCovarianceIsZero(xs: seq<seq<real>>, dim: nat)
    requires Shaped(xs, dim) && |xs| == 1
    ensures Covariance(xs, dim) == ZeroMatrix(dim)
  {
    IdenticalSamplesCovarianceIsZero(xs, dim);
  }
}
