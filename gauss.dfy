/** The Gaussian classifier: training one multivariate normal distribution per
    label from a labelled feature source, and classifying a feature vector by the
    largest log-posterior. Arithmetic is over exact reals; the logarithm, the
    matrix inverse and the determinant are the foreign routines of `Routines`. */
module Gauss {
  import opened Numerics
  import opened DenseMatrix
  import opened Moments
  import opened FeatureSets

  /** One term of the bilinear form: (x[k] - mean[k]) * (x[l] - mean[l]) * prec[k*dim + l]. */
  function QuadTerm(x: seq<real>, mean: seq<real>, prec: seq<real>, k: nat, l: nat): real
    requires |mean| <= |x| && |mean| * |mean| <= |prec| && k < |mean| && l < |mean|
  {
    FlatIndex(|mean|, k, l);
    (x[k] - mean[k]) * (x[l] - mean[l]) * prec[k * |mean| + l]
  }

  /** Sum of the terms of row k for columns below n. */
  function RowSum(x: seq<real>, mean: seq<real>, prec: seq<real>, k: nat, n: nat): real
    requires |mean| <= |x| && |mean| * |mean| <= |prec| && k < |mean| && n <= |mean|
  {
    if n == 0 then 0.0 else RowSum(x, mean, prec, k, n - 1) + QuadTerm(x, mean, prec, k, n - 1)
  }

  /** Sum of the rows below m. */
  function FormSum(x: seq<real>, mean: seq<real>, prec: seq<real>, m: nat): real
    requires |mean| <= |x| && |mean| * |mean| <= |prec| && m <= |mean|
  {
    if m == 0 then 0.0 else FormSum(x, mean, prec, m - 1) + RowSum(x, mean, prec, m - 1, |mean|)
  }

  /** (x - mean)' * P * (x - mean) with P the row-major |mean|-by-|mean| matrix prec. */
  function Bilinear(x: seq<real>, mean: seq<real>, prec: seq<real>): real
    requires |mean| <= |x| && |mean| * |mean| <= |prec|
  {
    FormSum(x, mean, prec, |mean|)
  }

  lemma {:induction false} RowSumReadsPrefix(x: seq<real>, y: seq<real>, mean: seq<real>, prec: seq<real>, k: nat, n: nat)
    requires |mean| <= |x| && |mean| <= |y| && |mean| * |mean| <= |prec| && k < |mean| && n <= |mean|
    requires forall j :: 0 <= j < |mean| ==> x[j] == y[j]
    ensures RowSum(x, mean, prec, k, n) == RowSum(y, mean, prec, k, n)
  {
    if n > 0 {
      RowSumReadsPrefix(x, y, mean, prec, k, n - 1);
    }
  }

  lemma {:induction false} FormSumReadsPrefix(x: seq<real>, y: seq<real>, mean: seq<real>, prec: seq<real>, m: nat)
    requires |mean| <= |x| && |mean| <= |y| && |mean| * |mean| <= |prec| && m <= |mean|
    requires forall j :: 0 <= j < |mean| ==> x[j] == y[j]
    ensures FormSum(x, mean, prec, m) == FormSum(y, mean, prec, m)
  {
    if m > 0 {
      FormSumReadsPrefix(x, y, mean, prec, m - 1);
      RowSumReadsPrefix(x, y, mean, prec, m - 1, |mean|);
    }
  }

  /** The score reads only the first dim = |mean| features of x. */
  lemma BilinearReadsPrefix(x: seq<real>, y: seq<real>, mean: seq<real>, prec: seq<real>)
    requires |mean| <= |x| && |mean| <= |y| && |mean| * |mean| <= |prec|
    requires forall j :: 0 <= j < |mean| ==> x[j] == y[j]
    ensures Bilinear(x, mean, prec) == Bilinear(y, mean, prec)
  {
    FormSumReadsPrefix(x, y, mean, prec, |mean|);
  }

  lemma {:induction false} RowSumAtMean(x: seq<real>, mean: seq<real>, prec: seq<real>, k: nat, n: nat)
    requires |mean| <= |x| && |mean| * |mean| <= |prec| && k < |mean| && n <= |mean|
    requires x[k] == mean[k]
    ensures RowSum(x, mean, prec, k, n) == 0.0
  {
    if n > 0 {
      RowSumAtMean(x, mean, prec, k, n - 1);
    }
  }

  lemma {:induction false} FormSumAtMean(x: seq<real>, mean: seq<real>, prec: seq<real>, m: nat)
    requires |mean| <= |x| && |mean| * |mean| <= |prec| && m <= |mean|
    requires forall j :: 0 <= j < |mean| ==> x[j] == mean[j]
    ensures FormSum(x, mean, prec, m) == 0.0
  {
    if m > 0 {
      FormSumAtMean(x, mean, prec, m - 1);
      RowSumAtMean(x, mean, prec, m - 1, |mean|);
    }
  }

  /** At the mean the bilinear form vanishes, whatever the precision matrix. */
  lemma BilinearAtMean(x: seq<real>, mean: seq<real>, prec: seq<real>)
    requires |mean| <= |x| && |mean| * |mean| <= |prec|
    requires forall j :: 0 <= j < |mean| ==> x[j] == mean[j]
    ensures Bilinear(x, mean, prec) == 0.0
  {
    FormSumAtMean(x, mean, prec, |mean|);
  }

  /** The log normalising constant -1/2 (dim log(2 Pi) + log(det Sigma)). */
  function LogCoef(log: real -> real, dim: nat, det: real): real {
    -0.5 * (log(2.0 * Pi) * (dim as real) + log(det))
  }

  class GaussianClassifier {
    /** Means[lbl]: the mean vector of label lbl. */
    var Means: seq<seq<real>>
    /** Precs[lbl]: the inverse covariance matrix of label lbl times -1/2, row-major. */
    var Precs: seq<seq<real>>
    /** LogCoefs[lbl]: the log normalising constant of label lbl. */
    var LogCoefs: seq<real>
    /** If non-null, the logarithms of the prior probabilities of the labels. */
    var LogPrior: array?<real>

    constructor (means: seq<seq<real>>, precs: seq<seq<real>>, logCoefs: seq<real>)
      ensures Means == means && Precs == precs && LogCoefs == logCoefs && LogPrior == null
    {
      Means, Precs, LogCoefs, LogPrior := means, precs, logCoefs, null;
    }

    /** The log-likelihood of label lbl at x reads no index out of range. */
    predicate LikelihoodDefined(lbl: nat, x: seq<real>)
      reads this
    {
      && lbl < |LogCoefs| && lbl < |Means| && lbl < |Precs|
      && |Means[lbl]| <= |x| && |Means[lbl]| * |Means[lbl]| <= |Precs[lbl]|
    }

    /** Label lbl can be scored on x, prior included, without an index going out of range. */
    predicate Scorable(lbl: nat, x: seq<real>)
      reads this
    {
      LikelihoodDefined(lbl, x) && (LogPrior != null ==> lbl < LogPrior.Length)
    }

    /** The log-posterior of label lbl at x, as a closed form. */
    ghost function Posterior(lbl: nat, x: seq<real>): real
      reads this, LogPrior
      requires Scorable(lbl, x)
    {
      var ll := LogCoefs[lbl] + Bilinear(x, Means[lbl], Precs[lbl]);
      if LogPrior == null then ll else ll + LogPrior[lbl]
    }

    /** SetPrior stores the logarithms of the prior probabilities, allocating the
        array only when there is none yet. */
    method SetPrior(priors: seq<real>, log: real -> real)
      requires LogPrior != null ==> |priors| <= LogPrior.Length
      modifies this`LogPrior, LogPrior
      ensures old(LogPrior) == null ==> fresh(LogPrior) && LogPrior.Length == |priors|
      ensures old(LogPrior) != null ==> LogPrior == old(LogPrior)
      ensures LogPrior != null
      ensures forall i :: 0 <= i < |priors| ==> LogPrior[i] == log(priors[i])
      ensures old(LogPrior) != null ==>
        forall i :: |priors| <= i < LogPrior.Length ==> LogPrior[i] == old(LogPrior[i])
    {
      if LogPrior == null {
        LogPrior := new real[|priors|](_ => 0.0);
      }
      for i := 0 to |priors|
        invariant LogPrior != null && |priors| <= LogPrior.Length
        invariant old(LogPrior) == null ==> fresh(LogPrior) && LogPrior.Length == |priors|
        invariant old(LogPrior) != null ==> LogPrior == old(LogPrior)
        invariant forall j :: 0 <= j < i ==> LogPrior[j] == log(priors[j])
        invariant old(LogPrior) != null ==>
          forall j :: |priors| <= j < LogPrior.Length ==> LogPrior[j] == old(LogPrior[j])
      {
        LogPrior[i] := log(priors[i]);
      }
    }

    /** Classify returns the label of the largest log-posterior, the lowest such
        label on a tie, and -1 when there are no labels. */
    method Classify(x: seq<real>) returns (bestLabel: int)
      requires forall lbl :: 0 <= lbl < |LogCoefs| ==> Scorable(lbl, x)
      ensures bestLabel == -1 <==> |LogCoefs| == 0
      ensures |LogCoefs| > 0 ==> 0 <= bestLabel < |LogCoefs|
      ensures 0 <= bestLabel ==> forall lbl :: 0 <= lbl < |LogCoefs| ==> Posterior(lbl, x) <= Posterior(bestLabel, x)
      ensures 0 <= bestLabel ==> forall lbl :: 0 <= lbl < bestLabel ==> Posterior(lbl, x) < Posterior(bestLabel, x)
    {
      var bestLogP := 0.0;
      bestLabel := -1;
      for lbl := 0 to |LogCoefs|
        invariant bestLabel == -1 || 0 <= bestLabel < lbl
        invariant bestLabel == -1 <==> lbl == 0
        invariant 0 <= bestLabel ==> bestLogP == Posterior(bestLabel, x)
        invariant forall j :: 0 <= j < lbl ==> Posterior(j, x) <= bestLogP
        invariant forall j :: 0 <= j < bestLabel ==> Posterior(j, x) < bestLogP
      {
        var logP := LogPosterior(lbl, x);
        if bestLabel < 0 || logP > bestLogP {
          bestLabel, bestLogP := lbl, logP;
        }
      }
    }

    /** LogLikelyhood adds the bilinear form of the precision matrix at x - mean to
        the log normalising constant. */
    method LogLikelyhood(lbl: nat, x: seq<real>) returns (logP: real)
      requires LikelihoodDefined(lbl, x)
      ensures logP == LogCoefs[lbl] + Bilinear(x, Means[lbl], Precs[lbl])
    {
      logP := LogCoefs[lbl];
      var mean := Means[lbl];
      var prec := Precs[lbl];
      var dim := |mean|;
      for k := 0 to dim
        invariant logP == LogCoefs[lbl] + FormSum(x, mean, prec, k)
      {
        var vk := x[k] - mean[k];
        for l := 0 to dim
          invariant logP == LogCoefs[lbl] + FormSum(x, mean, prec, k) + RowSum(x, mean, prec, k, l)
        {
          var vl := x[l] - mean[l];
          FlatIndex(dim, k, l);
          logP := logP + vk * vl * prec[k * dim + l];
        }
      }
    }

    /** LogPosterior adds the log-prior of the label, if any, to its log-likelihood. */
    method LogPosterior(lbl: nat, x: seq<real>) returns (logP: real)
      requires Scorable(lbl, x)
      ensures LogPrior == null ==> logP == LogCoefs[lbl] + Bilinear(x, Means[lbl], Precs[lbl])
      ensures LogPrior != null ==> logP == LogCoefs[lbl] + Bilinear(x, Means[lbl], Precs[lbl]) + LogPrior[lbl]
    {
      logP := LogLikelyhood(lbl, x);
      if LogPrior != null {
        logP := logP + LogPrior[lbl];
      }
    }
  }
  /** Label lbl's covariance matrix can be inverted. */
  ghost predicate Invertible(lfs: FeatureSet, lib: Routines, lbl: nat)
    requires lfs.Valid() && lbl < lfs.LabelCount() && lfs.FeatureCount(lbl) > 0
  {
    lib.inverse(Covariance(lfs.samples[lbl], lfs.dim), lfs.dim).Some?
  }

  ghost predicate AllInvertible(lfs: FeatureSet, lib: Routines)
    requires lfs.Valid() && forall lbl :: 0 <= lbl < lfs.LabelCount() ==> lfs.FeatureCount(lbl) > 0
  {
    forall lbl :: 0 <= lbl < lfs.LabelCount() ==> Invertible(lfs, lib, lbl)
  }

  /** The entries the model holds for label lbl, each computed from that label's
      own samples only: the mean, the inverse covariance times -1/2, and the log
      normalising constant. */
  ghost function FittedMean(lfs: FeatureSet, lbl: nat): seq<real>
    requires lfs.Valid() && lbl < lfs.LabelCount() && lfs.FeatureCount(lbl) > 0
  {
    Mean(lfs.samples[lbl], lfs.dim)
  }

  ghost function FittedPrec(lfs: FeatureSet, lib: Routines, lbl: nat): seq<real>
    requires lfs.Valid() && lbl < lfs.LabelCount() && lfs.FeatureCount(lbl) > 0
    requires Invertible(lfs, lib, lbl)
  {
    Scaled(lib.inverse(Covariance(lfs.samples[lbl], lfs.dim), lfs.dim).value, -0.5)
  }

  /** With an inverse routine that keeps the shape of its argument, each stored
      precision has the dim * dim entries the log-likelihood reads. */
  lemma FittedPrecShape(lfs: FeatureSet, lib: Routines, lbl: nat)
    requires lfs.Valid() && lbl < lfs.LabelCount() && lfs.FeatureCount(lbl) > 0
    requires Invertible(lfs, lib, lbl) && InverseKeepsShape(lib)
    ensures |FittedPrec(lfs, lib, lbl)| == lfs.dim * lfs.dim
  {
  }

  ghost function FittedLogCoef(lfs: FeatureSet, lib: Routines, lbl: nat): real
    requires lfs.Valid() && lbl < lfs.LabelCount() && lfs.FeatureCount(lbl) > 0
  {
    LogCoef(lib.log, lfs.dim, lib.det(Covariance(lfs.samples[lbl], lfs.dim), lfs.dim))
  }

  /** The first pass over a label: the sample mean, accumulated in a fresh vector. */
  method MeanPass(lfs: FeatureSet, lbl: nat, x: array<real>) returns (mean: array<real>)
    requires lfs.Valid() && lbl < lfs.LabelCount() && lfs.FeatureCount(lbl) > 0
    requires x.Length == lfs.Dim()
    modifies x
    ensures fresh(mean) && mean[..] == Mean(lfs.samples[lbl], lfs.dim)
  {
    var dim := lfs.Dim();
    ghost var xs := lfs.samples[lbl];
    mean := new real[dim](_ => 0.0);
    var cnt := lfs.FeatureCount(lbl);
    var i := 0;
    while i < cnt
      invariant 0 <= i <= cnt
      invariant forall j :: 0 <= j < dim ==> mean[j] == ColumnSum(xs, dim, j, i)
    {
      FetchFeature(lfs, lbl, i, x);
      for k := 0 to dim
        modifies mean
        invariant forall j :: 0 <= j < dim ==> mean[j] == ColumnSum(xs, dim, j, if j < k then i + 1 else i)
      {
        mean[k] := mean[k] + x[k];
      }
      i := i + 1;
    }
    for k := 0 to dim
      invariant forall j :: 0 <= j < dim ==>
        mean[j] == if j < k then ColumnSum(xs, dim, j, cnt) / cnt as real else ColumnSum(xs, dim, j, cnt)
    {
      mean[k] := mean[k] / cnt as real;
    }
  }

  /** The buffer after the second pass has seen samples 0 .. i-1 in full and sample
      i for the flat entries below q. */
  ghost predicate ScatteredUpTo(xs: seq<seq<real>>, dim: nat, mu: seq<real>, s: seq<real>, i: nat, q: nat)
    requires Shaped(xs, dim) && |mu| == dim && i < |xs|
  {
    && |s| == dim * dim
    && forall p :: 0 <= p < dim * dim ==> s[p] == UpperScatter(xs, dim, mu, p, if p < q then i + 1 else i)
  }

  /** The buffer after the second pass has seen samples 0 .. n-1. */
  ghost predicate Scattered(xs: seq<seq<real>>, dim: nat, mu: seq<real>, s: seq<real>, n: nat)
    requires Shaped(xs, dim) && |mu| == dim && n <= |xs|
  {
    && |s| == dim * dim
    && forall p :: 0 <= p < dim * dim ==> s[p] == UpperScatter(xs, dim, mu, p, n)
  }

  /** s with v added at entry (k, l). */
  function AddAt(s: seq<real>, dim: nat, k: nat, l: nat, v: real): (t: seq<real>)
    requires |s| == dim * dim && k < dim && l < dim
    ensures |t| == dim * dim
  {
    FlatIndex(dim, k, l);
    s[k * dim + l := s[k * dim + l] + v]
  }

  lemma ScatterStep(xs: seq<seq<real>>, dim: nat, mu: seq<real>, s: seq<real>, i: nat, k: nat, l: nat)
    requires Shaped(xs, dim) && |mu| == dim && i < |xs| && k <= l < dim
    requires ScatteredUpTo(xs, dim, mu, s, i, k * dim + l)
    ensures ScatteredUpTo(xs, dim, mu, AddAt(s, dim, k, l, (xs[i][k] - mu[k]) * (xs[i][l] - mu[l])), i, k * dim + l + 1)
  {
    FlatIndex(dim, k, l);
  }

  /** Moving from the end of row k to the diagonal of row k + 1 skips only entries
      below the diagonal, which the pass never touches. */
  lemma ScatterNextRow(xs: seq<seq<real>>, dim: nat, mu: seq<real>, s: seq<real>, i: nat, k: nat)
    requires Shaped(xs, dim) && |mu| == dim && i < |xs| && k < dim
    requires ScatteredUpTo(xs, dim, mu, s, i, k * dim + dim)
    ensures ScatteredUpTo(xs, dim, mu, s, i, (k + 1) * dim + k + 1)
  {
    forall p | 0 <= p < dim * dim
      ensures s[p] == UpperScatter(xs, dim, mu, p, if p < (k + 1) * dim + k + 1 then i + 1 else i)
    {
      FlatSplit(dim, p);
      if k * dim + dim <= p < (k + 1) * dim + k + 1 {
        DivModUnique(p, dim, k + 1, p - (k + 1) * dim);
      }
    }
  }

  /** Row k of one sample of the second pass: adds its products of deviations to
      the entries of row k on and above the diagonal. */
  method AccumulateRow(ghost xs: seq<seq<real>>, dim: nat, i: nat, k: nat, mean: array<real>, x: array<real>, sigma: array<real>)
    requires Shaped(xs, dim) && i < |xs| && k < dim
    requires x.Length == dim && mean.Length == dim && sigma.Length == dim * dim
    requires x[..] == xs[i] && mean != sigma && x != sigma
    requires ScatteredUpTo(xs, dim, mean[..], sigma[..], i, k * dim + k)
    modifies sigma
    ensures ScatteredUpTo(xs, dim, mean[..], sigma[..], i, k * dim + dim)
  {
    ghost var mu := mean[..];
    var l := k;
    while l < dim
      invariant k <= l <= dim
      invariant ScatteredUpTo(xs, dim, mu, sigma[..], i, k * dim + l)
    {
      ghost var s := sigma[..];
      FlatIndex(dim, k, l);
      var v := (x[k] - mean[k]) * (x[l] - mean[l]);
      assert v == (xs[i][k] - mu[k]) * (xs[i][l] - mu[l]);
      sigma[k * dim + l] := sigma[k * dim + l] + v;
      assert sigma[..] == AddAt(s, dim, k, l, v);
      ScatterStep(xs, dim, mu, s, i, k, l);
      l := l + 1;
    }
  }

  /** One sample of the second pass: adds its products of deviations to the entries
      on and above the diagonal. */
  method AccumulateSample(ghost xs: seq<seq<real>>, dim: nat, i: nat, mean: array<real>, x: array<real>, sigma: array<real>)
    requires Shaped(xs, dim) && i < |xs|
    requires x.Length == dim && mean.Length == dim && sigma.Length == dim * dim
    requires x[..] == xs[i] && mean != sigma && x != sigma
    requires Scattered(xs, dim, mean[..], sigma[..], i)
    modifies sigma
    ensures Scattered(xs, dim, mean[..], sigma[..], i + 1)
  {
    var k := 0;
    while k < dim
      invariant 0 <= k <= dim
      invariant ScatteredUpTo(xs, dim, mean[..], sigma[..], i, k * dim + k)
    {
      AccumulateRow(xs, dim, i, k, mean, x, sigma);
      ScatterNextRow(xs, dim, mean[..], sigma[..], i, k);
      k := k + 1;
    }
    MulMonotone(dim, dim + 1, dim);
  }

  /** The second pass over a label: the buffer is zeroed, then every sample is
      fetched again and accumulated. */
  method ScatterPass(lfs: FeatureSet, lbl: nat, mean: array<real>, x: array<real>, sigma: array<real>)
    requires lfs.Valid() && lbl < lfs.LabelCount() && lfs.FeatureCount(lbl) > 0
    requires x.Length == lfs.Dim() && mean.Length == lfs.Dim() && sigma.Length == lfs.Dim() * lfs.Dim()
    requires x != sigma && mean != x && mean != sigma
    modifies x, sigma
    ensures Scattered(lfs.samples[lbl], lfs.dim, mean[..], sigma[..], lfs.FeatureCount(lbl))
  {
    var dim := lfs.Dim();
    ghost var xs := lfs.samples[lbl];
    var cnt := lfs.FeatureCount(lbl);
    for i := 0 to sigma.Length
      invariant forall p :: 0 <= p < i ==> sigma[p] == 0.0
    {
      sigma[i] := 0.0;
    }
    assert Scattered(xs, dim, mean[..], sigma[..], 0);
    for i := 0 to cnt
      invariant Scattered(xs, dim, mean[..], sigma[..], i)
    {
      FetchFeature(lfs, lbl, i, x);
      AccumulateSample(xs, dim, i, mean, x, sigma);
    }
  }

  /** Bessel's correction, applied to every entry of the buffer. */
  method BesselCorrect(sigma: array<real>, cnt: nat)
    modifies sigma
    ensures forall p :: 0 <= p < sigma.Length ==> sigma[p] == Bessel(old(sigma[p]), cnt)
  {
    if cnt > 1 {
      for i := 0 to sigma.Length
        invariant forall p :: 0 <= p < sigma.Length ==>
          sigma[p] == if p < i then old(sigma[p]) / (cnt - 1) as real else old(sigma[p])
      {
        sigma[i] := sigma[i] / (cnt - 1) as real;
      }
    }
  }

  /** s is orig with each entry below the diagonal at a flat index below q replaced
      by its mirror image. */
  ghost predicate MirroredUpTo(orig: seq<real>, s: seq<real>, dim: nat, q: nat)
    requires |orig| == dim * dim
  {
    && |s| == dim * dim
    && forall p :: 0 <= p < dim * dim ==>
         s[p] == if p % dim < p / dim && p < q then orig[Transpose(dim, p)] else orig[p]
  }

  /** Entry (l, k) copied into entry (k, l). */
  function CopyMirror(s: seq<real>, dim: nat, k: nat, l: nat): (t: seq<real>)
    requires |s| == dim * dim && k < dim && l < dim
    ensures |t| == dim * dim
  {
    FlatIndex(dim, k, l);
    FlatIndex(dim, l, k);
    s[k * dim + l := s[l * dim + k]]
  }

  lemma MirrorStep(orig: seq<real>, s: seq<real>, dim: nat, k: nat, l: nat)
    requires |orig| == dim * dim && l < k < dim
    requires MirroredUpTo(orig, s, dim, k * dim + l)
    ensures MirroredUpTo(orig, CopyMirror(s, dim, k, l), dim, k * dim + l + 1)
  {
    FlatIndex(dim, k, l);
    FlatIndex(dim, l, k);
  }

  /** Moving from the diagonal of row k (whose first flat index is b) to the start
      of row k + 1 skips only entries on or above the diagonal, which the mirroring
      never touches. */
  lemma MirrorNextRow(orig: seq<real>, s: seq<real>, dim: nat, k: nat, b: nat)
    requires |orig| == dim * dim && k < dim && b == k * dim
    requires MirroredUpTo(orig, s, dim, b + k)
    ensures MirroredUpTo(orig, s, dim, b + dim)
  {
    forall p | 0 <= p < dim * dim
      ensures s[p] == if p % dim < p / dim && p < b + dim then orig[Transpose(dim, p)] else orig[p]
    {
      if b + k <= p < b + dim {
        DivModUnique(p, dim, k, p - b);
      }
    }
  }

  lemma MirrorDone(orig: seq<real>, s: seq<real>, dim: nat)
    requires |orig| == dim * dim
    requires MirroredUpTo(orig, s, dim, dim * dim)
    ensures forall p :: 0 <= p < dim * dim ==>
      s[p] == if p / dim <= p % dim then orig[p] else orig[Transpose(dim, p)]
    ensures Symmetric(s, dim)
  {
    forall r, c | 0 <= r < dim && 0 <= c < dim
      ensures Cell(s, dim, r, c) == Cell(s, dim, c, r)
    {
      FlatIndex(dim, r, c);
      FlatIndex(dim, c, r);
    }
  }

  /** Copies every entry above the diagonal to its mirror image below it. */
  method MirrorUpper(sigma: array<real>, dim: nat)
    requires sigma.Length == dim * dim
    modifies sigma
    ensures forall p :: 0 <= p < dim * dim ==>
      sigma[p] == if p / dim <= p % dim then old(sigma[p]) else old(sigma[Transpose(dim, p)])
    ensures Symmetric(sigma[..], dim)
  {
    ghost var orig := sigma[..];
    for k := 0 to dim
      invariant MirroredUpTo(orig, sigma[..], dim, k * dim)
    {
      for l := 0 to k
        invariant MirroredUpTo(orig, sigma[..], dim, k * dim + l)
      {
        ghost var s := sigma[..];
        FlatIndex(dim, k, l);
        FlatIndex(dim, l, k);
        sigma[k * dim + l] := sigma[l * dim + k];
        assert sigma[..] == CopyMirror(s, dim, k, l);
        MirrorStep(orig, s, dim, k, l);
      }
      MirrorNextRow(orig, sigma[..], dim, k, k * dim);
      assert (k + 1) * dim == k * dim + dim;
    }
    MirrorDone(orig, sigma[..], dim);
  }

  /** The three in-place steps leave the covariance matrix of the label in the buffer. */
  lemma AssembledCovariance(xs: seq<seq<real>>, dim: nat, s: seq<real>)
    requires Shaped(xs, dim) && |xs| > 0 && |s| == dim * dim
    requires forall p :: 0 <= p < dim * dim ==>
      s[p] == if p / dim <= p % dim then Bessel(UpperScatter(xs, dim, Mean(xs, dim), p, |xs|), |xs|)
              else Bessel(UpperScatter(xs, dim, Mean(xs, dim), Transpose(dim, p), |xs|), |xs|)
    ensures s == Covariance(xs, dim)
  {
  }

  /** The covariance steps of one label: the scatter pass, Bessel's correction and
      the mirroring leave the label's covariance matrix in the shared buffer. */
  method CovariancePass(lfs: FeatureSet, lbl: nat, mean: array<real>, x: array<real>, sigma: array<real>)
    requires lfs.Valid() && lbl < lfs.LabelCount() && lfs.FeatureCount(lbl) > 0
    requires x.Length == lfs.Dim() && sigma.Length == lfs.Dim() * lfs.Dim()
    requires mean[..] == Mean(lfs.samples[lbl], lfs.dim)
    requires x != sigma && mean != x && mean != sigma
    modifies x, sigma
    ensures sigma[..] == Covariance(lfs.samples[lbl], lfs.dim)
    ensures Symmetric(sigma[..], lfs.dim)
  {
    var cnt := lfs.FeatureCount(lbl);
    ScatterPass(lfs, lbl, mean, x, sigma);
    BesselCorrect(sigma, cnt);
    MirrorUpper(sigma, lfs.Dim());
    AssembledCovariance(lfs.samples[lbl], lfs.dim, sigma[..]);
  }

  /** GaussianTrain fits one Gaussian per label; if any label's covariance cannot be
      inverted there is no model at all (null). */
  method GaussianTrain(lfs: FeatureSet, lib: Routines) returns (clsfr: GaussianClassifier?)
    requires lfs.Valid()
    requires forall lbl :: 0 <= lbl < lfs.LabelCount() ==> lfs.FeatureCount(lbl) > 0
    ensures clsfr == null <==> !AllInvertible(lfs, lib)
    ensures clsfr != null ==> fresh(clsfr) && clsfr.LogPrior == null
    ensures clsfr != null ==>
      && |clsfr.Means| == lfs.LabelCount() && |clsfr.Precs| == lfs.LabelCount()
      && |clsfr.LogCoefs| == lfs.LabelCount()
      && (forall lbl :: 0 <= lbl < lfs.LabelCount() ==> clsfr.Means[lbl] == FittedMean(lfs, lbl))
      && (forall lbl :: 0 <= lbl < lfs.LabelCount() ==> clsfr.Precs[lbl] == FittedPrec(lfs, lib, lbl))
      && (forall lbl :: 0 <= lbl < lfs.LabelCount() ==> clsfr.LogCoefs[lbl] == FittedLogCoef(lfs, lib, lbl))
    ensures clsfr != null ==> forall lbl :: 0 <= lbl < lfs.LabelCount() ==> |clsfr.Means[lbl]| == lfs.dim
    ensures clsfr != null && InverseKeepsShape(lib) ==>
      forall lbl, x: seq<real> :: 0 <= lbl < lfs.LabelCount() && lfs.dim <= |x| ==> clsfr.Scorable(lbl, x)
  {
    var lblCnt := lfs.LabelCount();
    var dim := lfs.Dim();
    var c := new GaussianClassifier(seq(lblCnt, _ => []), seq(lblCnt, _ => []), seq(lblCnt, _ => 0.0));
    var x := new real[dim](_ => 0.0);
    var sigma := new real[dim * dim](_ => 0.0);
    for lbl := 0 to lblCnt
      invariant |c.Means| == lblCnt && |c.Precs| == lblCnt && |c.LogCoefs| == lblCnt
      invariant c.LogPrior == null
      invariant forall l :: 0 <= l < lbl ==> Invertible(lfs, lib, l)
      invariant forall l :: 0 <= l < lbl ==> c.Means[l] == FittedMean(lfs, l)
      invariant forall l :: 0 <= l < lbl ==> c.Precs[l] == FittedPrec(lfs, lib, l)
      invariant forall l :: 0 <= l < lbl ==> c.LogCoefs[l] == FittedLogCoef(lfs, lib, l)
    {
      var mean := MeanPass(lfs, lbl, x);
      CovariancePass(lfs, lbl, mean, x, sigma);

      var inv := lib.inverse(sigma[..], dim);
      if inv.None? {
        assert !Invertible(lfs, lib, lbl);
        return null;
      }
      var prec := Scaled(inv.value, -0.5);
      var det := lib.det(sigma[..], dim);

      c.Means := c.Means[lbl := mean[..]];
      c.Precs := c.Precs[lbl := prec];
      c.LogCoefs := c.LogCoefs[lbl := LogCoef(lib.log, dim, det)];
    }
    if InverseKeepsShape(lib) {
      forall lbl | 0 <= lbl < lblCnt ensures |c.Precs[lbl]| == dim * dim {
        FittedPrecShape(lfs, lib, lbl);
      }
    }
    return c;
  }

  /** A label whose samples are all the same vector (in particular a label with a
      single sample) has the zero matrix as covariance; if the inverse routine
      rejects the zero matrix, training fails as a whole. */
  lemma DegenerateLabelFailsTraining(lfs: FeatureSet, lib: Routines, lbl: nat)
    requires lfs.Valid()
    requires forall l :: 0 <= l < lfs.LabelCount() ==> lfs.FeatureCount(l) > 0
    requires lbl < lfs.LabelCount()
    requires forall i :: 0 <= i < lfs.FeatureCount(lbl) ==> lfs.samples[lbl][i] == lfs.samples[lbl][0]
    requires lib.inverse(ZeroMatrix(lfs.dim), lfs.dim).None?
    ensures !AllInvertible(lfs, lib)
  {
    assert lfs.FeatureCount(lbl) > 0;
    IdenticalSamplesCovarianceIsZero(lfs.samples[lbl], lfs.dim);
    assert !Invertible(lfs, lib, lbl);
  }

  /** The Fitted* entries of a label depend on the dimension and that label's
      samples alone: two sources that agree on them agree on the entries. Together
      with GaussianTrain's ensures, which store exactly these entries, this says a
      trained label's mean, precision and log coefficient ignore the other labels. */
  lemma FittedEntriesAreLocal(lfs: FeatureSet, lfs': FeatureSet, lib: Routines, lbl: nat, lbl': nat)
    requires lfs.Valid() && lbl < lfs.LabelCount() && lfs.FeatureCount(lbl) > 0
    requires lfs'.Valid() && lbl' < lfs'.LabelCount()
    requires lfs.dim == lfs'.dim && lfs.samples[lbl] == lfs'.samples[lbl']
    ensures lfs'.FeatureCount(lbl') > 0
    ensures Invertible(lfs, lib, lbl) == Invertible(lfs', lib, lbl')
    ensures FittedMean(lfs, lbl) == FittedMean(lfs', lbl')
    ensures FittedLogCoef(lfs, lib, lbl) == FittedLogCoef(lfs', lib, lbl')
    ensures Invertible(lfs, lib, lbl) ==> FittedPrec(lfs, lib, lbl) == FittedPrec(lfs', lib, lbl')
  {
  }
}
