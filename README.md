# Gaussian classifier of go-pr, modelled in Dafny

This project models the Gaussian classification engine of the `pr` package (`gauss.go`).

Training streams over a labelled feature source twice per label:

- The first pass computes the label's mean vector.
- The second pass computes the label's covariance matrix. It sums only the upper triangle, applies Bessel's correction, then mirrors the upper triangle into the lower one.

Training then inverts each covariance matrix with a foreign routine. It stores, per label:

- the mean vector;
- the inverse scaled by −1/2 (the precision);
- the log normalising constant −1/2·(dim·log(2π) + log(det Σ)).

If any label's inversion fails, there is no model at all.

Classification scores every label by its log-posterior: the log-likelihood plus the optional log-prior. It returns the label with the highest score, or −1 when there are no labels.

Arithmetic is over exact reals. The three foreign routines are parameters, so every property holds whatever they compute:

- the logarithm (`math.Log`);
- the dense-matrix inverse (`Inverse`);
- the determinant (`Det`).

They are bundled in `Numerics.Routines`. `math.Pi` is the real constant `Numerics.Pi`, written with the digits of Go's declaration.

Files and modules:

- `numerics.dfy` (`Numerics`): `Option`, `Routines`, `Pi`, and `InverseKeepsShape`. `InverseKeepsShape` states that an inverse of a `dim×dim` matrix has `dim*dim` entries.
- `dense_matrix.dfy` (`DenseMatrix`): row-major `dim×dim` matrices stored flat, with entry (r, c) at `r*dim + c`. Holds the index lemmas, `Cell`, `Symmetric`, `Transpose`, `ZeroMatrix` and `Scaled` (go.matrix's `Scale`).
- `moments.dfy` (`Moments`): specification functions for one label's samples (`ColumnSum`, `Mean`, `Scatter`, `Bessel`, `Covariance`) and the lemmas about them.
- `feature_set.dfy` (`FeatureSets`): the labelled feature source as plain data, `samples[label][index][feature]`. It follows the `LabeledFeatureSet` interface, and `FetchFeature` fills the caller's buffer.
- `gauss.dfy` (`Gauss`): the `GaussianClassifier` class, with the struct's four fields and the scoring methods. Also `GaussianTrain` and the in-place passes it runs over the `mean`, `x` and `sigma` arrays.

## Model

| member | source | states |
|---|---|---|
| `Gauss.GaussianClassifier.constructor` | gauss.go:22-31 | a classifier holds the given means, precisions and log coefficients, and no prior (`LogPrior` is null) |
| `Gauss.GaussianClassifier.SetPrior` | gauss.go:36-43 | afterwards `LogPrior[i] == log(priors[i])` for every `i < len(priors)`; a fresh array of length `len(priors)` only when `LogPrior` was null, otherwise the same array, with its entries from `len(priors)` on unchanged |
| `Gauss.GaussianClassifier.Classify` | gauss.go:46-58 | returns −1 exactly when `LogCoefs` is empty, otherwise an index below `len(LogCoefs)` whose log-posterior is ≥ every label's and > every lower label's (first maximum wins ties); changes nothing |
| `Gauss.GaussianClassifier.LogLikelyhood` | gauss.go:65-83 | the double loop returns `LogCoefs[label] + Σ_{k,l<dim} (x[k]-mean[k])(x[l]-mean[l])·prec[k*dim+l]` with `dim = len(mean)`; changes nothing |
| `Gauss.BilinearReadsPrefix` | gauss.go:71-80 | the score depends only on `x[0..dim)`: two vectors equal there score the same |
| `Gauss.BilinearAtMean` | gauss.go:73-80 | at `x == mean` the bilinear form is 0, so the log-likelihood there is `LogCoefs[label]`, whatever the precision |
| `Gauss.GaussianClassifier.LogPosterior` | gauss.go:89-94 | equals the log-likelihood when `LogPrior` is null, and the log-likelihood plus `LogPrior[label]` otherwise |
| `FeatureSets.FetchFeature` | pr.go:19-21 | the caller's buffer of length `Dim()` holds sample `index` of the label |
| `Gauss.MeanPass` | gauss.go:118-131 | the fresh mean vector holds `(Σ_i x_i[k]) / cnt` for each feature `k` (`Moments.Mean`) |
| `Moments.DeviationsFromMeanCancel` | gauss.go:122-131 | the computed mean is the centre of the samples: `Σ_i (x_i[k] − mean[k]) == 0` |
| `Gauss.AccumulateRow` | gauss.go:139-141 | row `k` of one fetched sample adds `(x[k]-mean[k])(x[l]-mean[l])` to each entry `k*dim+l` with `l ≥ k`, extending the scatter sums from the diagonal of row `k` to its end; no other entry changes |
| `Gauss.AccumulateSample` | gauss.go:137-142 | one fetched sample adds `(x[k]-mean[k])(x[l]-mean[l])` to every entry with `k ≤ l`, taking the buffer from the scatter sums of `i` samples to those of `i+1` |
| `Gauss.ScatterPass` | gauss.go:133-143 | the zeroed buffer ends with `Σ_i (x_i[k]-mean[k])(x_i[l]-mean[l])` at every `k*dim+l` with `k ≤ l`, and 0 below the diagonal |
| `Gauss.BesselCorrect` | gauss.go:144-148 | every entry is divided by `cnt-1` when `cnt > 1` and left as it is otherwise |
| `Gauss.MirrorUpper` | gauss.go:149-154 | each entry below the diagonal becomes its upper mirror image, the upper triangle is unchanged, and the buffer is exactly symmetric |
| `Gauss.CovariancePass` | gauss.go:133-154 | after the three in-place steps the shared buffer holds the label's covariance matrix (`Moments.Covariance`), exactly symmetric |
| `Moments.CovarianceSymmetric` | gauss.go:149-154 | the covariance as built satisfies `sigma[k*dim+l] == sigma[l*dim+k]` exactly |
| `Moments.CovarianceIsSampleCovariance` | gauss.go:136-154 | summing only the upper triangle and mirroring gives the full unbiased sample covariance, every entry summed directly |
| `Moments.IdenticalSamplesCovarianceIsZero` | gauss.go:118-148 | samples that are all the same vector have that vector as mean and the zero matrix as covariance |
| `Moments.SingleSampleCovarianceIsZero` | gauss.go:133-148 | with `cnt == 1` the covariance is the zero matrix (no division takes place) |
| `Gauss.GaussianTrain` | gauss.go:105-172 | the result is nil exactly when some label's covariance cannot be inverted. Otherwise a fresh classifier without prior has, for every label, the mean, `Precs = −0.5·inv(sigma)` and `LogCoefs = −0.5·(dim·log(2π) + log(det sigma))`. Every stored mean has `dim` entries. When the inverse keeps its argument's shape, every label of the trained classifier can be scored on any query of at least `dim` features, so training and then classifying never goes out of range |
| `Gauss.FittedPrecShape` | gauss.go:156-167 | when the inverse routine keeps its argument's shape, a label's stored precision has the `dim*dim` entries the log-likelihood reads |
| `Gauss.DegenerateLabelFailsTraining` | gauss.go:156-160 | if one label's samples are all the same vector (for example a single sample), and the inverse routine rejects the zero matrix, training yields nil |
| `Gauss.FittedEntriesAreLocal` | gauss.go:117-169 | each label's stored entries and its success of inversion are determined by the dimension and that label's samples alone |

## Left out

- Floating point is not modelled. Arithmetic is over exact reals, so there is no rounding, no NaN and no −∞ from `log(0)` or `0/0`.
- `math.Log`, `Inverse` and `Det` (gauss.go:41, 156-168) come from Go's `math` and the `go.matrix` library. They are parameters with no properties, so nothing is proved about what they return. In particular, nothing is proved about the symmetry or definiteness of the precision matrix. The one fact assumed about them is `InverseKeepsShape`: go.matrix returns an inverse of its argument's shape. This is a hypothesis of the statements that use it, not a precondition of training.
- `Scale` and `Array` are modelled together as the function `Scaled` on the inverse's flat elements.
- `Gauss.GaussianTrain`: gauss.go divides by zero when a label has no samples. The model requires every label to have at least one sample instead of modelling that path.
- `Gauss.DegenerateLabelFailsTraining`: the inverse routine is uninterpreted. So the single-sample failure holds only under the stated hypothesis that the routine rejects the zero matrix.
- Out-of-range panics become preconditions rather than modelled errors:
  - `SetPrior` with an existing `LogPrior` shorter than `priors`;
  - a query `x` shorter than a label's mean;
  - a precision slice shorter than `dim*dim`;
  - prior arrays shorter than the label count.
- The code does not check a query's length. It reads only the first `len(mean)` features and ignores the rest, and the model does the same (`Gauss.BilinearReadsPrefix`).
- `GaussianTrainer.Train` (gauss.go:175-177) only calls `GaussianTrain`, so it is not modelled separately.
- The `Classifier` and `Trainer` interfaces of pr.go have no behaviour. `LabeledFeatureSet` shapes `FeatureSets.FeatureSet`.
- The model does not say whether the feature source reads through an interface or from in-memory data, and does not model concurrent use of it.
