/** Dense dim-by-dim matrices stored row-major in a flat sequence: entry (r, c)
    sits at index r * dim + c, as in go.matrix's MakeDenseMatrix and Array. */
module DenseMatrix {

  lemma MulMonotone(a: int, b: int, d: nat)
    requires a <= b
    ensures a * d <= b * d
  {
  }

  /** Euclidean division by d > 0 has exactly one quotient and remainder. */
  lemma DivModUnique(p: int, d: int, q: int, m: int)
    requires d > 0 && 0 <= m < d && p == q * d + m
    ensures p / d == q && p % d == m
  {
    var q', m' := p / d, p % d;
    assert p == q' * d + m';
    if q' < q {
      MulMonotone(q' + 1, q, d);
    } else if q' > q {
      MulMonotone(q + 1, q', d);
    }
  }

  /** (r, c) maps to a valid flat index from which row and column are recovered. */
  lemma FlatIndex(dim: nat, r: nat, c: nat)
    requires r < dim && c < dim
    ensures r * dim + c < dim * dim
    ensures (r * dim + c) / dim == r && (r * dim + c) % dim == c
  {
    MulMonotone(r + 1, dim, dim);
    DivModUnique(r * dim + c, dim, r, c);
  }

  /** Every flat index of a dim-by-dim matrix names a row and a column below dim. */
  lemma FlatSplit(dim: nat, p: nat)
    requires p < dim * dim
    ensures dim > 0 && p / dim < dim && p % dim < dim
    ensures (p / dim) * dim + p % dim == p
  {
  }

  /** The flat index of the entry mirrored across the diagonal. */
  function Transpose(dim: nat, p: nat): (q: nat)
    requires p < dim * dim
    ensures q < dim * dim && q / dim == p % dim && q % dim == p / dim
  {
    FlatSplit(dim, p);
    FlatIndex(dim, p % dim, p / dim);
    (p % dim) * dim + p / dim
  }

  /** Entry (r, c) of the row-major matrix m. */
  function Cell(m: seq<real>, dim: nat, r: nat, c: nat): real
    requires |m| == dim * dim && r < dim && c < dim
  {
    FlatIndex(dim, r, c);
    m[r * dim + c]
  }

  predicate Symmetric(m: seq<real>, dim: nat)
    requires |m| == dim * dim
  {
    forall r, c :: 0 <= r < dim && 0 <= c < dim ==> Cell(m, dim, r, c) == Cell(m, dim, c, r)
  }

  function ZeroMatrix(dim: nat): (z: seq<real>)
    ensures |z| == dim * dim
  {
    seq(dim * dim, _ => 0.0)
  }

  /** go.matrix's Scale: every element multiplied by f. */
  function Scaled(s: seq<real>, f: real): (r: seq<real>)
    ensures |r| == |s|
  {
    seq(|s|, i requires 0 <= i < |s| => f * s[i])
  }
}
