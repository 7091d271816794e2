/** The numeric routines the Gaussian engine borrows from outside: the natural
    logarithm (Go's math.Log) and the dense-matrix inverse and determinant of the
    go.matrix library. They are not modelled; the engine receives them as
    parameters, so every property proved here holds whatever they compute. */
module Numerics {

  datatype Option<+T> = None | Some(value: T)

  /** `inverse(m, dim)` inverts the row-major dim-by-dim matrix `m`, or reports
      failure (a singular matrix) with None; `det(m, dim)` is its determinant. */
  datatype Routines = Routines(
    log: real -> real,
    inverse: (seq<real>, nat) -> Option<seq<real>>,
    det: (seq<real>, nat) -> real)

  /** The inverse of a dim-by-dim matrix is again dim-by-dim: go.matrix's Inverse
      returns a matrix of its argument's shape, whose Array has dim * dim entries.
      This says nothing about the numbers the routine computes. */
  ghost predicate InverseKeepsShape(lib: Routines)
  {
    forall m: seq<real>, dim: nat :: lib.inverse(m, dim).Some? ==> |lib.inverse(m, dim).value| == dim * dim
  }

  /** Go's math.Pi, with the digits of its declaration. */
  const Pi: real := 3.14159265358979323846264338327950288419716939937510582097494459
}
