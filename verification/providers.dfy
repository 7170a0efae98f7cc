/** The floating-point routines the expansion calls but does not define: the 1D
    orthonormal polynomials of a recurrence table and their derivatives, the Gauss
    quadrature rule of a table, and the orthogonality error of a numerically
    generated discrete basis. The model treats them as given functions. */
module Providers {
  import opened Recurrence

  datatype Numerics = Numerics(
    /** `value(t, d, x)`: the degree-`d` orthonormal polynomial of table `t` at `x`. */
    value: (Table, nat, real) -> real,
    /** `deriv(t, d, x)`: its first derivative at `x`. */
    deriv: (Table, nat, real) -> real,
    /** `quad(t, n)`: the `n`-point Gauss rule of table `t`, as (node, weight) pairs. */
    quad: (Table, nat) -> seq<(real, real)>,
    /** Orthogonality error of a numerically generated discrete basis. */
    orthoError: OrthoError)
}
