/** Shared vocabulary of the polynomial chaos expansion model: multi-indices,
    coefficient rows, the error kinds the expansion raises, and the few sums
    and products over real sequences that the rest of the model is stated in. */
module PceTypes {

  /** Per-variable degrees of one basis term (one column of an index matrix). */
  type MultiIndex = seq<nat>

  /** One row of a coefficient matrix: one entry per quantity of interest. */
  type Row = seq<real>

  datatype Option<+T> = None | Some(value: T)

  /** The kinds of failure the expansion reports. */
  datatype Error =
    | ConfigurationError   // missing transformation or option
    | UnsupportedFamily    // unknown polynomial family or variable type
    | IllConditionedBasis  // numerically generated basis fails its orthogonality check
    | DimensionMismatch    // shape invariant violated, empty reduction, index out of range
    | InvalidArgument      // argument outside its admissible range
    | NotSet               // indices or coefficients read before they were set

  datatype Result<+T> = Success(value: T) | Failure(error: Error) {
    predicate IsFailure() {
      Failure?
    }

    function PropagateFailure<U>(): Result<U>
      requires Failure?
    {
      Failure(error)
    }

    function Extract(): T
      requires Success?
    {
      value
    }
  }

  function Min(a: int, b: int): int {
    if a <= b then a else b
  }

  function Max(a: int, b: int): int {
    if a <= b then b else a
  }

  /** A non-empty sequence is its front followed by its last element. */
  lemma SplitLast<T>(s: seq<T>)
    requires |s| > 0
    ensures s[..|s| - 1] + [s[|s| - 1]] == s
  {
  }

  /* ----- rows ----- */

  function Zeros(n: nat): (r: Row)
    ensures |r| == n && forall q | 0 <= q < n :: r[q] == 0.0
  {
    seq(n, _ => 0.0)
  }

  function Ones(n: nat): (r: Row)
    ensures |r| == n && forall q | 0 <= q < n :: r[q] == 1.0
  {
    seq(n, _ => 1.0)
  }

  function AddRows(a: Row, b: Row): (r: Row)
    requires |a| == |b|
    ensures |r| == |a| && forall q | 0 <= q < |a| :: r[q] == a[q] + b[q]
  {
    seq(|a|, q requires 0 <= q < |a| => a[q] + b[q])
  }

  function NegRow(a: Row): (r: Row)
    ensures |r| == |a| && forall q | 0 <= q < |a| :: r[q] == -a[q]
  {
    seq(|a|, q requires 0 <= q < |a| => -a[q])
  }

  /** A row plus its negation is zero. */
  lemma AddNegZero(a: Row)
    ensures AddRows(a, NegRow(a)) == Zeros(|a|)
  {
  }

  predicate RowsOfWidth(rows: seq<Row>, nq: nat) {
    forall k | 0 <= k < |rows| :: |rows[k]| == nq
  }

  function NegRows(rows: seq<Row>): (r: seq<Row>)
    ensures |r| == |rows| && forall k | 0 <= k < |rows| :: r[k] == NegRow(rows[k])
  {
    seq(|rows|, k requires 0 <= k < |rows| => NegRow(rows[k]))
  }

  /** Entry-wise sum of rows of width `nq`. */
  function SumRows(rows: seq<Row>, nq: nat): (r: Row)
    requires RowsOfWidth(rows, nq)
    ensures |r| == nq
    decreases |rows|
  {
    if |rows| == 0 then Zeros(nq) else AddRows(SumRows(rows[..|rows| - 1], nq), rows[|rows| - 1])
  }

  lemma AddZerosLeft(a: Row)
    ensures AddRows(Zeros(|a|), a) == a
  {
  }

  /* ----- multi-indices ----- */

  function ZeroIndex(nv: nat): (r: MultiIndex)
    ensures |r| == nv && forall d | 0 <= d < nv :: r[d] == 0
  {
    seq(nv, _ => 0)
  }

  /** Every column has one degree per variable. */
  predicate Shaped(indices: seq<MultiIndex>, nv: nat) {
    forall i | 0 <= i < |indices| :: |indices[i]| == nv
  }

  predicate Distinct<T(==)>(s: seq<T>) {
    forall i, j | 0 <= i < j < |s| :: s[i] != s[j]
  }

  /** Largest degree of variable `d` over the columns. */
  function ColumnMax(indices: seq<MultiIndex>, d: nat): (r: nat)
    requires |indices| > 0
    requires forall i | 0 <= i < |indices| :: d < |indices[i]|
    ensures forall i | 0 <= i < |indices| :: indices[i][d] <= r
    ensures exists i | 0 <= i < |indices| :: indices[i][d] == r
    decreases |indices|
  {
    var n := |indices| - 1;
    if n == 0 then indices[0][d]
    else
      var m := ColumnMax(indices[..n], d);
      assert forall i | 0 <= i < n :: indices[..n][i] == indices[i];
      if m < indices[n][d] then indices[n][d] else m
  }

  /** The per-variable maximum degree of a non-empty index set (numpy's `max(axis=1)`). */
  function MaxDegrees(indices: seq<MultiIndex>, nv: nat): (r: seq<nat>)
    requires |indices| > 0 && Shaped(indices, nv)
    ensures |r| == nv
    ensures forall i, d | 0 <= i < |indices| && 0 <= d < nv :: indices[i][d] <= r[d]
    ensures forall d | 0 <= d < nv :: exists i | 0 <= i < |indices| :: indices[i][d] == r[d]
  {
    seq(nv, d requires 0 <= d < nv => ColumnMax(indices, d))
  }

  /** Per-variable sum of two degree vectors. */
  function SumDegrees(a: seq<nat>, b: seq<nat>): (r: seq<nat>)
    requires |a| == |b|
    ensures |r| == |a| && forall d | 0 <= d < |a| :: r[d] == a[d] + b[d]
  {
    seq(|a|, d requires 0 <= d < |a| => a[d] + b[d])
  }

  lemma SumDegreesCommute(a: seq<nat>, b: seq<nat>)
    requires |a| == |b|
    ensures SumDegrees(a, b) == SumDegrees(b, a)
  {
  }

  /** Every multi-index has one degree per variable of `bound`, none above it. */
  predicate Within(indices: seq<MultiIndex>, bound: seq<nat>) {
    forall k | 0 <= k < |indices| ::
      |indices[k]| == |bound| && forall d | 0 <= d < |bound| :: indices[k][d] <= bound[d]
  }

  /** A term list: distinct multi-indices, each with one coefficient row of width `nq`. */
  predicate TermList(t: (seq<MultiIndex>, seq<Row>), nq: nat) {
    |t.0| == |t.1| && RowsOfWidth(t.1, nq) && Distinct(t.0)
  }

  /* ----- products and sums of reals ----- */

  /** Product of the entries, folded from the first entry on. */
  function Prod(xs: seq<real>): real
    decreases |xs|
  {
    if |xs| == 0 then 1.0 else Prod(xs[..|xs| - 1]) * xs[|xs| - 1]
  }

  lemma {:induction false} ProdOnes(n: nat)
    ensures Prod(seq(n, _ => 1.0)) == 1.0
  {
    if n > 0 {
      assert seq(n, _ => 1.0)[..n - 1] == seq(n - 1, _ => 1.0);
      ProdOnes(n - 1);
    }
  }

  /** Identity on reals. `Sq` multiplies by it so that the solver sees a product of
      two terms rather than a power, which its arithmetic handles poorly. */
  function Id(x: real): real {
    x
  }

  function Sq(x: real): real {
    x * Id(x)
  }

  lemma PositiveProduct(x: real, y: real)
    requires x > 0.0 && y > 0.0
    ensures x * y > 0.0
  {
  }

  lemma SqSign(x: real)
    ensures Sq(x) >= 0.0
    ensures x != 0.0 ==> Sq(x) > 0.0
  {
    if x > 0.0 {
      PositiveProduct(x, Id(x));
    } else if x < 0.0 {
      PositiveProduct(-x, -Id(x));
      assert x * Id(x) == (-x) * (-Id(x));
    }
  }

  /** Sum of squares, counted from the front. */
  function SumSquares(xs: seq<real>): real
    decreases |xs|
  {
    if |xs| == 0 then 0.0 else Sq(xs[0]) + SumSquares(xs[1..])
  }

  lemma {:induction false} SumSquaresNonNegative(xs: seq<real>)
    ensures SumSquares(xs) >= 0.0
    decreases |xs|
  {
    if |xs| > 0 {
      SumSquaresNonNegative(xs[1..]);
      SqSign(xs[0]);
    }
  }

  /** A sum of squares is at least the square of any one entry. */
  lemma {:induction false} SumSquaresAtLeast(xs: seq<real>, j: nat)
    requires j < |xs|
    ensures SumSquares(xs) >= Sq(xs[j])
    decreases j
  {
    SumSquaresNonNegative(xs[1..]);
    if j > 0 {
      SqSign(xs[0]);
      SumSquaresAtLeast(xs[1..], j - 1);
    }
  }

  /** A sum of squares vanishes exactly when every entry does. */
  lemma {:induction false} SumSquaresZero(xs: seq<real>)
    ensures SumSquares(xs) == 0.0 <==> forall k | 0 <= k < |xs| :: xs[k] == 0.0
    decreases |xs|
  {
    if |xs| > 0 {
      SumSquaresZero(xs[1..]);
      SumSquaresNonNegative(xs[1..]);
      SqSign(xs[0]);
      assert forall k | 1 <= k < |xs| :: xs[k] == xs[1..][k - 1];
    }
  }
}
