/** `conditional_moments_of_polynomial_chaos_expansion`: the mean, and optionally the
    variance, of an expansion when some variables (the inactive ones) are fixed at
    given values. On a copy of the coefficient matrix, every row but the first is
    multiplied by the product of the inactive variables' basis values at the fixed
    samples; the
    mean collects the terms with no active degree, and the variance sums the squares
    of the coefficients grouped by their active degrees, less the squared mean. */
module Conditional {
  import opened PceTypes
  import opened Recurrence
  import opened Providers
  import opened Merge
  import opened Expansion

  /** The conditional mean, the conditional variance when it was asked for, and the
      scaled working copy of the coefficient matrix the moments are read from (the
      expansion's own coefficients are not changed). */
  datatype Moments = Moments(mean: Row, variance: Option<Row>, coefs: seq<Row>)

  /** The variables not fixed, in increasing order (`setdiff1d`). */
  function ActiveVars(nv: nat, inactive: seq<nat>): (r: seq<nat>)
    ensures forall v: nat :: v in r <==> v < nv && v !in inactive
    ensures forall k | 0 <= k < |r| :: r[k] < nv
    ensures forall i, j | 0 <= i < j < |r| :: r[i] < r[j]
    decreases nv
  {
    if nv == 0 then []
    else
      var prev := ActiveVars(nv - 1, inactive);
      assert forall k | 0 <= k < |prev| :: prev[k] < nv - 1 by {
        forall k | 0 <= k < |prev| ensures prev[k] < nv - 1 {
          assert prev[k] in prev;
        }
      }
      prev + (if nv - 1 in inactive then [] else [nv - 1])
  }

  /** The degrees of a multi-index in the listed variables. */
  function Part(index: MultiIndex, vars: seq<nat>): (r: MultiIndex)
    requires forall k | 0 <= k < |vars| :: vars[k] < |index|
    ensures |r| == |vars| && forall k | 0 <= k < |vars| :: r[k] == index[vars[k]]
  {
    seq(|vars|, k requires 0 <= k < |vars| => index[vars[k]])
  }

  /** The active parts of every multi-index: the grouping key of the variance. */
  function Parts(indices: seq<MultiIndex>, vars: seq<nat>, nv: nat): (r: seq<MultiIndex>)
    requires Shaped(indices, nv) && forall k | 0 <= k < |vars| :: vars[k] < nv
    ensures |r| == |indices| && forall i | 0 <= i < |indices| :: r[i] == Part(indices[i], vars)
  {
    seq(|indices|, i requires 0 <= i < |indices| => Part(indices[i], vars))
  }

  /** Degrees are natural numbers, so a term's active degrees sum to zero exactly
      when they are all zero. */
  predicate NoActiveDegree(index: MultiIndex, active: seq<nat>)
    requires forall k | 0 <= k < |active| :: active[k] < |index|
  {
    Part(index, active) == ZeroIndex(|active|)
  }

  function ScaleRow(row: Row, f: real): (r: Row)
    ensures |r| == |row| && forall q | 0 <= q < |row| :: r[q] == row[q] * f
  {
    seq(|row|, q requires 0 <= q < |row| => row[q] * f)
  }

  /** The product of the inactive variables' basis values at the fixed samples, each
      of the degree the term has in that variable. */
  function TermFactor(nm: Numerics, tables: seq<Table>, index: MultiIndex, inactive: seq<nat>,
                      samples: seq<seq<real>>): real
    requires |tables| == |inactive| == |samples|
    requires forall dd | 0 <= dd < |inactive| :: inactive[dd] < |index| && |samples[dd]| == 1
  {
    Prod(seq(|inactive|, dd requires 0 <= dd < |inactive| =>
                           nm.value(tables[dd], index[inactive[dd]], samples[dd][0])))
  }

  /** The working copy of the coefficient matrix after scaling: row 0 is left alone, every
      other row of a term is multiplied by the term's factor, and rows beyond the
      terms are untouched. */
  function Scaled(nm: Numerics, tables: seq<Table>, indices: seq<MultiIndex>, rows: seq<Row>,
                  inactive: seq<nat>, samples: seq<seq<real>>, nv: nat): (r: seq<Row>)
    requires |tables| == |inactive| == |samples| && Shaped(indices, nv)
    requires forall dd | 0 <= dd < |inactive| :: inactive[dd] < nv && |samples[dd]| == 1
    requires |indices| <= |rows|
    ensures |r| == |rows|
    ensures forall k | 0 <= k < |rows| :: |r[k]| == |rows[k]|
    ensures |rows| > 0 ==> r[0] == rows[0]
    ensures forall k | 1 <= k < |indices| ::
              r[k] == ScaleRow(rows[k], TermFactor(nm, tables, indices[k], inactive, samples))
    ensures forall k | |indices| <= k < |rows| :: r[k] == rows[k]
  {
    seq(|rows|, k requires 0 <= k < |rows| =>
                  if k == 0 || k >= |indices| then rows[k]
                  else ScaleRow(rows[k], TermFactor(nm, tables, indices[k], inactive, samples)))
  }

  /** Sum of the rows 1 .. n-1 whose terms have no active degree. */
  function ZeroGroupTail(keys: seq<MultiIndex>, rows: seq<Row>, z: MultiIndex, n: nat, nq: nat): (r: Row)
    requires n <= |keys| == |rows| && RowsOfWidth(rows, nq)
    ensures |r| == nq
  {
    if n <= 1 then Zeros(nq)
    else
      var prev := ZeroGroupTail(keys, rows, z, n - 1, nq);
      if keys[n - 1] == z then AddRows(prev, rows[n - 1]) else prev
  }

  /** Column `q` of a coefficient matrix. */
  function Column(rows: seq<Row>, q: nat): (r: seq<real>)
    requires forall k | 0 <= k < |rows| :: q < |rows[k]|
    ensures |r| == |rows| && forall k | 0 <= k < |rows| :: r[k] == rows[k][q]
  {
    seq(|rows|, k requires 0 <= k < |rows| => rows[k][q])
  }

  /** The tables of the inactive variables. */
  function InactiveTables(p: Pce, inactive: seq<nat>): (r: Result<seq<Table>>)
    ensures r.Success? ==> |r.value| == |inactive|
    ensures r.Success? <==> forall dd | 0 <= dd < |inactive| :: TableFor(p, inactive[dd]).Success?
  {
    if exists dd | 0 <= dd < |inactive| :: TableFor(p, inactive[dd]).Failure? then Failure(NotSet)
    else Success(seq(|inactive|, dd requires 0 <= dd < |inactive| => TableFor(p, inactive[dd]).value))
  }

  /** The inputs the source accepts: one sample column with one value per inactive
      variable, coefficients and multi-indices set, inactive variables in range with a
      table each, and a coefficient row for every term. */
  predicate Accepts(p: Pce, samples: seq<seq<real>>, inactive: seq<nat>) {
    && |samples| == |inactive|
    && (forall dd | 0 <= dd < |samples| :: |samples[dd]| == 1)
    && p.coefs.Some? && p.indices.Some?
    && (forall dd | 0 <= dd < |inactive| :: inactive[dd] < p.numVars)
    && InactiveTables(p, inactive).Success?
    && 0 < |p.indices.value| <= |p.coefs.value.rows|
  }

  /** `conditional_moments_of_polynomial_chaos_expansion(poly, samples, inactive_idx,
      return_variance)`. */
  function ConditionalMoments(nm: Numerics, p: Pce, samples: seq<seq<real>>, inactive: seq<nat>,
                              returnVariance: bool): (r: Result<Moments>)
    requires Valid(p)
    ensures r.Success? <==> Accepts(p, samples, inactive)
    ensures r.Success? ==> |r.value.mean| == p.coefs.value.width
    ensures r.Success? ==> (r.value.variance.Some? <==> returnVariance)
    ensures r.Success? && returnVariance ==> |r.value.variance.value| == p.coefs.value.width
    ensures r.Success? ==>
              var rows := p.coefs.value.rows;
              var indices := p.indices.value;
              && |r.value.coefs| == |rows|
              && r.value.coefs[0] == rows[0]
              && (forall k | 1 <= k < |indices| ::
                    r.value.coefs[k] == ScaleRow(rows[k], TermFactor(nm, InactiveTables(p, inactive).value,
                                                                     indices[k], inactive, samples)))
              && (forall k | |indices| <= k < |rows| :: r.value.coefs[k] == rows[k])
    ensures r.Success? ==> MomentsOf(p, inactive, r.value)
  {
    if !Accepts(p, samples, inactive) then Failure(InvalidArgument)
    else
      var tables := InactiveTables(p, inactive).value;
      var indices := p.indices.value;
      var nq := p.coefs.value.width;
      var scaled := Scaled(nm, tables, indices, p.coefs.value.rows, inactive, samples, p.numVars);
      var mean := Mean0(p, scaled, inactive);
      if !returnVariance then Success(Moments(mean, None, scaled))
      else Success(Moments(mean, Some(Variance0(p, scaled, inactive, mean)), scaled))
  }

  /** What the moments mean, read from the scaled working copy `m.coefs`: the mean is
      row 0 plus every later term whose active degrees are all zero (whatever term 0
      is), and the variance, when present, sums per quantity of interest the squares
      of the rows added up per distinct active part, less the squared mean. */
  predicate MomentsOf(p: Pce, inactive: seq<nat>, m: Moments)
    requires Valid(p) && p.indices.Some? && p.coefs.Some?
    requires 0 < |p.indices.value| <= |m.coefs| && RowsOfWidth(m.coefs, p.coefs.value.width)
    requires forall dd | 0 <= dd < |inactive| :: inactive[dd] < p.numVars
  {
    var active := ActiveVars(p.numVars, inactive);
    var n := |p.indices.value|;
    var keys := Parts(p.indices.value, active, p.numVars);
    var nq := p.coefs.value.width;
    && m.mean == AddRows(m.coefs[0], CoefSum(keys[1..], m.coefs[1..n], ZeroIndex(|active|), nq))
    && (m.variance.Some? ==>
          && |m.variance.value| == nq
          && var g := Merge.Merge(keys, m.coefs[..n], nq);
             forall q | 0 <= q < nq :: m.variance.value[q] == SumSquares(Column(g.1, q)) - Sq(m.mean[q]))
  }

  /** The conditional mean: row 0 plus every scaled row of a term with no active
      degree (from term 1 on). */
  function Mean0(p: Pce, scaled: seq<Row>, inactive: seq<nat>): (r: Row)
    requires Valid(p) && p.indices.Some? && p.coefs.Some?
    requires 0 < |p.indices.value| <= |scaled| && RowsOfWidth(scaled, p.coefs.value.width)
    requires forall dd | 0 <= dd < |inactive| :: inactive[dd] < p.numVars
    ensures |r| == p.coefs.value.width
    ensures var active := ActiveVars(p.numVars, inactive);
            var n := |p.indices.value|;
            r == AddRows(scaled[0], CoefSum(Parts(p.indices.value, active, p.numVars)[1..], scaled[1..n],
                                            ZeroIndex(|active|), p.coefs.value.width))
  {
    var active := ActiveVars(p.numVars, inactive);
    var n := |p.indices.value|;
    var keys := Parts(p.indices.value, active, p.numVars);
    ZeroGroupTailIsSum(keys, scaled[..n], ZeroIndex(|active|), n, p.coefs.value.width);
    assert keys[1..n] == keys[1..] && scaled[..n][1..n] == scaled[1..n];
    AddRows(scaled[0], ZeroGroupTail(keys, scaled[..n], ZeroIndex(|active|), n, p.coefs.value.width))
  }

  /** The scaled rows of the terms grouped by their active degrees. */
  function Groups(p: Pce, scaled: seq<Row>, inactive: seq<nat>): (r: (seq<MultiIndex>, seq<Row>))
    requires Valid(p) && p.indices.Some? && p.coefs.Some?
    requires 0 < |p.indices.value| <= |scaled| && RowsOfWidth(scaled, p.coefs.value.width)
    requires forall dd | 0 <= dd < |inactive| :: inactive[dd] < p.numVars
    ensures |r.0| == |r.1| && RowsOfWidth(r.1, p.coefs.value.width)
  {
    var active := ActiveVars(p.numVars, inactive);
    var n := |p.indices.value|;
    Merge.Merge(Parts(p.indices.value, active, p.numVars), scaled[..n], p.coefs.value.width)
  }

  /** The conditional variance: per quantity of interest, the sum of the squared
      group coefficients less the squared mean. */
  function Variance0(p: Pce, scaled: seq<Row>, inactive: seq<nat>, mean: Row): (r: Row)
    requires Valid(p) && p.indices.Some? && p.coefs.Some?
    requires 0 < |p.indices.value| <= |scaled| && RowsOfWidth(scaled, p.coefs.value.width)
    requires forall dd | 0 <= dd < |inactive| :: inactive[dd] < p.numVars
    requires |mean| == p.coefs.value.width
    ensures |r| == p.coefs.value.width
  {
    var g := Groups(p, scaled, inactive);
    seq(p.coefs.value.width, q requires 0 <= q < p.coefs.value.width => SumSquares(Column(g.1, q)) - Sq(mean[q]))
  }

  /* ----- properties ----- */

  /** The rows 1 .. n-1 of the zero group, added to row 0 of that group, are the
      group's whole sum. */
  lemma {:induction false} ZeroGroupSum(keys: seq<MultiIndex>, rows: seq<Row>, z: MultiIndex, n: nat, nq: nat)
    requires 1 <= n <= |keys| == |rows| && RowsOfWidth(rows, nq) && keys[0] == z
    ensures CoefSum(keys[..n], rows[..n], z, nq) == AddRows(rows[0], ZeroGroupTail(keys, rows, z, n, nq))
  {
    var sum := CoefSum(keys[..n], rows[..n], z, nq);
    var tail := ZeroGroupTail(keys, rows, z, n, nq);
    assert keys[..n][..n - 1] == keys[..n - 1] && rows[..n][..n - 1] == rows[..n - 1];
    if n == 1 {
      assert CoefSum(keys[..0], rows[..0], z, nq) == Zeros(nq);
      assert sum == AddRows(Zeros(nq), rows[0]);
      assert sum == AddRows(rows[0], tail);
    } else {
      ZeroGroupSum(keys, rows, z, n - 1, nq);
      var prevTail := ZeroGroupTail(keys, rows, z, n - 1, nq);
      if keys[n - 1] == z {
        assert sum == AddRows(AddRows(rows[0], prevTail), rows[n - 1]);
        assert tail == AddRows(prevTail, rows[n - 1]);
      }
    }
  }

  /** The rows 1 .. n-1 of the zero group are the summed coefficient of key `z`
      among terms 1 .. n-1. */
  lemma {:induction false} ZeroGroupTailIsSum(keys: seq<MultiIndex>, rows: seq<Row>, z: MultiIndex, n: nat, nq: nat)
    requires 1 <= n <= |keys| == |rows| && RowsOfWidth(rows, nq)
    ensures ZeroGroupTail(keys, rows, z, n, nq) == CoefSum(keys[1..n], rows[1..n], z, nq)
  {
    if n > 1 {
      ZeroGroupTailIsSum(keys, rows, z, n - 1, nq);
      assert keys[1..n][..n - 2] == keys[1..n - 1] && rows[1..n][..n - 2] == rows[1..n - 1];
    }
  }

  /** The rows 1 .. n-1 of the zero group sum to zero when no later key is zero. */
  lemma {:induction false} ZeroGroupTailEmpty(keys: seq<MultiIndex>, rows: seq<Row>, z: MultiIndex, n: nat, nq: nat)
    requires n <= |keys| == |rows| && RowsOfWidth(rows, nq)
    requires forall k | 1 <= k < n :: keys[k] != z
    ensures ZeroGroupTail(keys, rows, z, n, nq) == Zeros(nq)
  {
    if n > 1 {
      ZeroGroupTailEmpty(keys, rows, z, n - 1, nq);
    }
  }

  /** When the first term has no active degree, the conditional mean is the summed
      coefficient of the group of terms with no active degree, the group whose
      square the variance subtracts. */
  lemma ConditionalMeanIsZeroGroup(nm: Numerics, p: Pce, samples: seq<seq<real>>, inactive: seq<nat>,
                                   returnVariance: bool)
    requires Valid(p)
    requires ConditionalMoments(nm, p, samples, inactive, returnVariance).Success?
    requires NoActiveDegree(p.indices.value[0], ActiveVars(p.numVars, inactive))
    ensures var m := ConditionalMoments(nm, p, samples, inactive, returnVariance).value;
            var n := |p.indices.value|;
            m.mean == CoefSum(Parts(p.indices.value, ActiveVars(p.numVars, inactive), p.numVars),
                              m.coefs[..n], ZeroIndex(|ActiveVars(p.numVars, inactive)|), p.coefs.value.width)
  {
    var m := ConditionalMoments(nm, p, samples, inactive, returnVariance).value;
    var n := |p.indices.value|;
    var active := ActiveVars(p.numVars, inactive);
    var keys := Parts(p.indices.value, active, p.numVars);
    var rows := m.coefs[..n];
    ZeroGroupSum(keys, rows, ZeroIndex(|active|), n, p.coefs.value.width);
    assert keys[..n] == keys && rows[..n] == rows;
  }

  /** When the first term has no active degree the conditional variance is never
      negative: the squared mean is one of the squares it sums. */
  lemma ConditionalVarianceNonNegative(nm: Numerics, p: Pce, samples: seq<seq<real>>, inactive: seq<nat>)
    requires Valid(p)
    requires ConditionalMoments(nm, p, samples, inactive, true).Success?
    requires NoActiveDegree(p.indices.value[0], ActiveVars(p.numVars, inactive))
    ensures var v := ConditionalMoments(nm, p, samples, inactive, true).value.variance.value;
            forall q | 0 <= q < |v| :: v[q] >= 0.0
  {
    var m := ConditionalMoments(nm, p, samples, inactive, true).value;
    var n := |p.indices.value|;
    var nq := p.coefs.value.width;
    var active := ActiveVars(p.numVars, inactive);
    var keys := Parts(p.indices.value, active, p.numVars);
    var z := ZeroIndex(|active|);
    ConditionalMeanIsZeroGroup(nm, p, samples, inactive, true);
    var g := Groups(p, m.coefs, inactive);
    assert g == Merge.Merge(keys, m.coefs[..n], nq);
    assert keys[0] == z;
    assert z in g.0;
    var j := IndexOf(g.0, z);
    assert g.1[j] == m.mean;
    forall q | 0 <= q < nq ensures m.variance.value[q] >= 0.0 {
      var col := Column(g.1, q);
      SumSquaresAtLeast(col, j);
    }
  }

  /** The variables 0, 1, ..., n - 1 in order. */
  function Iota(n: nat): (r: seq<nat>)
    ensures |r| == n && forall k | 0 <= k < n :: r[k] == k
  {
    if n == 0 then [] else Iota(n - 1) + [n - 1]
  }

  /** The identity permutation of the variables is what `ActiveVars` gives when no
      variable is fixed. */
  lemma {:induction false} AllActive(nv: nat)
    ensures ActiveVars(nv, []) == Iota(nv)
  {
    if nv > 0 {
      AllActive(nv - 1);
      ActiveVarsStep(nv);
    }
  }

  lemma ActiveVarsStep(nv: nat)
    requires nv > 0
    ensures ActiveVars(nv, []) == ActiveVars(nv - 1, []) + [nv - 1]
  {
    assert nv - 1 !in [];
  }

  lemma PartsIdentity(indices: seq<MultiIndex>, nv: nat)
    requires Shaped(indices, nv)
    ensures Parts(indices, Iota(nv), nv) == indices
  {
    var keys := Parts(indices, Iota(nv), nv);
    forall i | 0 <= i < |indices| ensures keys[i] == indices[i] {
      assert Part(indices[i], Iota(nv)) == indices[i];
    }
  }

  /** With no variable fixed every factor is the empty product, so no row changes. */
  lemma ScaledUnchanged(nm: Numerics, indices: seq<MultiIndex>, rows: seq<Row>, nv: nat)
    requires Shaped(indices, nv) && |indices| <= |rows|
    ensures Scaled(nm, [], indices, rows, [], [], nv) == rows
  {
    var scaled := Scaled(nm, [], indices, rows, [], [], nv);
    forall k | 1 <= k < |indices| ensures scaled[k] == rows[k] {
      assert TermFactor(nm, [], indices[k], [], []) == 1.0;
    }
  }

  /** The hypotheses of `NoInactiveMatchesUnconditional`. */
  predicate Unconditional(p: Pce) {
    && Valid(p) && p.indices.Some? && p.coefs.Some?
    && 0 < |p.indices.value| == |p.coefs.value.rows|
    && Distinct(p.indices.value) && p.indices.value[0] == ZeroIndex(p.numVars)
  }

  lemma UnconditionalMean(p: Pce)
    requires Unconditional(p)
    ensures Mean0(p, p.coefs.value.rows, []) == p.coefs.value.rows[0]
  {
    var indices := p.indices.value;
    var rows := p.coefs.value.rows;
    var active := ActiveVars(p.numVars, []);
    AllActive(p.numVars);
    PartsIdentity(indices, p.numVars);
    assert rows[..|indices|] == rows;
    ZeroGroupTailEmpty(indices, rows, ZeroIndex(|active|), |indices|, p.coefs.value.width);
  }

  /** Squaring a whole column and removing the first square leaves the squares of
      the rest of the column. */
  lemma ColumnSplit(rows: seq<Row>, q: nat)
    requires |rows| > 0 && forall k | 0 <= k < |rows| :: q < |rows[k]|
    ensures SumSquares(Column(rows, q)) - Sq(rows[0][q]) == SumSquares(TailColumn(rows, q))
  {
    var col := Column(rows, q);
    assert col[1..] == TailColumn(rows, q);
  }

  /** With no variable fixed and distinct multi-indices every term is its own group. */
  lemma UnconditionalGroups(p: Pce)
    requires Unconditional(p)
    ensures Groups(p, p.coefs.value.rows, []) == (p.indices.value, p.coefs.value.rows)
  {
    var indices := p.indices.value;
    var rows := p.coefs.value.rows;
    AllActive(p.numVars);
    PartsIdentity(indices, p.numVars);
    assert rows[..|indices|] == rows;
    MergeDistinctIsIdentity(indices, rows, p.coefs.value.width);
  }

  lemma UnconditionalVariance(p: Pce)
    requires Unconditional(p)
    ensures Variance0(p, p.coefs.value.rows, [], p.coefs.value.rows[0]) == Variance(p).value
  {
    var rows := p.coefs.value.rows;
    var nq := p.coefs.value.width;
    UnconditionalGroups(p);
    var v := Variance0(p, rows, [], rows[0]);
    var w := Variance(p).value;
    forall q | 0 <= q < nq ensures v[q] == w[q] {
      ColumnSplit(rows, q);
    }
  }

  /** With no variable fixed, and distinct multi-indices led by the constant term,
      the conditional moments are the expansion's mean and variance and the
      coefficients are left unchanged. */
  lemma NoInactiveMatchesUnconditional(nm: Numerics, p: Pce)
    requires Valid(p) && p.indices.Some? && p.coefs.Some?
    requires 0 < |p.indices.value| == |p.coefs.value.rows|
    requires Distinct(p.indices.value) && p.indices.value[0] == ZeroIndex(p.numVars)
    ensures ConditionalMoments(nm, p, [], [], true)
            == Success(Moments(Mean(p).value, Some(Variance(p).value), p.coefs.value.rows))
  {
    assert Accepts(p, [], []);
    ScaledUnchanged(nm, p.indices.value, p.coefs.value.rows, p.numVars);
    UnconditionalMean(p);
    UnconditionalVariance(p);
  }
}
