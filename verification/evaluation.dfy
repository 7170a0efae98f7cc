/** Evaluation of a multivariate orthonormal basis and its first derivatives at a set
    of samples from per-variable 1D tables (`evaluate_multivariate_orthonormal_polynomial`).
    A basis term with multi-index `idx` is the product over the variables `dd` of the
    degree-`idx[dd]` polynomial of that variable's family. */
module Evaluation {
  import opened PceTypes
  import opened Recurrence
  import opened Providers

  /** Which recurrence table each variable uses: one table shared by every variable
      (no map given), or a list of tables and a variable-to-table map. A `None` entry
      is the table-less monomial basis. */
  datatype TableSet =
    | Shared(table: Option<Table>)
    | PerFamily(tables: seq<Option<Table>>, typeMap: seq<nat>)

  function TableList(ts: TableSet): seq<Option<Table>> {
    match ts
    case Shared(t) => [t]
    case PerFamily(tables, _) => tables
  }

  function TypeMap(ts: TableSet, nv: nat): seq<nat> {
    match ts
    case Shared(_) => seq(nv, _ => 0)
    case PerFamily(_, typeMap) => typeMap
  }

  /** Variable `dd` is mapped to an existing recurrence table. */
  predicate HasTable(ts: TableSet, nv: nat, dd: nat) {
    && dd < |TypeMap(ts, nv)|
    && TypeMap(ts, nv)[dd] < |TableList(ts)|
    && TableList(ts)[TypeMap(ts, nv)[dd]].Some?
  }

  function TableOf(ts: TableSet, nv: nat, dd: nat): Table
    requires HasTable(ts, nv, dd)
  {
    TableList(ts)[TypeMap(ts, nv)[dd]].value
  }

  /** Column of the derivative of degree `d` in a 1D table whose values stop at `maxLevel`. */
  function DerivColumn(maxLevel: nat, d: nat): nat {
    maxLevel + 1 + d
  }

  /** The 1D basis table of one variable at its samples: row `s` holds the values of
      degrees 0..maxLevel at sample `s` and, with `derivOrder == 1`, their derivatives
      after them. */
  function Basis1D(nm: Numerics, t: Table, xs: seq<real>, maxLevel: nat, derivOrder: nat): (r: seq<seq<real>>)
    requires derivOrder <= 1
    ensures |r| == |xs|
    ensures forall s | 0 <= s < |xs| :: |r[s]| == (derivOrder + 1) * (maxLevel + 1)
    ensures forall s, d | 0 <= s < |xs| && 0 <= d <= maxLevel :: r[s][d] == nm.value(t, d, xs[s])
    ensures derivOrder == 1 ==>
              forall s, d | 0 <= s < |xs| && 0 <= d <= maxLevel ::
                r[s][DerivColumn(maxLevel, d)] == nm.deriv(t, d, xs[s])
  {
    seq(|xs|, s requires 0 <= s < |xs| =>
      seq((derivOrder + 1) * (maxLevel + 1), c requires 0 <= c < (derivOrder + 1) * (maxLevel + 1) =>
        if c <= maxLevel then nm.value(t, c, xs[s]) else nm.deriv(t, c - maxLevel - 1, xs[s])))
  }

  /** The conditions under which the evaluation returns instead of raising. */
  predicate Admissible(samples: seq<seq<real>>, ns: nat, indices: seq<MultiIndex>, nv: nat,
                       ts: TableSet, derivOrder: int)
    requires Shaped(indices, nv)
  {
    && |samples| == nv
    && ns > 0
    && nv > 0
    && |indices| > 0
    && (forall dd | 0 <= dd < nv ::
          HasTable(ts, nv, dd) && TableOf(ts, nv, dd).numCoefs > MaxDegrees(indices, nv)[dd])
    && 0 <= derivOrder <= 1
  }

  /** The 1D factors p_{idx[dd]}(x_dd) of term `idx` at sample `s`. */
  function Values(nm: Numerics, ts: TableSet, nv: nat, samples: seq<seq<real>>, idx: MultiIndex, s: nat)
    : (r: seq<real>)
    requires |samples| == nv && |idx| == nv
    requires forall dd | 0 <= dd < nv :: HasTable(ts, nv, dd) && s < |samples[dd]|
    ensures |r| == nv
  {
    seq(nv, dd requires 0 <= dd < nv => nm.value(TableOf(ts, nv, dd), idx[dd], samples[dd][s]))
  }

  /** The factors of term `idx` at sample `s` in block `b` of the basis matrix, read
      off the 1D tables: block 0 takes value columns only, block `j + 1` takes the
      derivative column of variable `j` instead of its value column. */
  function EntryFactors(bases: seq<seq<seq<real>>>, maxLevel: seq<nat>, derivOrder: nat, idx: MultiIndex,
                        b: nat, s: nat): (r: seq<real>)
    requires derivOrder <= 1 && |bases| == |maxLevel| == |idx|
    requires b <= derivOrder * |idx|
    requires forall dd | 0 <= dd < |idx| :: idx[dd] <= maxLevel[dd] && s < |bases[dd]|
    requires forall dd | 0 <= dd < |idx| :: |bases[dd][s]| == (derivOrder + 1) * (maxLevel[dd] + 1)
    ensures |r| == |idx|
  {
    seq(|idx|, dd requires 0 <= dd < |idx| =>
      if b == dd + 1 then bases[dd][s][DerivColumn(maxLevel[dd], idx[dd])] else bases[dd][s][idx[dd]])
  }

  /** Every variable's 1D table, evaluated up to its maximum degree. */
  predicate Tabulated(nm: Numerics, ts: TableSet, nv: nat, samples: seq<seq<real>>, maxLevel: seq<nat>,
                      derivOrder: nat, bases: seq<seq<seq<real>>>)
    requires derivOrder <= 1
  {
    && |samples| == nv && |maxLevel| == nv && |bases| == nv
    && (forall dd | 0 <= dd < nv :: HasTable(ts, nv, dd))
    && (forall dd | 0 <= dd < nv ::
          bases[dd] == Basis1D(nm, TableOf(ts, nv, dd), samples[dd], maxLevel[dd], derivOrder))
  }

  /** In block 0 the factors are the 1D values. */
  lemma ValueFactors(nm: Numerics, ts: TableSet, nv: nat, samples: seq<seq<real>>, ns: nat,
                     maxLevel: seq<nat>, derivOrder: nat, bases: seq<seq<seq<real>>>, idx: MultiIndex, s: nat)
    requires derivOrder <= 1 && Tabulated(nm, ts, nv, samples, maxLevel, derivOrder, bases)
    requires |idx| == nv && s < ns
    requires forall dd | 0 <= dd < nv :: idx[dd] <= maxLevel[dd] && |samples[dd]| == ns
    ensures EntryFactors(bases, maxLevel, derivOrder, idx, 0, s) == Values(nm, ts, nv, samples, idx, s)
  {
  }

  /** In block `j + 1` the factor of variable `j` is its derivative, the others are values. */
  lemma DerivativeFactors(nm: Numerics, ts: TableSet, nv: nat, samples: seq<seq<real>>, ns: nat,
                          maxLevel: seq<nat>, bases: seq<seq<seq<real>>>, idx: MultiIndex, j: nat, s: nat)
    requires Tabulated(nm, ts, nv, samples, maxLevel, 1, bases)
    requires |idx| == nv && j < nv && s < ns
    requires forall dd | 0 <= dd < nv :: idx[dd] <= maxLevel[dd] && |samples[dd]| == ns
    ensures EntryFactors(bases, maxLevel, 1, idx, j + 1, s)
            == Values(nm, ts, nv, samples, idx, s)[j := nm.deriv(TableOf(ts, nv, j), idx[j], samples[j][s])]
  {
  }

  /** The basis matrix assembled from the 1D tables, as `1 + derivOrder * nv` stacked
      blocks of `ns` rows: row `s` of block `b` is row `b * ns + s` of the matrix. */
  function Assemble(bases: seq<seq<seq<real>>>, maxLevel: seq<nat>, derivOrder: nat, indices: seq<MultiIndex>,
                    nv: nat, ns: nat): (m: seq<seq<seq<real>>>)
    requires derivOrder <= 1 && |bases| == nv && |maxLevel| == nv && Shaped(indices, nv)
    requires forall ii, dd | 0 <= ii < |indices| && 0 <= dd < nv :: indices[ii][dd] <= maxLevel[dd]
    requires forall dd | 0 <= dd < nv :: |bases[dd]| == ns
    requires forall dd, s | 0 <= dd < nv && 0 <= s < ns :: |bases[dd][s]| == (derivOrder + 1) * (maxLevel[dd] + 1)
    ensures |m| == 1 + derivOrder * nv
    ensures forall b | 0 <= b < |m| :: |m[b]| == ns
    ensures forall b, s | 0 <= b < |m| && 0 <= s < ns :: |m[b][s]| == |indices|
    ensures forall b, s, ii | 0 <= b < |m| && 0 <= s < ns && 0 <= ii < |indices| ::
              m[b][s][ii] == Prod(EntryFactors(bases, maxLevel, derivOrder, indices[ii], b, s))
  {
    seq(1 + derivOrder * nv, b requires 0 <= b < 1 + derivOrder * nv =>
      seq(ns, s requires 0 <= s < ns =>
        seq(|indices|, ii requires 0 <= ii < |indices| =>
          Prod(EntryFactors(bases, maxLevel, derivOrder, indices[ii], b, s)))))
  }

  lemma ValueBlock(nm: Numerics, ts: TableSet, nv: nat, samples: seq<seq<real>>, ns: nat,
                   indices: seq<MultiIndex>, maxLevel: seq<nat>, derivOrder: nat, bases: seq<seq<seq<real>>>)
    requires derivOrder <= 1 && Shaped(indices, nv)
    requires Tabulated(nm, ts, nv, samples, maxLevel, derivOrder, bases)
    requires forall ii, dd | 0 <= ii < |indices| && 0 <= dd < nv :: indices[ii][dd] <= maxLevel[dd]
    requires forall dd | 0 <= dd < nv :: |samples[dd]| == ns
    ensures forall s, ii | 0 <= s < ns && 0 <= ii < |indices| ::
              Assemble(bases, maxLevel, derivOrder, indices, nv, ns)[0][s][ii]
              == Prod(Values(nm, ts, nv, samples, indices[ii], s))
  {
    forall s, ii | 0 <= s < ns && 0 <= ii < |indices|
      ensures Assemble(bases, maxLevel, derivOrder, indices, nv, ns)[0][s][ii]
              == Prod(Values(nm, ts, nv, samples, indices[ii], s))
    {
      ValueFactors(nm, ts, nv, samples, ns, maxLevel, derivOrder, bases, indices[ii], s);
    }
  }

  lemma DerivativeBlocks(nm: Numerics, ts: TableSet, nv: nat, samples: seq<seq<real>>, ns: nat,
                         indices: seq<MultiIndex>, maxLevel: seq<nat>, bases: seq<seq<seq<real>>>)
    requires Shaped(indices, nv)
    requires Tabulated(nm, ts, nv, samples, maxLevel, 1, bases)
    requires forall ii, dd | 0 <= ii < |indices| && 0 <= dd < nv :: indices[ii][dd] <= maxLevel[dd]
    requires forall dd | 0 <= dd < nv :: |samples[dd]| == ns
    ensures forall j, s, ii | 0 <= j < nv && 0 <= s < ns && 0 <= ii < |indices| ::
              Assemble(bases, maxLevel, 1, indices, nv, ns)[j + 1][s][ii]
              == Prod(Values(nm, ts, nv, samples, indices[ii], s)
                      [j := nm.deriv(TableOf(ts, nv, j), indices[ii][j], samples[j][s])])
  {
    forall j, s, ii | 0 <= j < nv && 0 <= s < ns && 0 <= ii < |indices|
      ensures Assemble(bases, maxLevel, 1, indices, nv, ns)[j + 1][s][ii]
              == Prod(Values(nm, ts, nv, samples, indices[ii], s)
                      [j := nm.deriv(TableOf(ts, nv, j), indices[ii][j], samples[j][s])])
    {
      DerivativeFactors(nm, ts, nv, samples, ns, maxLevel, bases, indices[ii], j, s);
    }
  }

  /** The basis matrix as `1 + derivOrder * nv` blocks of `ns` rows, one column per
      term. Block 0 holds the basis values at the samples; with `derivOrder == 1`,
      block `j + 1` holds their derivatives with respect to variable `j`, by the
      product rule. */
  function Evaluate(nm: Numerics, samples: seq<seq<real>>, ns: nat, indices: seq<MultiIndex>, nv: nat,
                    ts: TableSet, derivOrder: int): (r: Result<seq<seq<seq<real>>>>)
    requires forall d | 0 <= d < |samples| :: |samples[d]| == ns
    requires Shaped(indices, nv)
    ensures r.Success? <==> Admissible(samples, ns, indices, nv, ts, derivOrder)
    ensures r.Success? ==> |r.value| == 1 + derivOrder * nv
    ensures r.Success? ==> forall b | 0 <= b < |r.value| :: |r.value[b]| == ns
    ensures r.Success? ==>
              forall b, s | 0 <= b < |r.value| && 0 <= s < ns :: |r.value[b][s]| == |indices|
    ensures r.Success? ==>
              forall s, ii | 0 <= s < ns && 0 <= ii < |indices| ::
                r.value[0][s][ii] == Prod(Values(nm, ts, nv, samples, indices[ii], s))
    ensures r.Success? && derivOrder == 1 ==>
              forall j, s, ii | 0 <= j < nv && 0 <= s < ns && 0 <= ii < |indices| ::
                r.value[j + 1][s][ii]
                == Prod(Values(nm, ts, nv, samples, indices[ii], s)
                        [j := nm.deriv(TableOf(ts, nv, j), indices[ii][j], samples[j][s])])
  {
    if !Admissible(samples, ns, indices, nv, ts, derivOrder) then
      if 0 <= derivOrder <= 1 then Failure(DimensionMismatch) else Failure(InvalidArgument)
    else
      var maxLevel := MaxDegrees(indices, nv);
      var bases := seq(nv, dd requires 0 <= dd < nv =>
        Basis1D(nm, TableOf(ts, nv, dd), samples[dd], maxLevel[dd], derivOrder));
      assert Tabulated(nm, ts, nv, samples, maxLevel, derivOrder, bases);
      var m := Assemble(bases, maxLevel, derivOrder, indices, nv, ns);
      ValueBlock(nm, ts, nv, samples, ns, indices, maxLevel, derivOrder, bases);
      if derivOrder == 1 then
        DerivativeBlocks(nm, ts, nv, samples, ns, indices, maxLevel, bases);
        Success(m)
      else
        Success(m)
  }
}
