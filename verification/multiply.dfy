/** Multiplication of two expansions (`multiply_multivariate_orthonormal_polynomial_expansions`):
    every pair of terms, one from each operand, contributes the basis product of
    their multi-indices scaled by the product of their coefficients, and the
    contributions are merged. */
module Multiply {
  import opened PceTypes
  import opened UnivariateProducts
  import opened BasisProduct
  import opened Merge

  /** The two operands of a multiplication and the univariate products it looks up:
      `cache[dd]` lists the products for maximum degrees (hi[dd], lo[dd]). */
  datatype Operands = Operands(
    cache: seq<seq<Row>>, hi: seq<nat>, lo: seq<nat>,
    indices1: seq<MultiIndex>, coefs1: seq<Row>,
    indices2: seq<MultiIndex>, coefs2: seq<Row>,
    nv: nat, nq: nat)

  /** Shapes every call satisfies: `nv` variables, `nq` quantities of interest, and a
      product table that covers every pair of terms. */
  predicate WellShaped(o: Operands) {
    && Shaped(o.indices1, o.nv) && Shaped(o.indices2, o.nv)
    && RowsOfWidth(o.coefs1, o.nq) && RowsOfWidth(o.coefs2, o.nq)
    && forall i, j | 0 <= i < |o.indices1| && 0 <= j < |o.indices2| ::
         Fits(o.cache, o.hi, o.lo, o.indices1[i], o.indices2[j])
  }

  /** The conditions under which the multiplication returns instead of raising. */
  predicate Admissible(o: Operands) {
    && |o.indices2| <= |o.indices1|
    && |o.coefs1| == |o.indices1|
    && |o.coefs2| == |o.indices2|
    && |o.indices2| > 0
  }

  /** `p * a[q] * b[q]` for every quantity of interest `q`. */
  function Scale(p: real, a: Row, b: Row): (r: Row)
    requires |a| == |b|
    ensures |r| == |a| && forall q | 0 <= q < |a| :: r[q] == p * a[q] * b[q]
  {
    seq(|a|, q requires 0 <= q < |a| => p * a[q] * b[q])
  }

  /** The contribution of term `i` of the first and term `j` of the second operand:
      the basis product of their multi-indices, each coefficient scaled by both rows. */
  function PairBlock(o: Operands, i: nat, j: nat): (r: (seq<MultiIndex>, seq<Row>))
    requires WellShaped(o) && Admissible(o) && i < |o.indices1| && j < |o.indices2|
    ensures |r.0| == |r.1| && RowsOfWidth(r.1, o.nq) && Distinct(r.0)
  {
    var bp := BasisProduct.BasisProduct(o.cache, o.hi, o.lo, o.indices1[i], o.indices2[j], ProductTolerance);
    (bp.0, seq(|bp.1|, k requires 0 <= k < |bp.1| => Scale(bp.1[k], o.coefs1[i], o.coefs2[j])))
  }

  /** The blocks of term `i` of the first operand with each term of the second. */
  function RowBlockList(o: Operands, i: nat): (r: seq<(seq<MultiIndex>, seq<Row>)>)
    requires WellShaped(o) && Admissible(o) && i < |o.indices1|
    ensures |r| == |o.indices2| && BlocksOfWidth(r, o.nq)
    ensures forall j | 0 <= j < |r| :: r[j] == PairBlock(o, i, j)
  {
    seq(|o.indices2|, j requires 0 <= j < |o.indices2| => PairBlock(o, i, j))
  }

  /** The blocks of term `i` of the first operand, concatenated into one term list. */
  function RowBlocks(o: Operands, i: nat): (r: (seq<MultiIndex>, seq<Row>))
    requires WellShaped(o) && Admissible(o) && i < |o.indices1|
    ensures |r.0| == |r.1| && RowsOfWidth(r.1, o.nq)
  {
    (FlattenIndices(RowBlockList(o, i)), FlattenCoefs(RowBlockList(o, i), o.nq))
  }

  function AllBlockList(o: Operands): (r: seq<(seq<MultiIndex>, seq<Row>)>)
    requires WellShaped(o) && Admissible(o)
    ensures |r| == |o.indices1| && BlocksOfWidth(r, o.nq)
    ensures forall i | 0 <= i < |r| :: r[i] == RowBlocks(o, i)
  {
    seq(|o.indices1|, i requires 0 <= i < |o.indices1| => RowBlocks(o, i))
  }

  /** All blocks in the order the source lists them: first-operand term by
      first-operand term, and within each, second-operand term by second-operand term. */
  function AllBlocks(o: Operands): (r: (seq<MultiIndex>, seq<Row>))
    requires WellShaped(o) && Admissible(o)
    ensures |r.0| == |r.1| && RowsOfWidth(r.1, o.nq)
  {
    (FlattenIndices(AllBlockList(o)), FlattenCoefs(AllBlockList(o), o.nq))
  }

  /* ----- the bilinear specification ----- */

  /** Coefficient of basis term `a` in the product of basis terms `i` and `j` (0 when the
      product does not contain it). */
  function ProductTermCoef(o: Operands, i: nat, j: nat, a: MultiIndex): real
    requires WellShaped(o) && i < |o.indices1| && j < |o.indices2|
  {
    var bp := BasisProduct.BasisProduct(o.cache, o.hi, o.lo, o.indices1[i], o.indices2[j], ProductTolerance);
    if a in bp.0 then bp.1[IndexOf(bp.0, a)] else 0.0
  }

  /** The contributions of the pairs (i, j) of term `i` to the coefficient of `a`. */
  function PairContributions(o: Operands, i: nat, a: MultiIndex): (r: seq<Row>)
    requires WellShaped(o) && Admissible(o) && i < |o.indices1|
    ensures |r| == |o.indices2| && RowsOfWidth(r, o.nq)
    ensures forall j | 0 <= j < |r| :: r[j] == Scale(ProductTermCoef(o, i, j, a), o.coefs1[i], o.coefs2[j])
  {
    seq(|o.indices2|, j requires 0 <= j < |o.indices2| =>
      Scale(ProductTermCoef(o, i, j, a), o.coefs1[i], o.coefs2[j]))
  }

  /** Sum over the terms j of the second operand of c1[i] * c2[j] * (coefficient of
      `a` in the basis product of terms i and j). */
  function InnerSum(o: Operands, i: nat, a: MultiIndex): (r: Row)
    requires WellShaped(o) && Admissible(o) && i < |o.indices1|
    ensures |r| == o.nq
  {
    SumRows(PairContributions(o, i, a), o.nq)
  }

  /** Sum over all pairs of terms (i, j) of c1[i] * c2[j] * (coefficient of `a` in the
      basis product of their multi-indices). */
  function BilinearSum(o: Operands, a: MultiIndex): (r: Row)
    requires WellShaped(o) && Admissible(o)
    ensures |r| == o.nq
  {
    var inner := seq(|o.indices1|, i requires 0 <= i < |o.indices1| => InnerSum(o, i, a));
    assert RowsOfWidth(inner, o.nq);
    SumRows(inner, o.nq)
  }
  /** `prod` is the product expansion of the operands: every multi-index, listed in
      it or not, gets the bilinear sum over all pairs of terms (zero when unlisted). */
  ghost predicate IsProductOf(prod: (seq<MultiIndex>, seq<Row>), o: Operands) {
    && WellShaped(o) && Admissible(o)
    && |prod.0| == |prod.1| && RowsOfWidth(prod.1, o.nq)
    && forall a :: Find(prod.0, prod.1, a, o.nq) == BilinearSum(o, a)
  }


  lemma PairBlockCoef(o: Operands, i: nat, j: nat, a: MultiIndex)
    requires WellShaped(o) && Admissible(o) && i < |o.indices1| && j < |o.indices2|
    ensures CoefSum(PairBlock(o, i, j).0, PairBlock(o, i, j).1, a, o.nq)
            == Scale(ProductTermCoef(o, i, j, a), o.coefs1[i], o.coefs2[j])
  {
    var b := PairBlock(o, i, j);
    if a in b.0 {
      CoefSumDistinct(b.0, b.1, IndexOf(b.0, a), o.nq);
    } else {
      CoefSumAbsent(b.0, b.1, a, o.nq);
    }
  }

  lemma RowBlocksCoef(o: Operands, i: nat, a: MultiIndex)
    requires WellShaped(o) && Admissible(o) && i < |o.indices1|
    ensures CoefSum(RowBlocks(o, i).0, RowBlocks(o, i).1, a, o.nq) == InnerSum(o, i, a)
  {
    var bs := RowBlockList(o, i);
    FlattenCoefSum(bs, a, o.nq);
    forall j | 0 <= j < |bs| ensures BlockSums(bs, a, o.nq)[j] == PairContributions(o, i, a)[j] {
      PairBlockCoef(o, i, j, a);
    }
    assert BlockSums(bs, a, o.nq) == PairContributions(o, i, a);
  }

  lemma AllBlocksCoef(o: Operands, a: MultiIndex)
    requires WellShaped(o) && Admissible(o)
    ensures CoefSum(AllBlocks(o).0, AllBlocks(o).1, a, o.nq) == BilinearSum(o, a)
  {
    var bs := AllBlockList(o);
    FlattenCoefSum(bs, a, o.nq);
    var inner := seq(|o.indices1|, i requires 0 <= i < |o.indices1| => InnerSum(o, i, a));
    forall i | 0 <= i < |bs| ensures BlockSums(bs, a, o.nq)[i] == inner[i] {
      RowBlocksCoef(o, i, a);
    }
    assert BlockSums(bs, a, o.nq) == inner;
  }

  /** Per-variable sum of the operands' maximum degrees. */
  function DegreeBound(o: Operands): (r: seq<nat>)
    requires Shaped(o.indices1, o.nv) && Shaped(o.indices2, o.nv)
    requires |o.indices1| > 0 && |o.indices2| > 0
    ensures |r| == o.nv
  {
    SumDegrees(MaxDegrees(o.indices1, o.nv), MaxDegrees(o.indices2, o.nv))
  }

  lemma PairMemberBounded(o: Operands, i: nat, j: nat, x: MultiIndex)
    requires WellShaped(o) && Admissible(o) && i < |o.indices1| && j < |o.indices2|
    requires x in PairBlock(o, i, j).0
    ensures |x| == o.nv && forall dd | 0 <= dd < o.nv :: x[dd] <= DegreeBound(o)[dd]
  {
    var m1 := MaxDegrees(o.indices1, o.nv);
    var m2 := MaxDegrees(o.indices2, o.nv);
    assert InBox(x, o.indices1[i], o.indices2[j]);
    forall dd | 0 <= dd < o.nv ensures x[dd] <= DegreeBound(o)[dd] {
      assert o.indices1[i][dd] <= m1[dd] && o.indices2[j][dd] <= m2[dd];
    }
  }

  /** A multi-index of any block is within the per-variable degree bound. */
  lemma BlockMemberBounded(o: Operands, x: MultiIndex)
    requires WellShaped(o) && Admissible(o) && x in AllBlocks(o).0
    ensures |x| == o.nv && forall dd | 0 <= dd < o.nv :: x[dd] <= DegreeBound(o)[dd]
  {
    var bs := AllBlockList(o);
    FlattenMember(bs, x);
    var i :| 0 <= i < |bs| && x in bs[i].0;
    var rs := RowBlockList(o, i);
    FlattenMember(rs, x);
    var j :| 0 <= j < |rs| && x in rs[j].0;
    PairMemberBounded(o, i, j, x);
  }

  /** The product expansion: distinct multi-indices, each of degree at most the sum of
      the operands' maximum degrees in every variable, whose coefficient row is the sum
      over all pairs of terms of the two coefficient rows times the coefficient of that
      multi-index in the product of the two basis terms. */
  function MultiplyExpansions(o: Operands): (r: Result<(seq<MultiIndex>, seq<Row>)>)
    requires WellShaped(o)
    ensures r.Success? <==> Admissible(o)
    ensures r.Success? ==> TermList(r.value, o.nq) && Within(r.value.0, DegreeBound(o))
    ensures r.Success? ==>
              forall k | 0 <= k < |r.value.0| ::
                r.value.1[k] == BilinearSum(o, r.value.0[k])
    ensures r.Success? ==>
              forall a :: Find(r.value.0, r.value.1, a, o.nq) == BilinearSum(o, a)
  {
    if !Admissible(o) then Failure(DimensionMismatch)
    else
      MergedFacts(o);
      Success(MergedProduct(o))
  }

  function MergedProduct(o: Operands): (seq<MultiIndex>, seq<Row>)
    requires WellShaped(o) && Admissible(o)
  {
    Merge.Merge(AllBlocks(o).0, AllBlocks(o).1, o.nq)
  }

  lemma MergedFacts(o: Operands)
    requires WellShaped(o) && Admissible(o)
    ensures var m := MergedProduct(o);
            && TermList(m, o.nq) && Within(m.0, DegreeBound(o))
            && (forall k | 0 <= k < |m.1| :: m.1[k] == BilinearSum(o, m.0[k]))
            && (forall a :: Find(m.0, m.1, a, o.nq) == BilinearSum(o, a))
  {
    var blocks := AllBlocks(o);
    var m := Merge.Merge(blocks.0, blocks.1, o.nq);
    forall k | 0 <= k < |m.0|
      ensures |m.0[k]| == o.nv && forall dd | 0 <= dd < o.nv :: m.0[k][dd] <= DegreeBound(o)[dd]
    {
      BlockMemberBounded(o, m.0[k]);
    }
    forall k | 0 <= k < |m.1| ensures m.1[k] == BilinearSum(o, m.0[k]) {
      AllBlocksCoef(o, m.0[k]);
    }
    forall a ensures Find(m.0, m.1, a, o.nq) == BilinearSum(o, a) {
      MergeFind(blocks.0, blocks.1, a, o.nq);
      AllBlocksCoef(o, a);
    }
  }
}
