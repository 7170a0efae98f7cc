/** Merging expansions given as lists of (multi-index, coefficient row) terms into one
    expansion with distinct multi-indices, the coefficients of equal multi-indices
    summed. This is what `add_polynomials` (from `pyapprox.manipulate_polynomials`,
    not part of this model) provides to the expansion; it is specified here by that
    meaning only, and no order of the merged terms is claimed. */
module Merge {
  import opened PceTypes

  /** Sum of the coefficient rows of every term whose multi-index is `a`. */
  function CoefSum(indices: seq<MultiIndex>, coefs: seq<Row>, a: MultiIndex, nq: nat): (r: Row)
    requires |indices| == |coefs| && RowsOfWidth(coefs, nq)
    ensures |r| == nq
    decreases |indices|
  {
    if |indices| == 0 then Zeros(nq)
    else
      var n := |indices| - 1;
      var prev := CoefSum(indices[..n], coefs[..n], a, nq);
      if indices[n] == a then AddRows(prev, coefs[n]) else prev
  }

  function IndexOf<T(==)>(s: seq<T>, x: T): (k: nat)
    requires x in s
    ensures k < |s| && s[k] == x
    ensures forall i | 0 <= i < k :: s[i] != x
  {
    if s[0] == x then 0 else 1 + IndexOf(s[1..], x)
  }

  /** The row stored for `b` in a merged expansion, zeros when `b` is absent. */
  function Find(mi: seq<MultiIndex>, mc: seq<Row>, b: MultiIndex, nq: nat): (r: Row)
    requires |mi| == |mc| && RowsOfWidth(mc, nq)
    ensures |r| == nq
  {
    if b in mi then mc[IndexOf(mi, b)] else Zeros(nq)
  }

  lemma FindDistinct(mi: seq<MultiIndex>, mc: seq<Row>, k: nat, nq: nat)
    requires |mi| == |mc| && RowsOfWidth(mc, nq) && Distinct(mi) && k < |mi|
    ensures Find(mi, mc, mi[k], nq) == mc[k]
  {
  }

  /** Adds one term to a merged expansion. */
  function Insert(mi: seq<MultiIndex>, mc: seq<Row>, a: MultiIndex, c: Row, nq: nat)
    : (r: (seq<MultiIndex>, seq<Row>))
    requires |mi| == |mc| && RowsOfWidth(mc, nq) && Distinct(mi) && |c| == nq
    ensures |r.0| == |r.1| && RowsOfWidth(r.1, nq) && Distinct(r.0)
    ensures forall b :: b in r.0 <==> b in mi || b == a
    ensures forall k | 0 <= k < |r.0| ::
              r.1[k] == if r.0[k] == a then AddRows(Find(mi, mc, a, nq), c) else Find(mi, mc, r.0[k], nq)
  {
    if a in mi then
      var p := IndexOf(mi, a);
      assert forall k | 0 <= k < |mi| :: Find(mi, mc, mi[k], nq) == mc[k] by {
        forall k | 0 <= k < |mi| ensures Find(mi, mc, mi[k], nq) == mc[k] {
          FindDistinct(mi, mc, k, nq);
        }
      }
      (mi, mc[p := AddRows(mc[p], c)])
    else
      assert forall k | 0 <= k < |mi| :: Find(mi, mc, mi[k], nq) == mc[k] by {
        forall k | 0 <= k < |mi| ensures Find(mi, mc, mi[k], nq) == mc[k] {
          FindDistinct(mi, mc, k, nq);
        }
      }
      (mi + [a], mc + [c])
  }

  /** The merged expansion: distinct multi-indices, exactly those of the input, each
      carrying the sum of the input rows with that multi-index. */
  function Merge(indices: seq<MultiIndex>, coefs: seq<Row>, nq: nat): (r: (seq<MultiIndex>, seq<Row>))
    requires |indices| == |coefs| && RowsOfWidth(coefs, nq)
    ensures |r.0| == |r.1| && RowsOfWidth(r.1, nq)
    ensures Distinct(r.0)
    ensures forall b :: b in r.0 <==> b in indices
    ensures forall k | 0 <= k < |r.0| :: r.1[k] == CoefSum(indices, coefs, r.0[k], nq)
    decreases |indices|
  {
    if |indices| == 0 then ([], [])
    else
      var n := |indices| - 1;
      var prev := Merge(indices[..n], coefs[..n], nq);
      var a := indices[n];
      assert forall b :: b in indices <==> b in indices[..n] || b == a by {
        SplitLast(indices);
      }
      assert Find(prev.0, prev.1, a, nq) == CoefSum(indices[..n], coefs[..n], a, nq) by {
        if a !in prev.0 {
          CoefSumAbsent(indices[..n], coefs[..n], a, nq);
        }
      }
      Insert(prev.0, prev.1, a, coefs[n], nq)
  }

  /** A multi-index that does not occur has a zero coefficient sum. */
  lemma {:induction false} CoefSumAbsent(indices: seq<MultiIndex>, coefs: seq<Row>, a: MultiIndex, nq: nat)
    requires |indices| == |coefs| && RowsOfWidth(coefs, nq)
    requires a !in indices
    ensures CoefSum(indices, coefs, a, nq) == Zeros(nq)
    decreases |indices|
  {
    if |indices| > 0 {
      var n := |indices| - 1;
      assert a !in indices[..n];
      CoefSumAbsent(indices[..n], coefs[..n], a, nq);
    }
  }

  /** The coefficient sum over two concatenated term lists adds the sums over each. */
  lemma {:induction false} CoefSumAppend(i1: seq<MultiIndex>, c1: seq<Row>, i2: seq<MultiIndex>, c2: seq<Row>,
                                          a: MultiIndex, nq: nat)
    requires |i1| == |c1| && RowsOfWidth(c1, nq) && |i2| == |c2| && RowsOfWidth(c2, nq)
    ensures RowsOfWidth(c1 + c2, nq)
    ensures CoefSum(i1 + i2, c1 + c2, a, nq) == AddRows(CoefSum(i1, c1, a, nq), CoefSum(i2, c2, a, nq))
    decreases |i2|
  {
    assert RowsOfWidth(c1 + c2, nq);
    if |i2| == 0 {
      assert i1 + i2 == i1 && c1 + c2 == c1;
    } else {
      var n := |i2| - 1;
      assert (i1 + i2)[..|i1| + n] == i1 + i2[..n];
      assert (c1 + c2)[..|c1| + n] == c1 + c2[..n];
      CoefSumAppend(i1, c1, i2[..n], c2[..n], a, nq);
    }
  }

  /** Negating every row negates every coefficient sum. */
  lemma {:induction false} CoefSumNeg(indices: seq<MultiIndex>, coefs: seq<Row>, a: MultiIndex, nq: nat)
    requires |indices| == |coefs| && RowsOfWidth(coefs, nq)
    ensures RowsOfWidth(NegRows(coefs), nq)
    ensures CoefSum(indices, NegRows(coefs), a, nq) == NegRow(CoefSum(indices, coefs, a, nq))
    decreases |indices|
  {
    if |indices| > 0 {
      var n := |indices| - 1;
      assert NegRows(coefs)[..n] == NegRows(coefs[..n]);
      CoefSumNeg(indices[..n], coefs[..n], a, nq);
    }
  }

  /** With distinct multi-indices the coefficient sum of a term's multi-index is its own row. */
  lemma {:induction false} CoefSumDistinct(indices: seq<MultiIndex>, coefs: seq<Row>, k: nat, nq: nat)
    requires |indices| == |coefs| && RowsOfWidth(coefs, nq) && Distinct(indices) && k < |indices|
    ensures CoefSum(indices, coefs, indices[k], nq) == coefs[k]
    decreases |indices|
  {
    var n := |indices| - 1;
    if k == n {
      assert indices[k] !in indices[..n];
      CoefSumAbsent(indices[..n], coefs[..n], indices[k], nq);
      AddZerosLeft(coefs[n]);
    } else {
      CoefSumDistinct(indices[..n], coefs[..n], k, nq);
    }
  }

  /** Merging terms whose multi-indices are already distinct changes nothing. */
  lemma {:induction false} MergeDistinctIsIdentity(indices: seq<MultiIndex>, coefs: seq<Row>, nq: nat)
    requires |indices| == |coefs| && RowsOfWidth(coefs, nq) && Distinct(indices)
    ensures Merge(indices, coefs, nq) == (indices, coefs)
    decreases |indices|
  {
    if |indices| > 0 {
      var n := |indices| - 1;
      var front, rows := indices[..n], coefs[..n];
      MergeDistinctIsIdentity(front, rows, nq);
      assert Merge(indices, coefs, nq) == Insert(front, rows, indices[n], coefs[n], nq);
      assert indices[n] !in front;
      InsertAbsent(front, rows, indices[n], coefs[n], nq);
      SplitLast(indices);
      SplitLast(coefs);
    }
  }

  lemma InsertAbsent(mi: seq<MultiIndex>, mc: seq<Row>, a: MultiIndex, c: Row, nq: nat)
    requires |mi| == |mc| && RowsOfWidth(mc, nq) && Distinct(mi) && |c| == nq && a !in mi
    ensures Insert(mi, mc, a, c, nq) == (mi + [a], mc + [c])
  {
  }

  /** Looking up any multi-index in the merged expansion gives its coefficient sum. */
  lemma MergeFind(indices: seq<MultiIndex>, coefs: seq<Row>, b: MultiIndex, nq: nat)
    requires |indices| == |coefs| && RowsOfWidth(coefs, nq)
    ensures Find(Merge(indices, coefs, nq).0, Merge(indices, coefs, nq).1, b, nq)
            == CoefSum(indices, coefs, b, nq)
  {
    var r := Merge(indices, coefs, nq);
    if b !in r.0 {
      CoefSumAbsent(indices, coefs, b, nq);
    }
  }

  /* ----- lists of term blocks ----- */

  /** Every block is a term list with one row of width `nq` per multi-index. */
  predicate BlocksOfWidth(bs: seq<(seq<MultiIndex>, seq<Row>)>, nq: nat) {
    forall k | 0 <= k < |bs| :: |bs[k].0| == |bs[k].1| && RowsOfWidth(bs[k].1, nq)
  }

  /** The multi-indices of the blocks, block after block. */
  function FlattenIndices(bs: seq<(seq<MultiIndex>, seq<Row>)>): seq<MultiIndex>
    decreases |bs|
  {
    if |bs| == 0 then [] else FlattenIndices(bs[..|bs| - 1]) + bs[|bs| - 1].0
  }

  /** The coefficient rows of the blocks, block after block. */
  function FlattenCoefs(bs: seq<(seq<MultiIndex>, seq<Row>)>, nq: nat): (r: seq<Row>)
    requires BlocksOfWidth(bs, nq)
    ensures |r| == |FlattenIndices(bs)| && RowsOfWidth(r, nq)
    decreases |bs|
  {
    if |bs| == 0 then []
    else
      var prev := FlattenCoefs(bs[..|bs| - 1], nq);
      assert RowsOfWidth(prev + bs[|bs| - 1].1, nq);
      prev + bs[|bs| - 1].1
  }

  /** The coefficient sum of `a` in each block. */
  function BlockSums(bs: seq<(seq<MultiIndex>, seq<Row>)>, a: MultiIndex, nq: nat): (r: seq<Row>)
    requires BlocksOfWidth(bs, nq)
    ensures |r| == |bs| && RowsOfWidth(r, nq)
    ensures forall k | 0 <= k < |bs| :: r[k] == CoefSum(bs[k].0, bs[k].1, a, nq)
  {
    seq(|bs|, k requires 0 <= k < |bs| => CoefSum(bs[k].0, bs[k].1, a, nq))
  }

  /** The coefficient sum over concatenated blocks is the sum of the blocks' sums. */
  lemma {:induction false} FlattenCoefSum(bs: seq<(seq<MultiIndex>, seq<Row>)>, a: MultiIndex, nq: nat)
    requires BlocksOfWidth(bs, nq)
    ensures CoefSum(FlattenIndices(bs), FlattenCoefs(bs, nq), a, nq) == SumRows(BlockSums(bs, a, nq), nq)
    decreases |bs|
  {
    if |bs| > 0 {
      var n := |bs| - 1;
      FlattenCoefSum(bs[..n], a, nq);
      CoefSumAppend(FlattenIndices(bs[..n]), FlattenCoefs(bs[..n], nq), bs[n].0, bs[n].1, a, nq);
      assert BlockSums(bs, a, nq)[..n] == BlockSums(bs[..n], a, nq);
    }
  }

  /** Every multi-index of the concatenation comes from some block. */
  lemma {:induction false} FlattenMember(bs: seq<(seq<MultiIndex>, seq<Row>)>, x: MultiIndex)
    requires x in FlattenIndices(bs)
    ensures exists k :: 0 <= k < |bs| && x in bs[k].0
    decreases |bs|
  {
    var n := |bs| - 1;
    if x !in bs[n].0 {
      FlattenMember(bs[..n], x);
      var k :| 0 <= k < n && x in bs[..n][k].0;
      assert x in bs[k].0;
    }
  }
}
