/** Products of two univariate orthonormal basis polynomials re-expressed in the same
    basis by discrete projection onto a Gauss rule
    (`compute_univariate_orthonormal_basis_products`), and the flat position of the
    product of degrees (d1, d2) in the list it returns. */
module UnivariateProducts {
  import opened PceTypes
  import opened Recurrence
  import opened Providers

  /** The pairs (d1, d2) of row d1: d2 = 0, ..., min(d1, lo). */
  function RowPairs(d1: nat, lo: nat): (r: seq<(nat, nat)>)
    ensures |r| == Min(d1, lo) + 1
    ensures forall b | 0 <= b < |r| :: r[b] == (d1, b)
  {
    seq(Min(d1, lo) + 1, b requires 0 <= b <= Min(d1, lo) => (d1, b))
  }

  /** The pairs of rows d1 = 0, ..., n - 1, row after row. */
  function PairsUpTo(n: nat, lo: nat): seq<(nat, nat)> {
    if n == 0 then [] else PairsUpTo(n - 1, lo) + RowPairs(n - 1, lo)
  }

  /** The (d1, d2) degree pairs in the order the univariate products are listed:
      d1 = 0, ..., md1 and, for each, d2 = 0, ..., min(d1, md2). */
  function Pairs(md1: nat, md2: nat): seq<(nat, nat)> {
    PairsUpTo(md1 + 1, md2)
  }

  /** Number of pairs in rows 0, ..., n - 1: the sum of min(d1 + 1, lo + 1) over d1 < n. */
  function Offset(n: nat, lo: nat): nat {
    if n == 0 then 0 else Offset(n - 1, lo) + Min(n - 1, lo) + 1
  }

  /** Flat position of the product of degrees (a, b), a >= b, in the list of univariate
      products computed with second maximum degree `lo`. */
  function FlatLowerTriangularIndex(a: nat, b: nat, lo: nat): nat {
    Offset(a, lo) + b
  }

  lemma {:induction false} PairsCount(n: nat, lo: nat)
    ensures |PairsUpTo(n, lo)| == Offset(n, lo)
  {
    if n > 0 {
      PairsCount(n - 1, lo);
    }
  }

  lemma {:induction false} OffsetMonotone(a: nat, n: nat, lo: nat)
    requires a <= n
    ensures Offset(a, lo) <= Offset(n, lo)
    decreases n
  {
    if a < n {
      OffsetMonotone(a, n - 1, lo);
    }
  }

  /** The product of degrees (a, b) sits at its flat lower-triangular index. */
  lemma {:induction false} PairsPosition(n: nat, lo: nat, a: nat, b: nat)
    requires a < n && b <= Min(a, lo)
    ensures FlatLowerTriangularIndex(a, b, lo) < |PairsUpTo(n, lo)|
    ensures PairsUpTo(n, lo)[FlatLowerTriangularIndex(a, b, lo)] == (a, b)
    decreases n
  {
    PairsCount(n - 1, lo);
    PairsCount(n, lo);
    if a < n - 1 {
      PairsPosition(n - 1, lo, a, b);
    }
  }

  /** Conversely every listed pair is a lower-triangular pair at its flat index, so
      the flat index is a bijection between those pairs and list positions. */
  lemma {:induction false} PairsEntries(n: nat, lo: nat, k: nat)
    requires k < |PairsUpTo(n, lo)|
    ensures PairsUpTo(n, lo)[k].0 < n
    ensures PairsUpTo(n, lo)[k].1 <= Min(PairsUpTo(n, lo)[k].0, lo)
    ensures FlatLowerTriangularIndex(PairsUpTo(n, lo)[k].0, PairsUpTo(n, lo)[k].1, lo) == k
    decreases n
  {
    PairsCount(n - 1, lo);
    if k < |PairsUpTo(n - 1, lo)| {
      PairsEntries(n - 1, lo, k);
    }
  }

  /** Discrete projection of p_d1 * p_d2 onto p_m with the quadrature rule `rule`:
      the sum over the (node, weight) pairs of weight * p_d1 * p_d2 * p_m at the node. */
  function Projection(nm: Numerics, t: Table, rule: seq<(real, real)>, d1: nat, d2: nat, m: nat): real
    decreases |rule|
  {
    if |rule| == 0 then 0.0
    else
      var x := rule[0].0;
      var w := rule[0].1;
      w * (nm.value(t, d1, x) * nm.value(t, d2, x)) * nm.value(t, m, x)
      + Projection(nm, t, rule[1..], d1, d2, m)
  }

  /** The projection of a product does not depend on the order of its factors. */
  lemma {:induction false} ProjectionSymmetric(nm: Numerics, t: Table, rule: seq<(real, real)>,
                                               d1: nat, d2: nat, m: nat)
    ensures Projection(nm, t, rule, d1, d2, m) == Projection(nm, t, rule, d2, d1, m)
    decreases |rule|
  {
    if |rule| > 0 {
      ProjectionSymmetric(nm, t, rule[1..], d1, d2, m);
    }
  }

  /** `prods` has one coefficient vector per degree pair of `Pairs(hi, lo)`, with
      d1 + d2 + 1 entries for the pair (d1, d2). */
  predicate ProductsShaped(prods: seq<Row>, hi: nat, lo: nat) {
    && |prods| == |Pairs(hi, lo)|
    && forall k | 0 <= k < |prods| :: |prods[k]| == Pairs(hi, lo)[k].0 + Pairs(hi, lo)[k].1 + 1
  }

  /** The expansions of p_d1 * p_d2 for the degree pairs of `Pairs(md1, md2)`, computed
      with the (md1 + md2 + 1)-point Gauss rule of table `t`; raises unless md1 >= md2. */
  function UnivariateProducts(nm: Numerics, t: Table, md1: nat, md2: nat): (r: Result<seq<Row>>)
    ensures r.Success? <==> md1 >= md2
    ensures r.Success? ==> ProductsShaped(r.value, md1, md2)
    ensures r.Success? ==> |r.value| == Offset(md1 + 1, md2)
    ensures r.Success? ==>
              forall k, m | 0 <= k < |r.value| && 0 <= m < |r.value[k]| ::
                r.value[k][m] == Projection(nm, t, nm.quad(t, md1 + md2 + 1), Pairs(md1, md2)[k].0,
                                            Pairs(md1, md2)[k].1, m)
  {
    if md1 < md2 then Failure(InvalidArgument)
    else
      var rule := nm.quad(t, md1 + md2 + 1);
      var pairs := Pairs(md1, md2);
      PairsCount(md1 + 1, md2);
      Success(seq(|pairs|, k requires 0 <= k < |pairs| =>
        seq(pairs[k].0 + pairs[k].1 + 1, m requires 0 <= m < pairs[k].0 + pairs[k].1 + 1 =>
          Projection(nm, t, rule, pairs[k].0, pairs[k].1, m))))
  }

  /** The product of degrees (a, b), a >= b, is found at its flat index and has
      a + b + 1 coefficients. */
  lemma ProductLookup(prods: seq<Row>, hi: nat, lo: nat, a: nat, b: nat)
    requires ProductsShaped(prods, hi, lo)
    requires a <= hi && b <= Min(a, lo)
    ensures FlatLowerTriangularIndex(a, b, lo) < |prods|
    ensures |prods[FlatLowerTriangularIndex(a, b, lo)]| == a + b + 1
  {
    PairsPosition(hi + 1, lo, a, b);
  }
}
