/** The product of two multivariate orthonormal basis polynomials re-expressed in the
    basis (`compute_multivariate_orthonormal_basis_product`): a tensor product, over
    the variables where either factor has positive degree, of the univariate product
    expansions, with negligible coefficients dropped. */
module BasisProduct {
  import opened PceTypes
  import opened UnivariateProducts

  /** Twice the double-precision machine epsilon, 2^-51: coefficients of at most this
      magnitude are dropped. */
  const ProductTolerance: real := 1.0 / 2251799813685248.0

  function Abs(x: real): real {
    if x < 0.0 then -x else x
  }

  /** One entry of the tensor product: a multi-index with its coefficient. */
  datatype Term = Term(index: MultiIndex, coef: real)

  function Keys(s: seq<Term>): (r: seq<MultiIndex>)
    ensures |r| == |s| && forall i | 0 <= i < |s| :: r[i] == s[i].index
  {
    seq(|s|, i requires 0 <= i < |s| => s[i].index)
  }

  function Vals(s: seq<Term>): (r: seq<real>)
    ensures |r| == |s| && forall i | 0 <= i < |s| :: r[i] == s[i].coef
  {
    seq(|s|, i requires 0 <= i < |s| => s[i].coef)
  }

  predicate DistinctKeys(s: seq<Term>) {
    forall i, j | 0 <= i < j < |s| :: s[i].index != s[j].index
  }

  /* ----- tensor products of coefficient vectors ----- */

  /** `t` picks one entry of every factor vector. */
  predicate InGrid(t: MultiIndex, factors: seq<seq<real>>) {
    |t| == |factors| && forall k | 0 <= k < |t| :: t[k] < |factors[k]|
  }

  /** The product of the entries `t` picks. */
  function CoefOf(factors: seq<seq<real>>, t: MultiIndex): real
    requires InGrid(t, factors)
  {
    Prod(seq(|t|, k requires 0 <= k < |t| => factors[k][t[k]]))
  }

  lemma CoefOfExtend(factors: seq<seq<real>>, t: MultiIndex)
    requires |factors| > 0 && InGrid(t, factors)
    ensures InGrid(t[..|t| - 1], factors[..|factors| - 1])
    ensures CoefOf(factors, t)
            == CoefOf(factors[..|factors| - 1], t[..|t| - 1]) * factors[|factors| - 1][t[|t| - 1]]
  {
    var n := |t| - 1;
    var s := seq(|t|, k requires 0 <= k < |t| => factors[k][t[k]]);
    assert s[..n] == seq(n, k requires 0 <= k < n => factors[..n][k][t[..n][k]]);
  }

  /** Entry `p` extended by every entry of the vector `g`. */
  function Block(p: Term, g: seq<real>): (r: seq<Term>)
    ensures |r| == |g|
    ensures forall v | 0 <= v < |g| :: r[v] == Term(p.index + [v], p.coef * g[v])
  {
    seq(|g|, v requires 0 <= v < |g| => Term(p.index + [v], p.coef * g[v]))
  }

  /** Every entry of `prev` extended by every entry of `g`, entry after entry. */
  function Extend(prev: seq<Term>, g: seq<real>): seq<Term>
    decreases |prev|
  {
    if |prev| == 0 then [] else Extend(prev[..|prev| - 1], g) + Block(prev[|prev| - 1], g)
  }

  /** The tensor product of the coefficient vectors: every multi-index of the grid
      with the product of the entries it picks. */
  function Expand(factors: seq<seq<real>>): seq<Term>
    decreases |factors|
  {
    if |factors| == 0 then [Term([], 1.0)]
    else Extend(Expand(factors[..|factors| - 1]), factors[|factors| - 1])
  }

  /** Tensor-product entries carry the coefficient of their multi-index. */
  predicate Sound(s: seq<Term>, factors: seq<seq<real>>) {
    forall i | 0 <= i < |s| :: InGrid(s[i].index, factors) && s[i].coef == CoefOf(factors, s[i].index)
  }

  lemma BlockSound(factors: seq<seq<real>>, p: Term)
    requires |factors| > 0
    requires InGrid(p.index, factors[..|factors| - 1]) && p.coef == CoefOf(factors[..|factors| - 1], p.index)
    ensures Sound(Block(p, factors[|factors| - 1]), factors)
  {
    var n := |factors| - 1;
    var b := Block(p, factors[n]);
    forall v | 0 <= v < |b| ensures InGrid(b[v].index, factors) && b[v].coef == CoefOf(factors, b[v].index) {
      assert b[v].index[..n] == p.index;
      CoefOfExtend(factors, b[v].index);
    }
  }

  lemma SoundAppend(a: seq<Term>, b: seq<Term>, factors: seq<seq<real>>)
    requires Sound(a, factors) && Sound(b, factors)
    ensures Sound(a + b, factors)
  {
    forall i | 0 <= i < |a + b|
      ensures InGrid((a + b)[i].index, factors) && (a + b)[i].coef == CoefOf(factors, (a + b)[i].index)
    {
      if i >= |a| {
        assert (a + b)[i] == b[i - |a|];
      }
    }
  }

  lemma {:induction false} ExtendSound(factors: seq<seq<real>>, prev: seq<Term>)
    requires |factors| > 0 && Sound(prev, factors[..|factors| - 1])
    ensures Sound(Extend(prev, factors[|factors| - 1]), factors)
    decreases |prev|
  {
    if |prev| > 0 {
      var m := |prev| - 1;
      assert Sound(prev[..m], factors[..|factors| - 1]);
      ExtendSound(factors, prev[..m]);
      BlockSound(factors, prev[m]);
      SoundAppend(Extend(prev[..m], factors[|factors| - 1]), Block(prev[m], factors[|factors| - 1]), factors);
    }
  }

  /** Every entry of `Extend(prev, g)` has one more degree than the entry of `prev` it extends. */
  predicate Prefixed(s: seq<Term>, prev: seq<Term>, n: nat) {
    forall i | 0 <= i < |s| :: |s[i].index| == n + 1 && s[i].index[..n] in Keys(prev)
  }

  lemma {:induction false} ExtendPrefix(prev: seq<Term>, g: seq<real>, n: nat)
    requires forall i | 0 <= i < |prev| :: |prev[i].index| == n
    ensures Prefixed(Extend(prev, g), prev, n)
    decreases |prev|
  {
    if |prev| > 0 {
      var m := |prev| - 1;
      var p := prev[m];
      ExtendPrefix(prev[..m], g, n);
      var left := Extend(prev[..m], g);
      var block := Block(p, g);
      var r := left + block;
      forall i | 0 <= i < |r| ensures |r[i].index| == n + 1 && r[i].index[..n] in Keys(prev) {
        if i < |left| {
          assert r[i] == left[i];
          var k :| 0 <= k < m && Keys(prev[..m])[k] == r[i].index[..n];
          assert Keys(prev)[k] == r[i].index[..n];
        } else {
          assert r[i] == block[i - |left|];
          assert r[i].index[..n] == p.index == Keys(prev)[m];
        }
      }
    }
  }

  lemma {:induction false} ExtendComplete(prev: seq<Term>, g: seq<real>, k: nat, v: nat)
    requires k < |prev| && v < |g|
    ensures Term(prev[k].index + [v], prev[k].coef * g[v]) in Extend(prev, g)
    decreases |prev|
  {
    var m := |prev| - 1;
    var left := Extend(prev[..m], g);
    assert Extend(prev, g) == left + Block(prev[m], g);
    var x := Term(prev[k].index + [v], prev[k].coef * g[v]);
    if k == m {
      var b := Block(prev[m], g);
      assert b[v] == x;
      assert x in b;
      InAppend(left, Block(prev[m], g), x);
    } else {
      var front := prev[..m];
      ExtendComplete(front, g, k, v);
      assert Term(front[k].index + [v], front[k].coef * g[v]) in left;
      assert front[k] == prev[k];
      var y := Term(front[k].index + [v], front[k].coef * g[v]);
      assert y.index == x.index;
      assert y.coef == x.coef;
      assert y == x;
      assert x in left;
      InAppend(left, Block(prev[m], g), x);
    }
  }

  lemma InAppend<T>(a: seq<T>, b: seq<T>, x: T)
    requires x in a || x in b
    ensures x in a + b
  {
    if x in a {
      var j :| 0 <= j < |a| && a[j] == x;
      assert (a + b)[j] == x;
    } else {
      var j :| 0 <= j < |b| && b[j] == x;
      assert (a + b)[|a| + j] == x;
    }
  }

  lemma BlockDistinct(p: Term, g: seq<real>, n: nat)
    requires |p.index| == n
    ensures DistinctKeys(Block(p, g))
  {
    var b := Block(p, g);
    forall i, j | 0 <= i < j < |b| ensures b[i].index != b[j].index {
      assert b[i].index[n] == i && b[j].index[n] == j;
    }
  }

  lemma {:induction false} ExtendDistinct(prev: seq<Term>, g: seq<real>, n: nat)
    requires forall i | 0 <= i < |prev| :: |prev[i].index| == n
    requires DistinctKeys(prev)
    ensures DistinctKeys(Extend(prev, g))
    decreases |prev|
  {
    if |prev| > 0 {
      var m := |prev| - 1;
      var p := prev[m];
      ExtendDistinct(prev[..m], g, n);
      ExtendPrefix(prev[..m], g, n);
      BlockDistinct(p, g, n);
      var left := Extend(prev[..m], g);
      var block := Block(p, g);
      assert p.index !in Keys(prev[..m]);
      var r := left + block;
      forall i, j | 0 <= i < j < |r| ensures r[i].index != r[j].index {
        if i < |left| && j >= |left| {
          assert r[i] == left[i] && r[j] == block[j - |left|];
          assert r[j].index[..n] == p.index;
        } else if i >= |left| {
          assert r[i] == block[i - |left|] && r[j] == block[j - |left|];
        }
      }
    }
  }

  lemma {:induction false} ExpandLength(factors: seq<seq<real>>)
    ensures forall i | 0 <= i < |Expand(factors)| :: |Expand(factors)[i].index| == |factors|
    decreases |factors|
  {
    if |factors| > 0 {
      var n := |factors| - 1;
      ExpandLength(factors[..n]);
      ExtendPrefix(Expand(factors[..n]), factors[n], n);
    }
  }

  lemma {:induction false} ExpandSound(factors: seq<seq<real>>)
    ensures Sound(Expand(factors), factors)
    decreases |factors|
  {
    if |factors| == 0 {
      assert CoefOf(factors, []) == 1.0;
    } else {
      var n := |factors| - 1;
      ExpandSound(factors[..n]);
      ExtendSound(factors, Expand(factors[..n]));
    }
  }

  lemma {:induction false} ExpandDistinct(factors: seq<seq<real>>)
    ensures DistinctKeys(Expand(factors))
    decreases |factors|
  {
    if |factors| > 0 {
      var n := |factors| - 1;
      ExpandDistinct(factors[..n]);
      ExpandLength(factors[..n]);
      ExtendDistinct(Expand(factors[..n]), factors[n], n);
    }
  }

  lemma {:induction false} ExpandComplete(factors: seq<seq<real>>)
    ensures forall t | InGrid(t, factors) :: Term(t, CoefOf(factors, t)) in Expand(factors)
    decreases |factors|
  {
    if |factors| == 0 {
      assert CoefOf(factors, []) == 1.0;
    } else {
      var n := |factors| - 1;
      var prev := Expand(factors[..n]);
      ExpandComplete(factors[..n]);
      var next := Extend(prev, factors[n]);
      assert Expand(factors) == next;
      forall t | InGrid(t, factors) ensures Term(t, CoefOf(factors, t)) in next {
        ExtendCompleteAt(factors, factors[..n], prev, t);
      }
    }
  }

  /** A grid point is found in the extension of a complete expansion of the
      leading factors. */
  lemma ExtendCompleteAt(factors: seq<seq<real>>, front: seq<seq<real>>, prev: seq<Term>, t: MultiIndex)
    requires |factors| > 0 && InGrid(t, factors) && front == factors[..|factors| - 1]
    requires forall u | InGrid(u, front) :: Term(u, CoefOf(front, u)) in prev
    ensures Term(t, CoefOf(factors, t)) in Extend(prev, factors[|factors| - 1])
  {
    var n := |factors| - 1;
    CoefOfExtend(factors, t);
    var p := Term(t[..n], CoefOf(factors[..n], t[..n]));
    assert p in prev;
    var k :| 0 <= k < |prev| && prev[k] == p;
    var g := factors[n];
    var v := t[n];
    ExtendComplete(prev, g, k, v);
    var x := Term(prev[k].index + [v], prev[k].coef * g[v]);
    assert x in Extend(prev, g);
    assert CoefOf(factors, t) == CoefOf(factors[..n], t[..n]) * g[v];
    assert t == prev[k].index + [v];
    assert x == Term(t, CoefOf(factors, t));
  }

  /** Every multi-index of the grid appears, with its coefficient, exactly once. */
  lemma ExpandCorrect(factors: seq<seq<real>>)
    ensures Sound(Expand(factors), factors)
    ensures forall t | InGrid(t, factors) :: Term(t, CoefOf(factors, t)) in Expand(factors)
    ensures DistinctKeys(Expand(factors))
  {
    ExpandSound(factors);
    ExpandComplete(factors);
    ExpandDistinct(factors);
  }

  /** The entries whose coefficient exceeds `tol` in magnitude, in their order. */
  function Filter(s: seq<Term>, tol: real): (r: seq<Term>)
    ensures forall e | e in r :: e in s && Abs(e.coef) > tol
    ensures forall e | e in s && Abs(e.coef) > tol :: e in r
    decreases |s|
  {
    if |s| == 0 then []
    else
      var n := |s| - 1;
      var left := Filter(s[..n], tol);
      assert forall e | e in s :: e in s[..n] || e == s[n] by {
        SplitLast(s);
      }
      if Abs(s[n].coef) > tol then left + [s[n]] else left
  }

  /** Filtering keeps the multi-indices distinct. */
  lemma {:induction false} FilterDistinct(s: seq<Term>, tol: real)
    requires DistinctKeys(s)
    ensures DistinctKeys(Filter(s, tol))
    decreases |s|
  {
    if |s| > 0 {
      var n := |s| - 1;
      var left := Filter(s[..n], tol);
      FilterDistinct(s[..n], tol);
      if Abs(s[n].coef) > tol {
        OthersDiffer(s, left);
        AppendDistinct(left, s[n]);
        assert Filter(s, tol) == left + [s[n]];
      }
    }
  }

  /** Entries drawn from the front of a sequence with distinct multi-indices differ
      from its last entry. */
  lemma OthersDiffer(s: seq<Term>, left: seq<Term>)
    requires |s| > 0 && DistinctKeys(s)
    requires forall e | e in left :: e in s[..|s| - 1]
    ensures forall i | 0 <= i < |left| :: left[i].index != s[|s| - 1].index
  {
    var n := |s| - 1;
    forall i | 0 <= i < |left| ensures left[i].index != s[n].index {
      assert left[i] in left;
      assert left[i] in s[..n];
      var k :| 0 <= k < n && s[..n][k] == left[i];
      assert s[k] == left[i];
    }
  }

  lemma AppendDistinct(s: seq<Term>, e: Term)
    requires DistinctKeys(s) && forall i | 0 <= i < |s| :: s[i].index != e.index
    ensures DistinctKeys(s + [e])
  {
  }

  /** The kept entries of the tensor product, as multi-indices and coefficients. */
  lemma KeptTerms(factors: seq<seq<real>>, tol: real)
    ensures Distinct(Keys(Filter(Expand(factors), tol)))
    ensures forall k | 0 <= k < |Filter(Expand(factors), tol)| ::
              && InGrid(Keys(Filter(Expand(factors), tol))[k], factors)
              && Vals(Filter(Expand(factors), tol))[k] == CoefOf(factors, Keys(Filter(Expand(factors), tol))[k])
              && Abs(Vals(Filter(Expand(factors), tol))[k]) > tol
    ensures forall t | InGrid(t, factors) && Abs(CoefOf(factors, t)) > tol ::
              t in Keys(Filter(Expand(factors), tol))
  {
    ExpandCorrect(factors);
    FilterDistinct(Expand(factors), tol);
    KeptSound(factors, Expand(factors), tol);
    KeptComplete(factors, Expand(factors), tol);
  }

  lemma KeptSound(factors: seq<seq<real>>, all: seq<Term>, tol: real)
    requires Sound(all, factors)
    ensures forall k | 0 <= k < |Filter(all, tol)| ::
              && InGrid(Filter(all, tol)[k].index, factors)
              && Filter(all, tol)[k].coef == CoefOf(factors, Filter(all, tol)[k].index)
              && Abs(Filter(all, tol)[k].coef) > tol
  {
    var kept := Filter(all, tol);
    forall k | 0 <= k < |kept|
      ensures && InGrid(kept[k].index, factors) && kept[k].coef == CoefOf(factors, kept[k].index)
              && Abs(kept[k].coef) > tol
    {
      assert kept[k] in kept;
      var i :| 0 <= i < |all| && all[i] == kept[k];
    }
  }

  lemma KeptComplete(factors: seq<seq<real>>, all: seq<Term>, tol: real)
    requires forall t | InGrid(t, factors) :: Term(t, CoefOf(factors, t)) in all
    ensures forall t | InGrid(t, factors) && Abs(CoefOf(factors, t)) > tol :: t in Keys(Filter(all, tol))
  {
    var kept := Filter(all, tol);
    forall t | InGrid(t, factors) && Abs(CoefOf(factors, t)) > tol ensures t in Keys(kept) {
      var e := Term(t, CoefOf(factors, t));
      assert e in kept;
      var k :| 0 <= k < |kept| && kept[k] == e;
      assert Keys(kept)[k] == t;
    }
  }

  /* ----- the multivariate basis product ----- */

  /** The univariate product expansions `cache[dd]` were computed for maximum degrees
      (hi[dd], lo[dd]) of the two operands, and the degrees of `ii` and `jj` are within
      them: the larger of the two within hi[dd], the smaller within lo[dd]. */
  predicate Fits(cache: seq<seq<Row>>, hi: seq<nat>, lo: seq<nat>, ii: MultiIndex, jj: MultiIndex) {
    && |cache| == |hi| == |lo| == |ii| == |jj|
    && forall dd | 0 <= dd < |ii| ::
         && ProductsShaped(cache[dd], hi[dd], lo[dd])
         && Max(ii[dd], jj[dd]) <= hi[dd] && Min(ii[dd], jj[dd]) <= lo[dd]
  }

  /** The univariate expansion of p_ii[dd] * p_jj[dd], looked up with the larger degree
      first; a variable where both degrees are 0 contributes the constant 1. */
  function Factor(cache: seq<seq<Row>>, hi: seq<nat>, lo: seq<nat>, ii: MultiIndex, jj: MultiIndex, dd: nat)
    : (r: seq<real>)
    requires Fits(cache, hi, lo, ii, jj) && dd < |ii|
    ensures |r| == ii[dd] + jj[dd] + 1
  {
    if ii[dd] + jj[dd] == 0 then [1.0]
    else
      var a := Max(ii[dd], jj[dd]);
      var b := Min(ii[dd], jj[dd]);
      ProductLookup(cache[dd], hi[dd], lo[dd], a, b);
      cache[dd][FlatLowerTriangularIndex(a, b, lo[dd])]
  }

  function Factors(cache: seq<seq<Row>>, hi: seq<nat>, lo: seq<nat>, ii: MultiIndex, jj: MultiIndex)
    : (r: seq<seq<real>>)
    requires Fits(cache, hi, lo, ii, jj)
    ensures |r| == |ii|
    ensures forall dd | 0 <= dd < |ii| :: r[dd] == Factor(cache, hi, lo, ii, jj, dd)
  {
    seq(|ii|, dd requires 0 <= dd < |ii| => Factor(cache, hi, lo, ii, jj, dd))
  }

  /** `t` has, in every variable, a degree at most the sum of the two operands' degrees. */
  predicate InBox(t: MultiIndex, ii: MultiIndex, jj: MultiIndex)
    requires |ii| == |jj|
  {
    |t| == |ii| && forall dd | 0 <= dd < |t| :: t[dd] <= ii[dd] + jj[dd]
  }

  /** The coefficient of basis term `t` in the product: the product over the variables
      of the univariate product coefficients at the degrees of `t`. */
  function ProductCoef(cache: seq<seq<Row>>, hi: seq<nat>, lo: seq<nat>, ii: MultiIndex, jj: MultiIndex,
                       t: MultiIndex): real
    requires Fits(cache, hi, lo, ii, jj) && InBox(t, ii, jj)
  {
    CoefOf(Factors(cache, hi, lo, ii, jj), t)
  }

  predicate AllZero(ii: MultiIndex, jj: MultiIndex)
    requires |ii| == |jj|
  {
    forall dd | 0 <= dd < |ii| :: ii[dd] + jj[dd] == 0
  }

  /** The expansion of the product of the basis polynomials with multi-indices `ii`
      and `jj`: the multi-indices and their (scalar) coefficients. */
  function BasisProduct(cache: seq<seq<Row>>, hi: seq<nat>, lo: seq<nat>, ii: MultiIndex, jj: MultiIndex,
                        tol: real): (r: (seq<MultiIndex>, seq<real>))
    requires Fits(cache, hi, lo, ii, jj)
    ensures |r.0| == |r.1| && Shaped(r.0, |ii|) && Distinct(r.0)
    ensures AllZero(ii, jj) ==> r == ([ZeroIndex(|ii|)], [1.0])
    ensures forall k | 0 <= k < |r.0| :: InBox(r.0[k], ii, jj)
    ensures forall k | 0 <= k < |r.0| :: r.1[k] == ProductCoef(cache, hi, lo, ii, jj, r.0[k])
    ensures !AllZero(ii, jj) ==> forall k | 0 <= k < |r.1| :: Abs(r.1[k]) > tol
    ensures !AllZero(ii, jj) ==>
              forall t | InBox(t, ii, jj) && Abs(ProductCoef(cache, hi, lo, ii, jj, t)) > tol :: t in r.0
  {
    var factors := Factors(cache, hi, lo, ii, jj);
    assert forall t :: InBox(t, ii, jj) <==> InGrid(t, factors);
    if AllZero(ii, jj) then
      ProdOnes(|ii|);
      var z := ZeroIndex(|ii|);
      assert forall k | 0 <= k < |ii| :: factors[k] == [1.0] && factors[k][z[k]] == 1.0;
      assert seq(|z|, k requires 0 <= k < |z| => factors[k][z[k]]) == seq(|ii|, _ => 1.0);
      ([ZeroIndex(|ii|)], [1.0])
    else
      KeptTerms(factors, tol);
      var kept := Filter(Expand(factors), tol);
      (Keys(kept), Vals(kept))
  }

  /** The product is symmetric in its two operands: the lookup always puts the larger
      degree first. */
  lemma BasisProductSymmetric(cache: seq<seq<Row>>, hi: seq<nat>, lo: seq<nat>, ii: MultiIndex,
                              jj: MultiIndex, tol: real)
    requires Fits(cache, hi, lo, ii, jj)
    ensures Fits(cache, hi, lo, jj, ii)
    ensures BasisProduct(cache, hi, lo, ii, jj, tol) == BasisProduct(cache, hi, lo, jj, ii, tol)
  {
    assert Factors(cache, hi, lo, ii, jj) == Factors(cache, hi, lo, jj, ii);
  }
}
