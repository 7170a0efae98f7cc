/** The arithmetic of expansions: `__mul__`, `__add__`, `__sub__` and `__pow__`.
    Multiplication first computes, per variable, the univariate product tables
    (`compute_product_coeffs_1d_for_each_variable`) on a copy of the operand with
    more terms, then multiplies the two term lists and stores the product on a copy
    of the left operand. Addition and subtraction merge the two term lists and store
    them on a blank expansion of the same variables, which the caller supplies. */
module Operators {
  import opened PceTypes
  import opened Recurrence
  import opened Providers
  import opened UnivariateProducts
  import opened BasisProduct
  import opened Merge
  import opened Multiply
  import opened Expansion

  /** An expansion that has multi-indices and coefficients, as the operators need. */
  predicate Ready(p: Pce) {
    p.indices.Some? && p.coefs.Some?
  }

  /** The tables regenerated so that every variable's family has `n` recursion
      coefficients (the loop body of `compute_product_coeffs_1d_for_each_variable`
      asks for the same number for every variable). */
  function Refreshed(p: Pce, n: nat, oe: OrthoError): (r: Result<Pce>)
    requires Valid(p)
    ensures r.Success? ==> Valid(r.value) && r.value.typeMap.Some?
    ensures r.Success? ==> r.value.numVars == p.numVars && r.value.config == p.config
    ensures r.Success? ==> r.value.tolerance == p.tolerance
  {
    var nc := seq(p.numVars, _ => n);
    var u := UpdateRecursionCoefficients(p, nc, p.config.basis, oe);
    if u.Success? then UpdateValid(p, nc, p.config.basis, oe); u else u
  }

  /** One variable's univariate product table, and the expansion with the tables it
      was computed from. */
  function ProductStep(p: Pce, hi: nat, lo: nat, nm: Numerics, oe: OrthoError, dd: nat)
    : (r: Result<(Pce, seq<Row>)>)
    requires Valid(p) && dd < p.numVars
    ensures r.Success? ==> Valid(r.value.0) && r.value.0.numVars == p.numVars && r.value.0.config == p.config
    ensures r.Success? ==> ProductsShaped(r.value.1, hi, lo)
    ensures hi < lo ==> r.Failure?
    ensures r.Success? <==>
              && lo <= hi && Refreshed(p, hi + lo + 1, oe).Success?
              && TableFor(Refreshed(p, hi + lo + 1, oe).value, dd).Success?
    ensures r.Success? ==>
              && Refreshed(p, hi + lo + 1, oe) == Success(r.value.0)
              && ProjectedWith(nm, TableFor(r.value.0, dd).value, r.value.1, hi, lo)
  {
    var p1 :- Refreshed(p, hi + lo + 1, oe);
    var t :- TableFor(p1, dd);
    var prods :- UnivariateProducts.UnivariateProducts(nm, t, hi, lo);
    Success((p1, prods))
  }

  /** `prods` lists, for the degree pairs of `Pairs(hi, lo)`, the coefficients of
      p_d1 * p_d2 projected with the recurrence of table `t` under its
      (hi + lo + 1)-point Gauss rule. */
  predicate ProjectedWith(nm: Numerics, t: Table, prods: seq<Row>, hi: nat, lo: nat) {
    && ProductsShaped(prods, hi, lo)
    && forall k, m | 0 <= k < |prods| && 0 <= m < |prods[k]| ::
         prods[k][m] == Projection(nm, t, nm.quad(t, hi + lo + 1), Pairs(hi, lo)[k].0, Pairs(hi, lo)[k].1, m)
  }

  /** Table k of variables dd, dd+1, ... is projected with recurrence table `t`. */
  predicate ProjectedAt(nm: Numerics, t: Table, tables: seq<seq<Row>>, hi: seq<nat>, lo: seq<nat>, dd: nat, k: nat)
    requires k < |tables| && |hi| == |lo| == dd + |tables|
  {
    ProjectedWith(nm, t, tables[k], hi[dd + k], lo[dd + k])
  }

  /** Table k of variables dd, dd+1, ... is projected with some recurrence table. */
  ghost predicate HasRecurrence(nm: Numerics, tables: seq<seq<Row>>, hi: seq<nat>, lo: seq<nat>, dd: nat, k: nat)
    requires k < |tables| && |hi| == |lo| == dd + |tables|
  {
    exists t :: ProjectedAt(nm, t, tables, hi, lo, dd, k)
  }

  /** Each table of variables dd, dd+1, ... is projected with one recurrence table. */
  ghost predicate TablesProjected(nm: Numerics, tables: seq<seq<Row>>, hi: seq<nat>, lo: seq<nat>, dd: nat)
    requires TablesShaped(tables, hi, lo, dd)
  {
    forall k | 0 <= k < |tables| :: HasRecurrence(nm, tables, hi, lo, dd, k)
  }

  /** The univariate product tables of variables dd, dd+1, ...: for each, the degree
      order is checked, the tables are updated to hold hi[dd] + lo[dd] + 1
      coefficients for every variable, and the products of degrees up to
      (hi[dd], lo[dd]) are projected with that variable's table. The state of the
      copy being updated is threaded from variable to variable. */
  function ProductTables(p: Pce, hi: seq<nat>, lo: seq<nat>, nm: Numerics, oe: OrthoError, dd: nat)
    : (r: Result<seq<seq<Row>>>)
    requires Valid(p) && |hi| == |lo| == p.numVars && dd <= p.numVars
    ensures r.Success? ==> TablesShaped(r.value, hi, lo, dd)
    ensures (exists d | dd <= d < p.numVars :: hi[d] < lo[d]) ==> r.Failure?
    ensures r.Success? ==> TablesProjected(nm, r.value, hi, lo, dd)
    ensures r.Success? && p.config.basis.SingleFamily? ==>
              FamilyTables(p.config.basis.opts, p.tolerance, nm, oe, r.value, hi, lo, dd)
    decreases p.numVars - dd
  {
    if dd == p.numVars then Success([])
    else if hi[dd] < lo[dd] then Failure(InvalidArgument)
    else
      var step :- ProductStep(p, hi[dd], lo[dd], nm, oe, dd);
      var rest :- ProductTables(step.0, hi, lo, nm, oe, dd + 1);
      TablesCons(nm, TableFor(step.0, dd).value, step.1, rest, hi, lo, dd);
      SingleFamilyCons(p, step, rest, hi, lo, nm, oe, dd);
      Success([step.1] + rest)
  }

  /** With a single family, the table of variable dd is projected with the recurrence
      that family generates for hi[dd] + lo[dd] + 1 coefficients, whatever the
      earlier variables requested, and so are the tables after it. */
  lemma SingleFamilyCons(p: Pce, step: (Pce, seq<Row>), rest: seq<seq<Row>>, hi: seq<nat>, lo: seq<nat>,
                         nm: Numerics, oe: OrthoError, dd: nat)
    requires Valid(p) && |hi| == |lo| == p.numVars && dd < p.numVars
    requires ProductStep(p, hi[dd], lo[dd], nm, oe, dd) == Success(step)
    requires step.0.config.basis.SingleFamily? ==>
               FamilyTables(step.0.config.basis.opts, step.0.tolerance, nm, oe, rest, hi, lo, dd + 1)
    ensures p.config.basis.SingleFamily? ==>
              FamilyTables(p.config.basis.opts, p.tolerance, nm, oe, [step.1] + rest, hi, lo, dd)
  {
    if p.config.basis.SingleFamily? {
      var f := p.config.basis.opts;
      StepFromFamily(p, f, hi[dd], lo[dd], nm, oe, dd);
      var s := [step.1] + rest;
      assert s[0] == step.1 && s[1..] == rest;
      FamilyTablesCons(f, p.tolerance, nm, oe, s, hi, lo, dd);
    }
  }

  lemma TablesCons(nm: Numerics, t0: Table, t: seq<Row>, rest: seq<seq<Row>>, hi: seq<nat>, lo: seq<nat>, dd: nat)
    requires dd < |hi| == |lo| && ProjectedWith(nm, t0, t, hi[dd], lo[dd])
    requires TablesShaped(rest, hi, lo, dd + 1) && TablesProjected(nm, rest, hi, lo, dd + 1)
    ensures TablesShaped([t] + rest, hi, lo, dd) && TablesProjected(nm, [t] + rest, hi, lo, dd)
  {
    var s := [t] + rest;
    forall k | 0 <= k < |s| ensures ProductsShaped(s[k], hi[dd + k], lo[dd + k]) {
      if k > 0 {
        assert s[k] == rest[k - 1];
      }
    }
    forall k | 0 <= k < |s| ensures HasRecurrence(nm, s, hi, lo, dd, k) {
      if k > 0 {
        assert HasRecurrence(nm, rest, hi, lo, dd + 1, k - 1);
        var t1 :| ProjectedAt(nm, t1, rest, hi, lo, dd + 1, k - 1);
        assert s[k] == rest[k - 1];
        assert ProjectedAt(nm, t1, s, hi, lo, dd, k);
      } else {
        assert ProjectedAt(nm, t0, s, hi, lo, dd, k);
      }
    }
  }

  /** Table k of variables dd, dd+1, ... is projected with the recurrence family `f`
      obtains for that variable's degrees. */
  predicate FamilyTables(f: FamilyOpts, tol: real, nm: Numerics, oe: OrthoError, tables: seq<seq<Row>>,
                         hi: seq<nat>, lo: seq<nat>, dd: nat) {
    && |hi| == |lo| == dd + |tables|
    && forall k | 0 <= k < |tables| :: FamilyProjected(f, tol, nm, oe, tables[k], hi[dd + k], lo[dd + k])
  }

  lemma FamilyTablesCons(f: FamilyOpts, tol: real, nm: Numerics, oe: OrthoError, s: seq<seq<Row>>,
                         hi: seq<nat>, lo: seq<nat>, dd: nat)
    requires dd < |hi| == |lo| && |s| > 0 && FamilyProjected(f, tol, nm, oe, s[0], hi[dd], lo[dd])
    requires FamilyTables(f, tol, nm, oe, s[1..], hi, lo, dd + 1)
    ensures FamilyTables(f, tol, nm, oe, s, hi, lo, dd)
  {
    forall k | 0 <= k < |s| ensures FamilyProjected(f, tol, nm, oe, s[k], hi[dd + k], lo[dd + k]) {
      if k > 0 {
        assert s[k] == s[1..][k - 1];
      }
    }
  }

  /** `prods` is projected with the table that family `f` obtains for hi + lo + 1
      coefficients under tolerance `tol`. */
  predicate FamilyProjected(f: FamilyOpts, tol: real, nm: Numerics, oe: OrthoError, prods: seq<Row>, hi: nat, lo: nat) {
    var g := GetRecursionCoefficients(f, hi + lo + 1, tol, oe);
    g.Success? && g.value.Some? && ProjectedWith(nm, g.value.value, prods, hi, lo)
  }

  lemma StepFromFamily(p: Pce, f: FamilyOpts, hi: nat, lo: nat, nm: Numerics, oe: OrthoError, dd: nat)
    requires Valid(p) && dd < p.numVars && p.config.basis == SingleFamily(f)
    requires ProductStep(p, hi, lo, nm, oe, dd).Success?
    ensures var step := ProductStep(p, hi, lo, nm, oe, dd).value;
            && Valid(step.0) && step.0.numVars == p.numVars
            && step.0.config.basis == SingleFamily(f) && step.0.tolerance == p.tolerance
            && FamilyProjected(f, p.tolerance, nm, oe, step.1, hi, lo)
  {
    var nc := seq(p.numVars, _ => hi + lo + 1);
    assert nc[0] == hi + lo + 1;
    assert MaxOf(nc) == hi + lo + 1;
    var step := ProductStep(p, hi, lo, nm, oe, dd).value;
    var u := UpdateRecursionCoefficients(p, nc, p.config.basis, oe);
    assert Refreshed(p, hi + lo + 1, oe) == u;
    assert u == Success(step.0);
    assert GetRecursionCoefficients(f, hi + lo + 1, p.tolerance, oe) == Success(step.0.tables[0]);
    assert TableFor(step.0, dd).value == step.0.tables[0].value;
  }

  /** One univariate product table for each of variables dd, dd+1, ..., shaped for
      that variable's maximum degrees. */
  predicate TablesShaped(tables: seq<seq<Row>>, hi: seq<nat>, lo: seq<nat>, dd: nat) {
    && |hi| == |lo| == dd + |tables|
    && forall k | 0 <= k < |tables| :: ProductsShaped(tables[k], hi[dd + k], lo[dd + k])
  }

  /** Per-variable larger and smaller of two degree vectors. */
  function Larger(a: seq<nat>, b: seq<nat>): (r: seq<nat>)
    requires |a| == |b|
    ensures |r| == |a| && forall d | 0 <= d < |a| :: r[d] == Max(a[d], b[d])
  {
    seq(|a|, d requires 0 <= d < |a| => Max(a[d], b[d]))
  }

  function Smaller(a: seq<nat>, b: seq<nat>): (r: seq<nat>)
    requires |a| == |b|
    ensures |r| == |a| && forall d | 0 <= d < |a| :: r[d] == Min(a[d], b[d])
  {
    seq(|a|, d requires 0 <= d < |a| => Min(a[d], b[d]))
  }

  /** Both operands have terms, coefficients of the same width and the same variables. */
  predicate Compatible(p: Pce, q: Pce) {
    && Ready(p) && Ready(q)
    && p.numVars == q.numVars
    && p.coefs.value.width == q.coefs.value.width
    && |p.indices.value| > 0 && |q.indices.value| > 0
  }

  /** The operand placed first: the one with strictly more terms, else the right one. */
  function First(self: Pce, other: Pce): Pce
    requires Ready(self) && Ready(other)
  {
    if |self.indices.value| > |other.indices.value| then self else other
  }

  function Second(self: Pce, other: Pce): Pce
    requires Ready(self) && Ready(other)
  {
    if |self.indices.value| > |other.indices.value| then other else self
  }

  /** The product term list of `p1` (first) and `p2` (second): the univariate
      product tables are computed on (a copy of) `p1` for maximum degrees (hi, lo)
      and the products of all pairs of terms are looked up in them. */
  function ProductTerms(p1: Pce, p2: Pce, hi: seq<nat>, lo: seq<nat>, nm: Numerics, oe: OrthoError)
    : (r: Result<(seq<MultiIndex>, seq<Row>)>)
    requires Valid(p1) && Valid(p2) && Compatible(p1, p2)
    requires |hi| == |lo| == p1.numVars
    ensures (exists d | 0 <= d < p1.numVars :: hi[d] < lo[d]) ==> r.Failure?
    ensures r.Success? ==>
              && TermList(r.value, p1.coefs.value.width)
              && Within(r.value.0, SumDegrees(MaxDegrees(p1.indices.value, p1.numVars),
                                              MaxDegrees(p2.indices.value, p1.numVars)))
    ensures r.Success? ==>
              && ProductTables(p1, hi, lo, nm, oe, 0).Success?
              && IsProductOf(r.value, OperandsOf(p1, p2, ProductTables(p1, hi, lo, nm, oe, 0).value, hi, lo))
  {
    var cache :- ProductTables(p1, hi, lo, nm, oe, 0);
    ProductFromTables(p1, p2, cache, hi, lo)
  }

  /** The product term list of `p1` and `p2` from univariate product tables. Neither
      caller reaches the failure branch: `Product` asks for the per-variable larger
      and smaller maximum degrees, which cover both operands, and the as-written
      request for (m1, m2) obtains tables only when m2 <= m1 in every variable. The
      branch stands for the out-of-range lookup that tables too small would cause. */
  function ProductFromTables(p1: Pce, p2: Pce, cache: seq<seq<Row>>, hi: seq<nat>, lo: seq<nat>)
    : (r: Result<(seq<MultiIndex>, seq<Row>)>)
    requires Valid(p1) && Valid(p2) && Compatible(p1, p2)
    requires |cache| == |hi| == |lo| == p1.numVars
    requires forall dd | 0 <= dd < p1.numVars :: ProductsShaped(cache[dd], hi[dd], lo[dd])
    ensures r.Success? ==>
              && TermList(r.value, p1.coefs.value.width)
              && Within(r.value.0, SumDegrees(MaxDegrees(p1.indices.value, p1.numVars),
                                              MaxDegrees(p2.indices.value, p1.numVars)))
    ensures r.Success? ==> IsProductOf(r.value, OperandsOf(p1, p2, cache, hi, lo))
  {
    var o := OperandsOf(p1, p2, cache, hi, lo);
    if !Covers(MaxDegrees(o.indices1, o.nv), MaxDegrees(o.indices2, o.nv), hi, lo) then
      Failure(InvalidArgument)
    else OperandProduct(o)
  }

  /** The arguments of `multiply_multivariate_orthonormal_polynomial_expansions`. */
  function OperandsOf(p1: Pce, p2: Pce, cache: seq<seq<Row>>, hi: seq<nat>, lo: seq<nat>): (o: Operands)
    requires Ready(p1) && Ready(p2)
  {
    Operands(cache, hi, lo, p1.indices.value, p1.coefs.value.rows,
             p2.indices.value, p2.coefs.value.rows, p1.numVars, p1.coefs.value.width)
  }

  /** Tables for maximum degrees (hi, lo) hold every univariate product that terms of
      per-variable maximum degrees m1 and m2 need. */
  predicate Covers(m1: seq<nat>, m2: seq<nat>, hi: seq<nat>, lo: seq<nat>)
    requires |m1| == |m2| == |hi| == |lo|
  {
    forall d | 0 <= d < |m1| :: m1[d] <= hi[d] && m2[d] <= hi[d] && Min(m1[d], m2[d]) <= lo[d]
  }

  /** `multiply_multivariate_orthonormal_polynomial_expansions` on operands whose
      product tables cover both term lists. */
  function OperandProduct(o: Operands): (r: Result<(seq<MultiIndex>, seq<Row>)>)
    requires Shaped(o.indices1, o.nv) && Shaped(o.indices2, o.nv)
    requires RowsOfWidth(o.coefs1, o.nq) && RowsOfWidth(o.coefs2, o.nq)
    requires |o.indices1| > 0 && |o.indices2| > 0
    requires |o.cache| == |o.hi| == |o.lo| == o.nv
    requires forall dd | 0 <= dd < o.nv :: ProductsShaped(o.cache[dd], o.hi[dd], o.lo[dd])
    requires Covers(MaxDegrees(o.indices1, o.nv), MaxDegrees(o.indices2, o.nv), o.hi, o.lo)
    ensures r.Success? ==>
              && TermList(r.value, o.nq)
              && Within(r.value.0, SumDegrees(MaxDegrees(o.indices1, o.nv), MaxDegrees(o.indices2, o.nv)))
    ensures r.Success? ==>
              && WellShaped(o) && Admissible(o)
              && (forall k | 0 <= k < |r.value.0| :: r.value.1[k] == BilinearSum(o, r.value.0[k]))
              && IsProductOf(r.value, o)
  {
    OperandsFit(o, MaxDegrees(o.indices1, o.nv), MaxDegrees(o.indices2, o.nv));
    MultiplyExpansions(o)
  }

  /** Tables computed for (hi, lo) cover every pair of terms whose per-variable
      maximum degrees are within (hi, lo). */
  lemma OperandsFit(o: Operands, m1: seq<nat>, m2: seq<nat>)
    requires Shaped(o.indices1, o.nv) && Shaped(o.indices2, o.nv)
    requires RowsOfWidth(o.coefs1, o.nq) && RowsOfWidth(o.coefs2, o.nq)
    requires |o.cache| == |o.hi| == |o.lo| == |m1| == |m2| == o.nv
    requires forall dd | 0 <= dd < o.nv :: ProductsShaped(o.cache[dd], o.hi[dd], o.lo[dd])
    requires forall i, d | 0 <= i < |o.indices1| && 0 <= d < o.nv :: o.indices1[i][d] <= m1[d]
    requires forall j, d | 0 <= j < |o.indices2| && 0 <= d < o.nv :: o.indices2[j][d] <= m2[d]
    requires Covers(m1, m2, o.hi, o.lo)
    ensures WellShaped(o)
  {
  }

  /** Per-variable maximum degrees of the first and second operand. */
  function FirstDegrees(self: Pce, other: Pce): (m: seq<nat>)
    requires Valid(self) && Valid(other) && Compatible(self, other)
    ensures |m| == self.numVars
  {
    MaxDegrees(First(self, other).indices.value, self.numVars)
  }

  function SecondDegrees(self: Pce, other: Pce): (m: seq<nat>)
    requires Valid(self) && Valid(other) && Compatible(self, other)
    ensures |m| == self.numVars
  {
    MaxDegrees(Second(self, other).indices.value, self.numVars)
  }

  /** The product expansion as written: the operand with strictly more terms goes
      first and its per-variable maximum degrees are passed as the larger ones. */
  function ProductAsWritten(self: Pce, other: Pce, nm: Numerics, oe: OrthoError)
    : (r: Result<(seq<MultiIndex>, seq<Row>)>)
    requires Valid(self) && Valid(other)
  {
    if !Compatible(self, other) then Failure(DimensionMismatch)
    else
      ProductTerms(First(self, other), Second(self, other),
                   FirstDegrees(self, other), SecondDegrees(self, other), nm, oe)
  }

  /** The product expansion with the univariate tables computed, and looked up, for
      the per-variable larger and smaller maximum degrees, so that every pair of
      terms is covered whichever operand has the higher degree. */
  function Product(self: Pce, other: Pce, nm: Numerics, oe: OrthoError)
    : (r: Result<(seq<MultiIndex>, seq<Row>)>)
    requires Valid(self) && Valid(other)
    ensures r.Success? ==> Compatible(self, other)
    ensures r.Success? ==>
              && TermList(r.value, self.coefs.value.width)
              && Within(r.value.0, SumDegrees(MaxDegrees(self.indices.value, self.numVars),
                                              MaxDegrees(other.indices.value, self.numVars)))
    ensures r.Success? ==>
              var m1 := FirstDegrees(self, other);
              var m2 := SecondDegrees(self, other);
              var tables := ProductTables(First(self, other), Larger(m1, m2), Smaller(m1, m2), nm, oe, 0);
              && tables.Success?
              && IsProductOf(r.value, OperandsOf(First(self, other), Second(self, other), tables.value,
                                                 Larger(m1, m2), Smaller(m1, m2)))
  {
    if !Compatible(self, other) then Failure(DimensionMismatch)
    else
      var m1 := FirstDegrees(self, other);
      var m2 := SecondDegrees(self, other);
      SumDegreesCommute(MaxDegrees(self.indices.value, self.numVars), MaxDegrees(other.indices.value, self.numVars));
      ProductTerms(First(self, other), Second(self, other), Larger(m1, m2), Smaller(m1, m2), nm, oe)
  }

  /** The as-written product fails whenever the first operand has the lower maximum
      degree in some variable, and otherwise agrees with the corrected product. */
  lemma ProductAsWrittenAgreesWhenOrdered(self: Pce, other: Pce, nm: Numerics, oe: OrthoError)
    requires Valid(self) && Valid(other) && Compatible(self, other)
    ensures var m1 := FirstDegrees(self, other);
            var m2 := SecondDegrees(self, other);
            && ((exists d | 0 <= d < self.numVars :: m1[d] < m2[d]) ==> ProductAsWritten(self, other, nm, oe).Failure?)
            && ((forall d | 0 <= d < self.numVars :: m2[d] <= m1[d]) ==>
                  ProductAsWritten(self, other, nm, oe) == Product(self, other, nm, oe))
  {
    var m1 := FirstDegrees(self, other);
    var m2 := SecondDegrees(self, other);
    if forall d | 0 <= d < self.numVars :: m2[d] <= m1[d] {
      assert Larger(m1, m2) == m1;
      assert Smaller(m1, m2) == m2;
    }
  }

  /** The stored product of `Product` has, for every multi-index, the coefficient
      row of the bilinear sum over all pairs of terms, with the univariate products
      taken from the tables computed for the larger and smaller maximum degrees. */
  lemma ProductCoefficients(self: Pce, other: Pce, nm: Numerics, oe: OrthoError)
    requires Valid(self) && Valid(other)
    requires Product(self, other, nm, oe).Success?
    ensures Compatible(self, other)
    ensures var m1 := FirstDegrees(self, other);
            var m2 := SecondDegrees(self, other);
            var tables := ProductTables(First(self, other), Larger(m1, m2), Smaller(m1, m2), nm, oe, 0);
            var r := Product(self, other, nm, oe).value;
            && tables.Success?
            && var o := OperandsOf(First(self, other), Second(self, other), tables.value, Larger(m1, m2), Smaller(m1, m2));
               && WellShaped(o) && Admissible(o)
               && (forall k | 0 <= k < |r.0| :: r.1[k] == BilinearSum(o, r.0[k]))
               && forall a :: Find(r.0, r.1, a, o.nq) == BilinearSum(o, a)
  {
    var m1 := FirstDegrees(self, other);
    var m2 := SecondDegrees(self, other);
    var p1, p2 := First(self, other), Second(self, other);
    var hi, lo := Larger(m1, m2), Smaller(m1, m2);
    assert Product(self, other, nm, oe) == ProductTerms(p1, p2, hi, lo, nm, oe);
    var tables := ProductTables(p1, hi, lo, nm, oe, 0);
    assert tables.Success?;
    assert ProductTerms(p1, p2, hi, lo, nm, oe) == ProductFromTables(p1, p2, tables.value, hi, lo);
    var o := OperandsOf(p1, p2, tables.value, hi, lo);
    assert ProductFromTables(p1, p2, tables.value, hi, lo) == OperandProduct(o);
  }

  /** Stores a product on a copy of the left operand (`__mul__` copies `self`). */
  function Store(self: Pce, prod: (seq<MultiIndex>, seq<Row>), nq: nat, oe: OrthoError): (r: Result<Pce>)
    requires Valid(self) && Shaped(prod.0, self.numVars) && RowsOfWidth(prod.1, nq)
    ensures r.Success? ==> Valid(r.value)
    ensures r.Success? ==> r.value.indices == Some(prod.0) && r.value.coefs == Some(CoefMatrix(prod.1, nq))
    ensures r.Success? ==> r.value.numVars == self.numVars && r.value.config == self.config
  {
    var p1 :- SetIndices(self, Grid(self.numVars, prod.0), oe);
    SetIndicesValid(self, Grid(self.numVars, prod.0), oe);
    var p2 :- SetCoefficients(p1, Matrix(prod.1, nq));
    SetCoefficientsValid(p1, Matrix(prod.1, nq));
    Success(p2)
  }

  /** `__mul__` as written. */
  function MulAsWritten(self: Pce, other: Pce, nm: Numerics, oe: OrthoError): (r: Result<Pce>)
    requires Valid(self) && Valid(other)
  {
    var prod :- ProductAsWritten(self, other, nm, oe);
    if !Compatible(self, other) || !Shaped(prod.0, self.numVars) || !RowsOfWidth(prod.1, self.coefs.value.width)
    then Failure(DimensionMismatch)
    else Store(self, prod, self.coefs.value.width, oe)
  }

  /** `__mul__` with the corrected table request: the product is stored on a copy of
      the left operand, its multi-indices distinct and each of degree at most the
      sum of the operands' maximum degrees in every variable. */
  function Mul(self: Pce, other: Pce, nm: Numerics, oe: OrthoError): (r: Result<Pce>)
    requires Valid(self) && Valid(other)
    ensures r.Success? ==> Valid(r.value) && Ready(r.value) && Compatible(self, other)
    ensures r.Success? ==> r.value.numVars == self.numVars && r.value.config == self.config
    ensures r.Success? ==> r.value.coefs.value.width == self.coefs.value.width
    ensures r.Success? ==> |r.value.indices.value| > 0 ==> Distinct(r.value.indices.value)
    ensures r.Success? ==>
              Within(r.value.indices.value, SumDegrees(MaxDegrees(self.indices.value, self.numVars),
                                                       MaxDegrees(other.indices.value, self.numVars)))
    ensures r.Success? ==>
              var m1 := FirstDegrees(self, other);
              var m2 := SecondDegrees(self, other);
              var tables := ProductTables(First(self, other), Larger(m1, m2), Smaller(m1, m2), nm, oe, 0);
              && tables.Success?
              && IsProductOf((r.value.indices.value, r.value.coefs.value.rows),
                             OperandsOf(First(self, other), Second(self, other), tables.value,
                                        Larger(m1, m2), Smaller(m1, m2)))
  {
    var prod :- Product(self, other, nm, oe);
    Store(self, prod, self.coefs.value.width, oe)
  }

  /** `__mul__` stores exactly the terms of the product expansion. */
  lemma MulStoresProduct(self: Pce, other: Pce, nm: Numerics, oe: OrthoError)
    requires Valid(self) && Valid(other)
    requires Mul(self, other, nm, oe).Success?
    ensures Product(self, other, nm, oe).Success?
    ensures Mul(self, other, nm, oe).value.indices == Some(Product(self, other, nm, oe).value.0)
    ensures Mul(self, other, nm, oe).value.coefs.value.rows == Product(self, other, nm, oe).value.1
  {
  }

  /** Every variable of a single-family expansion uses table 0. */
  predicate SingleMap(p: Pce) {
    p.typeMap.Some? ==> forall v | 0 <= v < |p.typeMap.value| :: p.typeMap.value[v] == 0
  }

  /** Concrete counterexample: with one variable, (1 + p1) * p3 puts the two-term
      operand first and asks for univariate products with maximum degrees (1, 3),
      which the univariate product routine rejects. */
  lemma MulAsWrittenRejectsHigherSecondDegree(p: Pce, q: Pce, nm: Numerics, oe: OrthoError)
    requires Valid(p) && Valid(q)
    requires p.numVars == 1 && q.numVars == 1
    requires p.indices == Some([[0], [1]]) && q.indices == Some([[3]])
    requires p.coefs.Some? && q.coefs.Some? && p.coefs.value.width == q.coefs.value.width
    ensures FirstDegrees(p, q) == [1] && SecondDegrees(p, q) == [3]
    ensures MulAsWritten(p, q, nm, oe).Failure?
  {
    assert p.indices.value[1][0] == 1 && q.indices.value[0][0] == 3;
    OneVariableDegrees(p.indices.value, [1]);
    OneVariableDegrees(q.indices.value, [3]);
    assert First(p, q) == p;
    ProductAsWrittenAgreesWhenOrdered(p, q, nm, oe);
  }

  /** The maximum degree of one-variable multi-indices, given the attained maximum. */
  lemma OneVariableDegrees(indices: seq<MultiIndex>, m: seq<nat>)
    requires |indices| > 0 && Shaped(indices, 1) && |m| == 1
    requires exists i | 0 <= i < |indices| :: indices[i][0] == m[0]
    requires forall i | 0 <= i < |indices| :: indices[i][0] <= m[0]
    ensures MaxDegrees(indices, 1) == m
  {
    var r := MaxDegrees(indices, 1);
    var i :| 0 <= i < |indices| && indices[i][0] == r[0];
  }

  /** For the same operands of a single Legendre family the corrected request asks
      for maximum degrees (3, 1), obtains its univariate product tables and
      computes the product term list. */
  lemma MulCorrectedTablesFor(p: Pce, q: Pce, nm: Numerics, oe: OrthoError)
    requires Valid(p) && Valid(q) && SingleMap(p)
    requires p.numVars == 1 && q.numVars == 1
    requires p.indices == Some([[0], [1]]) && q.indices == Some([[3]])
    requires p.coefs.Some? && q.coefs.Some? && p.coefs.value.width == q.coefs.value.width
    requires |p.coefs.value.rows| == 2 && |q.coefs.value.rows| == 1
    requires p.config.basis == SingleFamily(Legendre())
    ensures Larger(FirstDegrees(p, q), SecondDegrees(p, q)) == [3]
    ensures Smaller(FirstDegrees(p, q), SecondDegrees(p, q)) == [1]
    ensures ProductTables(p, [3], [1], nm, oe, 0).Success?
    ensures Product(p, q, nm, oe).Success?
  {
    CorrectedDegrees(p, q);
    LegendreTables(p, [3], [1], nm, oe, 0);
    TablesGiveProduct(p, q, [3], [1], nm, oe);
    assert Product(p, q, nm, oe) == ProductTerms(p, q, [3], [1], nm, oe);
  }

  /** The degrees of the operands of the finding: p, with more terms, goes first. */
  lemma CorrectedDegrees(p: Pce, q: Pce)
    requires Valid(p) && Valid(q)
    requires p.numVars == 1 && q.numVars == 1
    requires p.indices == Some([[0], [1]]) && q.indices == Some([[3]])
    requires p.coefs.Some? && q.coefs.Some? && p.coefs.value.width == q.coefs.value.width
    ensures Compatible(p, q) && First(p, q) == p && Second(p, q) == q
    ensures MaxDegrees(p.indices.value, 1) == [1] && MaxDegrees(q.indices.value, 1) == [3]
    ensures Larger(FirstDegrees(p, q), SecondDegrees(p, q)) == [3]
    ensures Smaller(FirstDegrees(p, q), SecondDegrees(p, q)) == [1]
  {
    assert p.indices.value[1][0] == 1 && q.indices.value[0][0] == 3;
    OneVariableDegrees(p.indices.value, [1]);
    OneVariableDegrees(q.indices.value, [3]);
  }

  /** Tables that cover both operands, with admissible operands, give a product. */
  lemma TablesGiveProduct(p1: Pce, p2: Pce, hi: seq<nat>, lo: seq<nat>, nm: Numerics, oe: OrthoError)
    requires Valid(p1) && Valid(p2) && Compatible(p1, p2) && |hi| == |lo| == p1.numVars
    requires ProductTables(p1, hi, lo, nm, oe, 0).Success?
    requires Covers(MaxDegrees(p1.indices.value, p1.numVars), MaxDegrees(p2.indices.value, p1.numVars), hi, lo)
    requires |p2.indices.value| <= |p1.indices.value|
    requires |p1.coefs.value.rows| == |p1.indices.value| && |p2.coefs.value.rows| == |p2.indices.value|
    ensures ProductTerms(p1, p2, hi, lo, nm, oe).Success?
  {
    var cache := ProductTables(p1, hi, lo, nm, oe, 0).value;
    var o := OperandsOf(p1, p2, cache, hi, lo);
    assert Admissible(o);
    assert ProductTerms(p1, p2, hi, lo, nm, oe) == ProductFromTables(p1, p2, cache, hi, lo);
  }

  /** The options of a Legendre family (`poly_type` 'legendre'). */
  function Legendre(): FamilyOpts {
    FamilyOpts(Some("legendre"), None, 0.0, 0.0, 0.0, 0.0, 0, 0.0, 0, 0, [], [])
  }

  /** With a single Legendre family one step of the univariate product tables
      succeeds whenever the first maximum degree is the larger, and keeps the
      expansion a single-family one. */
  lemma LegendreStep(p: Pce, hi: nat, lo: nat, nm: Numerics, oe: OrthoError, dd: nat)
    requires Valid(p) && dd < p.numVars && SingleMap(p) && lo <= hi
    requires p.config.basis == SingleFamily(Legendre())
    ensures ProductStep(p, hi, lo, nm, oe, dd).Success?
    ensures SingleMap(ProductStep(p, hi, lo, nm, oe, dd).value.0)
  {
    var nc := seq(p.numVars, _ => hi + lo + 1);
    var u := UpdateRecursionCoefficients(p, nc, p.config.basis, oe);
    assert GetRecursionCoefficients(Legendre(), MaxOf(nc), p.tolerance, oe).Success?;
    assert u.Success?;
    assert u.value.tables == [Some(Table(Jacobi(0.0, 0.0), MaxOf(nc)))];
    assert SingleMap(u.value);
  }

  /** The arguments for which a single Legendre family obtains all its tables. */
  predicate LegendreArgs(p: Pce, hi: seq<nat>, lo: seq<nat>, dd: nat) {
    && Valid(p) && |hi| == |lo| == p.numVars && dd <= p.numVars && SingleMap(p)
    && p.config.basis == SingleFamily(Legendre())
    && forall d | 0 <= d < p.numVars :: lo[d] <= hi[d]
  }

  lemma {:induction false} LegendreTables(p: Pce, hi: seq<nat>, lo: seq<nat>, nm: Numerics, oe: OrthoError, dd: nat)
    requires LegendreArgs(p, hi, lo, dd)
    ensures ProductTables(p, hi, lo, nm, oe, dd).Success?
    decreases p.numVars - dd
  {
    if dd < p.numVars {
      LegendreStep(p, hi[dd], lo[dd], nm, oe, dd);
      var q := ProductStep(p, hi[dd], lo[dd], nm, oe, dd).value.0;
      assert LegendreArgs(q, hi, lo, dd + 1);
      LegendreTables(q, hi, lo, nm, oe, dd + 1);
    }
  }

  /* ----- addition, subtraction, powers ----- */

  /** Both operands' term lists merged; the second operand's coefficients negated for
      a difference. */
  function Combined(self: Pce, other: Pce, negate: bool): (r: Result<(seq<MultiIndex>, seq<Row>)>)
    requires Valid(self) && Valid(other)
    ensures r.Success? ==> Ready(self) && Ready(other) && self.numVars == other.numVars
    ensures r.Success? ==> |self.coefs.value.rows| == |self.indices.value|
    ensures r.Success? ==> |other.coefs.value.rows| == |other.indices.value|
    ensures r.Success? ==> self.coefs.value.width == other.coefs.value.width
    ensures r.Success? ==> |r.value.0| == |r.value.1| && RowsOfWidth(r.value.1, self.coefs.value.width)
    ensures r.Success? ==> Shaped(r.value.0, self.numVars) && Distinct(r.value.0)
    ensures r.Success? ==>
              forall a :: a in r.value.0 <==> a in self.indices.value || a in other.indices.value
    ensures r.Success? ==>
              forall k | 0 <= k < |r.value.0| ::
                r.value.1[k]
                == AddRows(CoefSum(self.indices.value, self.coefs.value.rows, r.value.0[k], self.coefs.value.width),
                           (if negate then NegRow else (x: Row) => x)(
                             CoefSum(other.indices.value, other.coefs.value.rows, r.value.0[k], self.coefs.value.width)))
  {
    if !Ready(self) || !Ready(other) then Failure(NotSet)
    else if self.numVars != other.numVars || self.coefs.value.width != other.coefs.value.width then
      Failure(DimensionMismatch)
    else if |self.coefs.value.rows| != |self.indices.value| || |other.coefs.value.rows| != |other.indices.value| then
      Failure(DimensionMismatch)
    else
      var nq := self.coefs.value.width;
      var i1 := self.indices.value;
      var c1 := self.coefs.value.rows;
      var i2 := other.indices.value;
      var c2 := if negate then NegRows(other.coefs.value.rows) else other.coefs.value.rows;
      var merged := Merge.Merge(i1 + i2, c1 + c2, nq);
      CombinedSums(i1, c1, other.indices.value, other.coefs.value.rows, negate, nq);
      assert forall a :: a in i1 + i2 <==> a in i1 || a in i2;
      Success(merged)
  }

  lemma CombinedSums(i1: seq<MultiIndex>, c1: seq<Row>, i2: seq<MultiIndex>, c2: seq<Row>, negate: bool, nq: nat)
    requires |i1| == |c1| && RowsOfWidth(c1, nq) && |i2| == |c2| && RowsOfWidth(c2, nq)
    ensures RowsOfWidth(c1 + (if negate then NegRows(c2) else c2), nq)
    ensures forall a ::
              CoefSum(i1 + i2, c1 + (if negate then NegRows(c2) else c2), a, nq)
              == AddRows(CoefSum(i1, c1, a, nq), (if negate then NegRow else (x: Row) => x)(CoefSum(i2, c2, a, nq)))
  {
    var c2' := if negate then NegRows(c2) else c2;
    forall a
      ensures CoefSum(i1 + i2, c1 + c2', a, nq)
              == AddRows(CoefSum(i1, c1, a, nq), (if negate then NegRow else (x: Row) => x)(CoefSum(i2, c2, a, nq)))
    {
      CoefSumAppend(i1, c1, i2, c2', a, nq);
      if negate {
        CoefSumNeg(i2, c2, a, nq);
      }
    }
  }

  /** `__add__`: the merged terms are stored on `blank`, the expansion built from the
      same variables. */
  function Add(self: Pce, other: Pce, blank: Pce, oe: OrthoError): (r: Result<Pce>)
    requires Valid(self) && Valid(other) && Valid(blank) && blank.numVars == self.numVars
  {
    var terms :- Combined(self, other, false);
    Store(blank, terms, self.coefs.value.width, oe)
  }

  /** `__sub__`: as `__add__` with the second operand's coefficients negated. */
  function Sub(self: Pce, other: Pce, blank: Pce, oe: OrthoError): (r: Result<Pce>)
    requires Valid(self) && Valid(other) && Valid(blank) && blank.numVars == self.numVars
  {
    var terms :- Combined(self, other, true);
    Store(blank, terms, self.coefs.value.width, oe)
  }

  /** A sum holds exactly the multi-indices of either operand, each with the sum of
      the operands' coefficients for it (a coefficient of a multi-index an operand
      lacks counting as zero). */
  lemma AddMeaning(self: Pce, other: Pce, blank: Pce, oe: OrthoError)
    requires Valid(self) && Valid(other) && Valid(blank) && blank.numVars == self.numVars
    requires Add(self, other, blank, oe).Success?
    requires Distinct(self.indices.value) && Distinct(other.indices.value)
    ensures var r := Add(self, other, blank, oe).value;
            var nq := self.coefs.value.width;
            && Ready(r) && Distinct(r.indices.value)
            && (forall a :: a in r.indices.value <==> a in self.indices.value || a in other.indices.value)
            && |r.coefs.value.rows| == |r.indices.value|
            && forall k | 0 <= k < |r.indices.value| ::
                 r.coefs.value.rows[k]
                 == AddRows(Find(self.indices.value, self.coefs.value.rows, r.indices.value[k], nq),
                            Find(other.indices.value, other.coefs.value.rows, r.indices.value[k], nq))
  {
    var nq := self.coefs.value.width;
    forall a ensures CoefSum(self.indices.value, self.coefs.value.rows, a, nq)
                     == Find(self.indices.value, self.coefs.value.rows, a, nq)
                 && CoefSum(other.indices.value, other.coefs.value.rows, a, nq)
                     == Find(other.indices.value, other.coefs.value.rows, a, nq)
    {
      MergeDistinctIsIdentity(self.indices.value, self.coefs.value.rows, nq);
      MergeFind(self.indices.value, self.coefs.value.rows, a, nq);
      MergeDistinctIsIdentity(other.indices.value, other.coefs.value.rows, nq);
      MergeFind(other.indices.value, other.coefs.value.rows, a, nq);
    }
  }

  /** A difference holds exactly the multi-indices of either operand, each with the
      first operand's coefficient minus the second's (a missing one counting as zero). */
  lemma SubMeaning(self: Pce, other: Pce, blank: Pce, oe: OrthoError)
    requires Valid(self) && Valid(other) && Valid(blank) && blank.numVars == self.numVars
    requires Sub(self, other, blank, oe).Success?
    requires Distinct(self.indices.value) && Distinct(other.indices.value)
    ensures var r := Sub(self, other, blank, oe).value;
            var nq := self.coefs.value.width;
            && Ready(r) && Distinct(r.indices.value)
            && (forall a :: a in r.indices.value <==> a in self.indices.value || a in other.indices.value)
            && |r.coefs.value.rows| == |r.indices.value|
            && forall k | 0 <= k < |r.indices.value| ::
                 r.coefs.value.rows[k]
                 == AddRows(Find(self.indices.value, self.coefs.value.rows, r.indices.value[k], nq),
                            NegRow(Find(other.indices.value, other.coefs.value.rows, r.indices.value[k], nq)))
  {
    var nq := self.coefs.value.width;
    forall a ensures CoefSum(self.indices.value, self.coefs.value.rows, a, nq)
                     == Find(self.indices.value, self.coefs.value.rows, a, nq)
                 && CoefSum(other.indices.value, other.coefs.value.rows, a, nq)
                     == Find(other.indices.value, other.coefs.value.rows, a, nq)
    {
      MergeDistinctIsIdentity(self.indices.value, self.coefs.value.rows, nq);
      MergeFind(self.indices.value, self.coefs.value.rows, a, nq);
      MergeDistinctIsIdentity(other.indices.value, other.coefs.value.rows, nq);
      MergeFind(other.indices.value, other.coefs.value.rows, a, nq);
    }
  }

  /** An expansion minus itself has only zero coefficients. */
  lemma SubSelfIsZero(p: Pce, blank: Pce, oe: OrthoError)
    requires Valid(p) && Valid(blank) && blank.numVars == p.numVars
    requires Sub(p, p, blank, oe).Success?
    ensures var r := Sub(p, p, blank, oe).value;
            Ready(r) && forall k | 0 <= k < |r.coefs.value.rows| :: r.coefs.value.rows[k] == Zeros(p.coefs.value.width)
  {
    var nq := p.coefs.value.width;
    var t := Combined(p, p, true).value;
    var r := Sub(p, p, blank, oe).value;
    assert r.coefs.value.rows == t.1;
    forall k | 0 <= k < |t.1| ensures t.1[k] == Zeros(nq) {
      AddNegZero(CoefSum(p.indices.value, p.coefs.value.rows, t.0[k], nq));
    }
  }

  /** `p ** 0`: the constant expansion, with coefficient 1 for every quantity of
      interest, stored on `blank`; its mean is 1 and its variance 0. */
  function Constant(self: Pce, blank: Pce, oe: OrthoError): (r: Result<Pce>)
    requires Valid(self) && Valid(blank) && blank.numVars == self.numVars
    ensures r.Success? ==> Valid(r.value) && r.value.numVars == self.numVars
    ensures r.Success? ==>
              && self.coefs.Some?
              && r.value.indices == Some([ZeroIndex(self.numVars)])
              && r.value.coefs == Some(CoefMatrix([Ones(self.coefs.value.width)], self.coefs.value.width))
    ensures r.Success? ==>
              && Mean(r.value) == Success(Ones(self.coefs.value.width))
              && Variance(r.value) == Success(Zeros(self.coefs.value.width))
  {
    if self.coefs.None? then Failure(NotSet)
    else
      var nq := self.coefs.value.width;
      var r := Store(blank, ([ZeroIndex(self.numVars)], [Ones(nq)]), nq, oe);
      if r.Failure? then r
      else
        assert Variance(r.value).value == Zeros(nq);
        r
  }

  /** `__pow__`: order 0 gives the constant expansion, with coefficient 1 for every
      quantity of interest, stored on `blank`; a positive order n multiplies a copy
      of the expansion n - 1 times by the expansion; any other order returns the
      expansion unchanged. Every degree of a positive power n is at most n times
      the expansion's maximum degree in that variable. */
  method Pow(self: Pce, order: int, blank: Pce, nm: Numerics, oe: OrthoError) returns (r: Result<Pce>)
    requires Valid(self) && Valid(blank) && blank.numVars == self.numVars
    ensures r.Success? ==> Valid(r.value) && r.value.numVars == self.numVars
    ensures order == 0 && r.Success? ==>
              && self.coefs.Some?
              && r.value.indices == Some([ZeroIndex(self.numVars)])
              && r.value.coefs == Some(CoefMatrix([Ones(self.coefs.value.width)], self.coefs.value.width))
    ensures order == 0 && r.Success? ==>
              && Mean(r.value) == Success(Ones(self.coefs.value.width))
              && Variance(r.value) == Success(Zeros(self.coefs.value.width))
    ensures order != 0 && order <= 1 ==> r == Success(self)
    ensures order >= 1 && r.Success? && Ready(self) && |self.indices.value| > 0 ==>
              DegreesWithin(r.value, self, order)
  {
    if order == 0 {
      return Constant(self, blank, oe);
    }
    var poly := self;
    var i := 2;
    while i <= order
      invariant Valid(poly) && poly.numVars == self.numVars
      invariant order <= 1 ==> poly == self
      invariant order >= 1 ==> 2 <= i <= order + 1
      invariant order >= 1 && Ready(self) && |self.indices.value| > 0 ==> DegreesWithin(poly, self, i - 1)
    {
      var next := PowStep(poly, self, i - 1, nm, oe);
      if next.Failure? {
        return Failure(next.error);
      }
      poly := next.value;
      i := i + 1;
    }
    return Success(poly);
  }

  /** `acc` has multi-indices, each of degree at most m times `self`'s maximum degree
      in every variable. */
  predicate DegreesWithin(acc: Pce, self: Pce, m: nat)
    requires Ready(self) && |self.indices.value| > 0 && Valid(self) && Valid(acc) && acc.numVars == self.numVars
  {
    && Ready(acc)
    && forall k, d | 0 <= k < |acc.indices.value| && 0 <= d < self.numVars ::
         acc.indices.value[k][d] <= Times(m, MaxDegrees(self.indices.value, self.numVars)[d])
  }

  /** One multiplication of the loop in `__pow__`: `acc * self`, whose degrees are
      bounded by one more multiple of `self`'s maximum degrees. */
  method PowStep(acc: Pce, self: Pce, m: nat, nm: Numerics, oe: OrthoError) returns (r: Result<Pce>)
    requires Valid(acc) && Valid(self) && acc.numVars == self.numVars
    ensures r.Success? ==> Valid(r.value) && r.value.numVars == self.numVars
    ensures r.Success? && Ready(self) && |self.indices.value| > 0 && DegreesWithin(acc, self, m) ==>
              DegreesWithin(r.value, self, m + 1)
  {
    r := Mul(acc, self, nm, oe);
    if r.Success? && Ready(self) && |self.indices.value| > 0 && DegreesWithin(acc, self, m) {
      DegreeStep(acc.indices.value, self.indices.value, r.value.indices.value, self.numVars, m);
    }
  }

  /** `n * x`, counted out, so that the degree bounds below stay linear. */
  function Times(n: nat, x: nat): nat {
    if n == 0 then 0 else Times(n - 1, x) + x
  }

  /** Multiplying terms of degree at most m * md by terms of degree at most md gives
      terms of degree at most (m + 1) * md. */
  lemma DegreeStep(a: seq<MultiIndex>, b: seq<MultiIndex>, c: seq<MultiIndex>, nv: nat, m: nat)
    requires |a| > 0 && |b| > 0 && Shaped(a, nv) && Shaped(b, nv)
    requires forall i, d | 0 <= i < |a| && 0 <= d < nv :: a[i][d] <= Times(m, MaxDegrees(b, nv)[d])
    requires Within(c, SumDegrees(MaxDegrees(a, nv), MaxDegrees(b, nv)))
    ensures forall k, d | 0 <= k < |c| && 0 <= d < nv :: c[k][d] <= Times(m + 1, MaxDegrees(b, nv)[d])
  {
    var ma := MaxDegrees(a, nv);
    var mb := MaxDegrees(b, nv);
    forall d | 0 <= d < nv ensures ma[d] + mb[d] <= Times(m + 1, mb[d]) {
      var i :| 0 <= i < |a| && a[i][d] == ma[d];
    }
  }
}
