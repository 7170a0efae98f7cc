/** Selection of the three-term recurrence family of one group of variables and the
    number of recurrence coefficients it can supply (`get_recursion_coefficients`).

    The recurrence generators themselves (Jacobi, Hermite, Krawtchouk, Hahn,
    discrete Chebyshev, modified Chebyshev) are numerical routines outside this
    model: a generated table is represented by the family it belongs to and the
    number of coefficient rows it holds. */
module Recurrence {
  import opened PceTypes

  /** The options of one polynomial family. The source reads them from a dictionary,
      either at its top level (`poly_type` given) or from its `shapes` entry (`rv_type`
      given); both places are flattened into this one record. */
  datatype FamilyOpts = FamilyOpts(
    polyType: Option<string>,  // 'poly_type'
    rvType: Option<string>,    // 'rv_type', read only when 'poly_type' is absent
    alphaPoly: real,           // 'alpha_poly'
    betaPoly: real,            // 'beta_poly'
    shapeA: real,              // shapes 'a' of a beta variable
    shapeB: real,              // shapes 'b' of a beta variable
    n: int,                    // 'n' (binomial trials, hypergeometric draws)
    p: real,                   // 'p' (binomial success probability)
    bigM: int,                 // 'M' (hypergeometric population)
    bigN: int,                 // 'N' (number of support points)
    xk: seq<real>,             // 'xk': support of a discrete variable, in [0, 1]
    pk: seq<real>)             // 'pk': probability masses of a discrete variable

  /** The orthonormal polynomial families the core supports. */
  datatype Family =
    | Jacobi(alpha: real, beta: real)
    | Hermite
    | Krawtchouk(trials: int, prob: real)
    | Hahn(support: int, alpha: real, beta: real)
    | DiscreteChebyshev(support: int)
    | DiscreteNumeric(nodes: seq<real>, masses: seq<real>)
    | Monomial

  /** A table of `numCoefs` recurrence coefficient rows of `family`. */
  datatype Table = Table(family: Family, numCoefs: int)

  /** Largest deviation from the identity of the Gram matrix of a numerically
      generated discrete basis, for given nodes, masses and number of polynomials.
      A floating-point computation, so a parameter of the model. */
  type OrthoError = (seq<real>, seq<real>, int) -> real

  /** Default accuracy tolerance of numerically generated bases. */
  const DefaultAccuracyTolerance: real := 0.000000000001

  const KnownPolyTypes: set<string> :=
    {"legendre", "jacobi", "hermite", "krawtchouk", "hahn", "discrete_chebyshev",
     "discrete_numeric", "monomial"}

  const KnownRvTypes: set<string> :=
    {"uniform", "beta", "norm", "binom", "hypergeom", "discrete_chebyshev",
     "float_rv_discrete"}

  /** `xk` is 0, 1, ..., N-1 and every mass is 1/N: the discrete Chebyshev measure. */
  predicate UniformOnRange(xk: seq<real>, pk: seq<real>) {
    && |pk| == |xk|
    && (forall i | 0 <= i < |xk| :: xk[i] == i as real)
    && (forall i | 0 <= i < |pk| :: pk[i] * (|xk| as real) == 1.0)
  }

  /** The family named by the options; `poly_type` takes precedence over `rv_type`. */
  function Dispatch(o: FamilyOpts): Result<Family> {
    if o.polyType.None? && o.rvType.None? then Failure(ConfigurationError)
    else
      var pt := o.polyType;
      var vt := if pt.None? then o.rvType else None;
      if pt == Some("legendre") || vt == Some("uniform") then
        Success(Jacobi(0.0, 0.0))
      else if pt == Some("jacobi") || vt == Some("beta") then
        if pt.Some? then Success(Jacobi(o.alphaPoly, o.betaPoly))
        else Success(Jacobi(o.shapeB - 1.0, o.shapeA - 1.0))
      else if pt == Some("hermite") || vt == Some("norm") then
        Success(Hermite)
      else if pt == Some("krawtchouk") || vt == Some("binom") then
        Success(Krawtchouk(o.n, o.p))
      else if pt == Some("hahn") || vt == Some("hypergeom") then
        if pt.Some? then Success(Hahn(o.bigN, o.alphaPoly, o.betaPoly))
        else Success(Hahn(o.bigN, -(o.n + 1) as real, (-o.bigM - 1 + o.n) as real))
      else if pt == Some("discrete_chebyshev") || vt == Some("discrete_chebyshev") then
        if pt.Some? then Success(DiscreteChebyshev(o.bigN))
        else if UniformOnRange(o.xk, o.pk) then Success(DiscreteChebyshev(|o.xk|))
        else Failure(InvalidArgument)
      else if pt == Some("discrete_numeric") || vt == Some("float_rv_discrete") then
        Success(DiscreteNumeric(o.xk, o.pk))
      else if pt == Some("monomial") then
        Success(Monomial)
      else
        Failure(UnsupportedFamily)
  }

  /** The support nodes mapped from [0, 1] to the canonical domain [-1, 1]. */
  function CanonicalNodes(xk: seq<real>): (r: seq<real>)
    ensures |r| == |xk|
  {
    seq(|xk|, i requires 0 <= i < |xk| => xk[i] * 2.0 - 1.0)
  }

  predicate InCanonicalDomain(xs: seq<real>) {
    forall i | 0 <= i < |xs| :: -1.0 <= xs[i] <= 1.0
  }

  /** The recurrence table for `numCoefs` coefficients of the family the options
      name, or `None` for the monomial basis. Discrete families with finite support
      supply at most as many rows as they have support points. */
  function GetRecursionCoefficients(o: FamilyOpts, numCoefs: int, tol: real, orthoError: OrthoError)
    : Result<Option<Table>>
  {
    var f :- Dispatch(o);
    match f
    case Jacobi(_, _) => Success(Some(Table(f, numCoefs)))
    case Hermite => Success(Some(Table(f, numCoefs)))
    case Krawtchouk(n, _) => Success(Some(Table(f, Min(numCoefs, n))))
    case Hahn(bigN, _, _) => Success(Some(Table(f, Min(numCoefs, bigN))))
    case DiscreteChebyshev(bigN) => Success(Some(Table(f, Min(numCoefs, bigN))))
    case DiscreteNumeric(xk, pk) =>
      var nodes := CanonicalNodes(xk);
      if |nodes| == 0 || !InCanonicalDomain(nodes) then Failure(InvalidArgument)
      else if numCoefs > |xk| then Failure(InvalidArgument)
      else if orthoError(nodes, pk, numCoefs) > tol then Failure(IllConditionedBasis)
      else Success(Some(Table(DiscreteNumeric(nodes, pk), numCoefs)))
    case Monomial => Success(None)
  }

  /** The number of support points of a finite discrete family. */
  function SupportSize(f: Family): Option<int> {
    match f
    case Krawtchouk(n, _) => Some(n)
    case Hahn(bigN, _, _) => Some(bigN)
    case DiscreteChebyshev(bigN) => Some(bigN)
    case DiscreteNumeric(xk, _) => Some(|xk|)
    case _ => None
  }

  /** A generated table never holds more rows than requested; it holds fewer only
      for a finite discrete family, and then exactly its number of support points. */
  lemma TableSizeClamped(o: FamilyOpts, numCoefs: int, tol: real, orthoError: OrthoError, t: Table)
    requires GetRecursionCoefficients(o, numCoefs, tol, orthoError) == Success(Some(t))
    ensures Dispatch(o).Success?
    ensures t.numCoefs <= numCoefs
    ensures SupportSize(Dispatch(o).value).None? ==> t.numCoefs == numCoefs
    ensures SupportSize(Dispatch(o).value).Some? ==>
              t.numCoefs == numCoefs || t.numCoefs == SupportSize(Dispatch(o).value).value
    ensures SupportSize(Dispatch(o).value).Some? ==>
              t.numCoefs <= SupportSize(Dispatch(o).value).value
  {
  }

  /** A numerically generated discrete basis cannot have more polynomials than masses. */
  lemma DiscreteNumericOverflowRaises(o: FamilyOpts, numCoefs: int, tol: real, orthoError: OrthoError)
    requires Dispatch(o).Success? && Dispatch(o).value.DiscreteNumeric?
    requires numCoefs > |o.xk|
    ensures GetRecursionCoefficients(o, numCoefs, tol, orthoError).Failure?
  {
  }

  /** The ill-conditioning check rejects exactly when the orthogonality error of an
      otherwise admissible numerically generated basis exceeds the tolerance. */
  lemma IllConditionedExactlyAboveTolerance(o: FamilyOpts, numCoefs: int, tol: real, orthoError: OrthoError)
    requires Dispatch(o).Success? && Dispatch(o).value.DiscreteNumeric?
    requires 0 < |o.xk| && InCanonicalDomain(CanonicalNodes(o.xk)) && numCoefs <= |o.xk|
    ensures GetRecursionCoefficients(o, numCoefs, tol, orthoError) == Failure(IllConditionedBasis)
            <==> orthoError(CanonicalNodes(o.xk), o.pk, numCoefs) > tol
  {
  }

  /** The family lookup raises `UnsupportedFamily` exactly for an unknown `poly_type`
      or, when that is absent, an unknown `rv_type`. */
  lemma UnknownFamilyRaises(o: FamilyOpts, numCoefs: int, tol: real, orthoError: OrthoError)
    ensures GetRecursionCoefficients(o, numCoefs, tol, orthoError) == Failure(UnsupportedFamily)
            <==> (|| (o.polyType.Some? && o.polyType.value !in KnownPolyTypes)
                  || (o.polyType.None? && o.rvType.Some? && o.rvType.value !in KnownRvTypes))
  {
  }

  /** Only the monomial basis comes without a recurrence table. */
  lemma OnlyMonomialHasNoTable(o: FamilyOpts, numCoefs: int, tol: real, orthoError: OrthoError)
    ensures GetRecursionCoefficients(o, numCoefs, tol, orthoError) == Success(None)
            <==> o.polyType == Some("monomial")
  {
  }
}
