# Polynomial chaos expansions: a Dafny model of the multi-index algebra

This project models the core of pyapprox's `multivariate_polynomials` module and proves
properties of the model. A polynomial chaos expansion (PCE) is a sum of products of
univariate orthonormal polynomials. Each term is named by a multi-index: one degree per
random variable. Each term carries one row of coefficients: one entry per quantity of
interest. The model keeps an expansion as a list of multi-indices (`seq<nat>` each) and
a list of coefficient rows (`seq<real>` each).

The modules follow the structure of the source:

- `PceTypes` (types.dfy): multi-indices, rows, the error kinds, and the sums and
  products the contracts are stated in.
- `Recurrence` (recurrence.dfy): `get_recursion_coefficients`. The options are
  dispatched to a polynomial family. Discrete families clamp the table size.
  Unknown families raise. The numerically generated basis raises when its
  orthogonality error exceeds the tolerance. A recurrence table is abstracted to
  its family and its number of rows.
- `Providers` (providers.dfy): the numerical routines the core calls but does not
  define. These are the 1D basis values and derivatives, the Gauss quadrature rule,
  and the orthogonality error. They are parameters of the model.
- `Expansion` (expansion.dfy): the `PolynomialChaosExpansion` state. This covers
  `configure`, the lazily grown recurrence tables (`update_recursion_coefficients`,
  `set_indices`), `set_coefficients`, `mean` and `variance`.
- `Evaluation` (evaluation.dfy): `evaluate_multivariate_orthonormal_polynomial`.
  It builds the tensor-product basis matrix from the 1D tables, with the product
  rule for the derivative blocks.
- `UnivariateProducts` (products1d.dfy): `compute_univariate_orthonormal_basis_products`.
  This is the lower-triangular list of products of two univariate basis
  polynomials, each projected back onto the basis. It also models the flat
  position of a degree pair in that list.
- `BasisProduct` (basis_product.dfy): `compute_multivariate_orthonormal_basis_product`.
  This is the product of two multivariate basis terms, as the Cartesian product
  of the univariate expansions in the active variables, with small coefficients
  dropped.
- `Merge` (merge.dfy): `add_polynomials`, specified by its meaning. The result
  has distinct multi-indices, each with the sum of the coefficients the input
  lists for it.
- `Multiply` (multiply.dfy): `multiply_multivariate_orthonormal_polynomial_expansions`.
  It builds one block per pair of terms and merges the blocks.
- `Operators` (operators.dfy): `__mul__` (with `compute_product_coeffs_1d_for_each_variable`),
  `__add__`, `__sub__` and `__pow__`.
- `Conditional` (conditional.dfy): `conditional_moments_of_polynomial_chaos_expansion`.
  It scales the rows of a copy of the coefficient matrix (`get_coefficients`
  returns a copy), so the expansion itself is unchanged. `Conditional.Moments`
  carries that scaled copy next to the moments.

Python exceptions (failed `assert`s, `raise`, numpy index and shape errors) become
`Failure` values of a `Result`, never preconditions.

Where the code and its documentation disagree, the model follows the code:

- `set_indices` overwrites the cached maximum degrees with the new index set's
  maxima. It does not take an element-wise maximum, so one component can decrease
  (`Expansion.MaxDegreeCanDecrease`).
- `__pow__` with a negative order returns a copy of the operand. It does not
  raise.

## Model

All source paths are in `pyapprox/multivariate_polynomials.py`.

| member | source | states |
|---|---|---|
| Recurrence.TableSizeClamped | pyapprox/multivariate_polynomials.py:199-238 | A generated table never has more rows than requested. The continuous families give exactly the requested number. The finite discrete families (Krawtchouk n, Hahn N, discrete Chebyshev N, discrete numeric masses) give the requested number or exactly their support size, never more than the support. |
| Recurrence.DiscreteNumericOverflowRaises | pyapprox/multivariate_polynomials.py:239-249 | Asking a discrete numeric family for more coefficients than it has probability masses raises. |
| Recurrence.IllConditionedExactlyAboveTolerance | pyapprox/multivariate_polynomials.py:250-259 | For an admissible discrete numeric request, the call raises the ill-conditioned error if and only if the orthogonality error of the generated basis exceeds the tolerance. |
| Recurrence.UnknownFamilyRaises | pyapprox/multivariate_polynomials.py:262-266 | The unsupported-family error is raised exactly when `poly_type` is unknown, or `poly_type` is absent and `rv_type` is unknown. |
| Recurrence.OnlyMonomialHasNoTable | pyapprox/multivariate_polynomials.py:260-261 | A call returns no table if and only if the basis is the monomial basis. |
| Expansion.Configure | pyapprox/multivariate_polynomials.py:185-192 | Configuring succeeds if and only if a variable transformation is given. The result has every cached maximum degree at -1, no tables, indices or coefficients, and the default tolerance 1e-12 unless the options give one. |
| Expansion.UpdateRecursionCoefficients | pyapprox/multivariate_polynomials.py:301-305 | Only the tables and the family map change. With a single family there is exactly one table: the one generated for the largest requested coefficient count. |
| Expansion.UpdateInitializes | pyapprox/multivariate_polynomials.py:272-299 | On the first update every family records its variable list and gets one table, generated for the largest count its variables request. Each variable maps to the last family that lists it, or to family 0. |
| Expansion.TypeMapCoversFamilies | pyapprox/multivariate_polynomials.py:283-299 | After the first update with disjoint variable lists, every variable of family k maps to k. |
| Expansion.UpdateRegrows | pyapprox/multivariate_polynomials.py:276-300 | On a later update the variable lists stay the same. A family's table is regenerated exactly when one of its variables requests more than its cached maximum degree plus one. Every other table is unchanged. |
| Expansion.UpdateValid | pyapprox/multivariate_polynomials.py:270-305 | An update keeps the state well formed. It leaves the variables, options, tolerance, indices and coefficients as they were. |
| Expansion.SetIndices | pyapprox/multivariate_polynomials.py:308-318 | A 1-D array is read as one row. A row count other than the number of variables raises, and so does an empty index set. If no variable's new maximum degree exceeds the cached one, only the indices change. Otherwise the tables are updated for maximum degree plus one coefficients, and the cache becomes exactly the new maxima. |
| Expansion.SetIndicesIdempotent | pyapprox/multivariate_polynomials.py:308-318 | Setting the same indices twice gives the same state as setting them once. |
| Expansion.FirstSetIndicesBuildsTables | pyapprox/multivariate_polynomials.py:315-318 | On a freshly configured expansion, the first successful call always builds the tables and caches the index set's maxima. |
| Expansion.MaxDegreeCanDecrease | pyapprox/multivariate_polynomials.py:315-318 | With cached maxima (3, 0) and new indices whose maxima are (0, 5), the cache becomes (0, 5): the first component decreases. |
| Expansion.SetIndicesValid | pyapprox/multivariate_polynomials.py:308-318 | Setting indices keeps the state well formed. |
| Expansion.SetCoefficients | pyapprox/multivariate_polynomials.py:351-355 | Succeeds if and only if the argument is 2-D, indices are set, and there is one row per term. Only the coefficients change. |
| Expansion.CoefficientsRoundTrip | pyapprox/multivariate_polynomials.py:351-359 | Coefficients read back after being set are the rows that were set, and the indices are untouched. |
| Expansion.SetCoefficientsValid | pyapprox/multivariate_polynomials.py:351-355 | Setting coefficients keeps the state well formed. |
| Expansion.Mean | pyapprox/multivariate_polynomials.py:374-375 | The mean exists exactly when coefficients are set and non-empty, and it is coefficient row 0. |
| Expansion.Variance | pyapprox/multivariate_polynomials.py:377-379 | Per quantity of interest, the variance is the sum of the squares of rows 1 onward. It is never negative, and it is zero exactly when all those coefficients are zero. |
| Evaluation.Basis1D | pyapprox/multivariate_polynomials.py:72-77 | The 1D table of a variable has one row per sample. The values of degrees 0 to max come first. With derivatives requested, the derivative of degree d sits at column max + 1 + d. |
| Evaluation.ValueBlock | pyapprox/multivariate_polynomials.py:86-92 | Block 0 at (sample, term) is the product over the variables of the 1D value at that term's degree. |
| Evaluation.DerivativeBlocks | pyapprox/multivariate_polynomials.py:104-115 | Block j + 1 at (sample, term) is the same product with variable j's value replaced by its derivative (the product rule). |
| Evaluation.Evaluate | pyapprox/multivariate_polynomials.py:45-117 | Succeeds if and only if there is at least one variable and one term, the samples have one row per variable and at least one column, every variable has a table with more rows than its maximum degree, and the derivative order is 0 or 1. The result has 1 + order times variables blocks of samples-by-terms, holding the values and the derivatives. |
| UnivariateProducts.UnivariateProducts | pyapprox/multivariate_polynomials.py:537-565 | Succeeds if and only if the first maximum degree is at least the second. There is one entry per pair (d1, d2) with d2 at most min(d1, second maximum), in that order. The entry for (d1, d2) has d1 + d2 + 1 coefficients, each the Gauss projection of p_d1 p_d2 onto one basis polynomial with the (md1 + md2 + 1)-point rule. |
| UnivariateProducts.PairsCount | pyapprox/multivariate_polynomials.py:559-560 | The number of pairs in the first n rows is the running sum of min(d1, lo) + 1. |
| UnivariateProducts.PairsEntries | pyapprox/multivariate_polynomials.py:559-560 | Every listed pair has d1 below the row count and d2 at most min(d1, lo). The flat position of the pair at position k is k. |
| UnivariateProducts.PairsPosition | pyapprox/multivariate_polynomials.py:598-599 | The flat lower-triangular position of (a, b), with b at most min(a, lo), holds exactly the pair (a, b). Position and listing are inverse. |
| UnivariateProducts.ProjectionSymmetric | pyapprox/multivariate_polynomials.py:561-563 | The projection of p_d1 p_d2 equals that of p_d2 p_d1. |
| UnivariateProducts.ProductLookup | pyapprox/multivariate_polynomials.py:595-600 | Looking up a pair the table covers lands inside the table, on an entry of a + b + 1 coefficients. |
| BasisProduct.ExpandCorrect | pyapprox/multivariate_polynomials.py:601-604 | The Cartesian expansion lists every grid point exactly once, each with the product of its univariate coefficients. |
| BasisProduct.KeptTerms | pyapprox/multivariate_polynomials.py:603-607 | After dropping small coefficients, a grid point is kept if and only if its coefficient exceeds the tolerance in absolute value, and kept points stay distinct. |
| BasisProduct.BasisProduct | pyapprox/multivariate_polynomials.py:584-615 | Two all-zero multi-indices give the single zero multi-index with coefficient 1. Otherwise every output multi-index has degree at most ii[d] + jj[d] in each variable, so 0 outside the active ones. Its coefficient is the product of the univariate product coefficients. A term appears if and only if that coefficient exceeds the tolerance in absolute value. The multi-indices are distinct, one per coefficient. |
| BasisProduct.BasisProductSymmetric | pyapprox/multivariate_polynomials.py:595-597 | Because the lookup puts the larger degree first, the product of ii and jj equals the product of jj and ii. |
| Merge.Merge | pyapprox/multivariate_polynomials.py:650 | The result holds each multi-index of the input exactly once, and no other. Its row is the sum of all input rows listed for it. |
| Merge.MergeFind | pyapprox/multivariate_polynomials.py:650 | Looking up any multi-index in the merged list gives its summed coefficient, and zero when it is absent. |
| Merge.MergeDistinctIsIdentity | pyapprox/multivariate_polynomials.py:650 | Merging a list whose multi-indices are already distinct returns it unchanged. |
| Merge.CoefSumAppend | pyapprox/multivariate_polynomials.py:154-161 | The summed coefficient over two concatenated lists is the sum of the two lists' summed coefficients. |
| Merge.FlattenCoefSum | pyapprox/multivariate_polynomials.py:629-650 | The summed coefficient over a sequence of blocks is the sum of each block's summed coefficient. |
| Multiply.PairBlockCoef | pyapprox/multivariate_polynomials.py:643-646 | Block (i, j) gives a multi-index the basis-product coefficient times c1[i] times c2[j], entry-wise. |
| Multiply.AllBlocksCoef | pyapprox/multivariate_polynomials.py:629-650 | All blocks together give a multi-index the sum over every pair (i, j) of c1[i] c2[j] times its coefficient in the basis product of terms i and j. |
| Multiply.BlockMemberBounded | pyapprox/multivariate_polynomials.py:590-610 | Every multi-index in a block has, in each variable, degree at most the sum of the operands' maximum degrees. |
| Multiply.MultiplyExpansions | pyapprox/multivariate_polynomials.py:617-651 | Succeeds if and only if the second operand has no more terms than the first (and at least one), and each coefficient matrix has one row per term. The product has distinct multi-indices within the sum of the operands' maximum degrees. Each row is the bilinear sum over all pairs of terms. Every multi-index, listed or not, gets that bilinear sum, so an unlisted one has a zero sum and no contributing multi-index is missing. |
| Operators.ProductStep | pyapprox/multivariate_polynomials.py:571-579 | For one variable, the step succeeds if and only if md2 <= md1, regrowing every variable's table to md1 + md2 + 1 coefficients succeeds, and the variable has a table afterwards. The expansion returned is the regrown one. Entry m of the pair (d1, d2) is the projection of p_d1 p_d2 onto p_m, with the variable's regrown table and its (md1 + md2 + 1)-point Gauss rule. |
| Operators.ProductTables | pyapprox/multivariate_polynomials.py:567-582 | Success gives, for every variable, a product list shaped for that variable's (larger, smaller) maximum degrees, each projected with one recurrence table; with a single family that table is the one the family generates for hi[d] + lo[d] + 1 coefficients, whatever the earlier variables requested. Any variable whose first degree is below its second makes the call raise. |
| Operators.Product | pyapprox/multivariate_polynomials.py:128-147 | A product exists only for set, compatible operands. Its multi-indices are distinct, one row per multi-index, and each variable's degree is at most the sum of the operands' maximum degrees in it. Every multi-index, listed or not, gets the bilinear sum over all pairs of terms of the operand with more terms and the other one. The sum uses the tables for the per-variable larger and smaller maximum degrees, and is zero for an unlisted multi-index. |
| Operators.ProductCoefficients | pyapprox/multivariate_polynomials.py:128-147 | The operands are admissible and every pair of terms is covered by the tables. Each listed coefficient row, and the lookup of any multi-index, is the bilinear sum over all pairs of terms of the operand with more terms and the other one. |
| Operators.Mul | pyapprox/multivariate_polynomials.py:128-152 | The product is stored on a copy of the left operand, with the same variables, options and width. Its multi-indices are distinct and bounded by the sum of the operands' maximum degrees. The stored expansion gives every multi-index, listed or not, the bilinear sum over all pairs of the operands' terms, zero when unlisted. |
| Operators.MulStoresProduct | pyapprox/multivariate_polynomials.py:148-152 | The stored indices and coefficients are exactly the computed product. |
| Operators.ProductAsWrittenAgreesWhenOrdered | pyapprox/multivariate_polynomials.py:128-143 | The operator as written raises whenever, in some variable, the operand with more terms has the lower maximum degree. When that never happens, it agrees with the corrected product. |
| Operators.MulAsWrittenRejectsHigherSecondDegree | pyapprox/multivariate_polynomials.py:128-143 | The operator as written fails on (1 + p1) * p3 in one variable. |
| Operators.MulCorrectedTablesFor | pyapprox/multivariate_polynomials.py:138-143 | On the same input, with one coefficient row per term, the corrected operator builds its Legendre product tables for degrees (3, 1) and computes the product term list. |
| Operators.CombinedSums | pyapprox/multivariate_polynomials.py:163-166 | Concatenating the lists, with the second operand negated for a difference, gives each multi-index the first operand's coefficient plus, or minus, the second's. |
| Operators.AddMeaning | pyapprox/multivariate_polynomials.py:154-161 | The sum holds exactly the multi-indices of either operand, each once. Each row is the sum of the operands' coefficients for that multi-index, counting a missing one as zero. |
| Operators.SubMeaning | pyapprox/multivariate_polynomials.py:163-170 | The difference holds exactly the multi-indices of either operand, each once. Each row is the first operand's coefficient minus the second's for that multi-index, counting a missing one as zero. |
| Operators.SubSelfIsZero | pyapprox/multivariate_polynomials.py:163-170 | An expansion minus itself has only zero coefficients. |
| Operators.Constant | pyapprox/multivariate_polynomials.py:172-177 | The zeroth power is the single zero multi-index with a row of ones of the operand's width. Its mean is that row and its variance is zero. |
| Operators.Pow | pyapprox/multivariate_polynomials.py:172-183 | Order 0 gives the constant expansion. Orders 1 and below return the operand. Order n at least 1 gives multi-indices of degree at most n times the operand's maximum degree in each variable. |
| Operators.PowStep | pyapprox/multivariate_polynomials.py:180-182 | One multiplication by the operand raises the degree bound from m to m + 1 times the operand's maximum. |
| Operators.DegreeStep | pyapprox/multivariate_polynomials.py:180-182 | Terms of degree at most m times md, times terms of degree at most md, give terms of degree at most (m + 1) times md. |
| Conditional.ActiveVars | pyapprox/multivariate_polynomials.py:471 | The active variables are exactly the variables not fixed, in increasing order without repeats. |
| Conditional.InactiveTables | pyapprox/multivariate_polynomials.py:462-469 | The fixed variables' tables are found if and only if each fixed variable maps to an existing table. |
| Conditional.Scaled | pyapprox/multivariate_polynomials.py:472-479 | Row 0 is unchanged. Every other row of a term is multiplied by the product of the fixed variables' basis values at their samples. Rows past the terms are untouched. |
| Conditional.ConditionalMoments | pyapprox/multivariate_polynomials.py:462-495 | Succeeds if and only if there is one sample row per fixed variable, exactly one sample column, every fixed variable exists and has a table, and there is at least one term with a coefficient row. The mean has the width of the coefficients. The variance is returned exactly when requested. The returned working copy keeps row 0 and multiplies every later term's row by its factor. The mean is row 0 plus the scaled rows of the later terms whose active degrees are all zero, whatever term 0 is. Per quantity of interest, the variance sums the squares of the scaled rows added up per distinct active part, less the squared mean. |
| Conditional.ConditionalMeanIsZeroGroup | pyapprox/multivariate_polynomials.py:471-481 | When the first term has no active degree, the conditional mean is the summed scaled coefficient of all terms with no active degree. This is the group whose square the variance subtracts. |
| Conditional.ConditionalVarianceNonNegative | pyapprox/multivariate_polynomials.py:486-495 | In that case the conditional variance is never negative, because the squared mean is one of the squares it sums. |
| Conditional.NoInactiveMatchesUnconditional | pyapprox/multivariate_polynomials.py:436-496 | With no variable fixed, distinct multi-indices and the constant term first, the conditional mean and variance are the expansion's mean and variance, and the coefficients are unchanged. |
| Conditional.UnconditionalMean | pyapprox/multivariate_polynomials.py:471-481 | With no variable fixed and the constant term first (and only once), the conditional mean is coefficient row 0. |
| Conditional.UnconditionalVariance | pyapprox/multivariate_polynomials.py:486-495 | Under the same conditions the grouped variance equals the sum of squares of rows 1 onward. |

## Left out

- 1D basis evaluation, Gauss quadrature and the orthogonality error of a generated
  basis are floating-point numerics defined outside this module. They are
  uninterpreted parameters (`Providers.Numerics`). Only the column layout of the 1D
  tables is modelled.
- The recurrence generators (Jacobi, Hermite, Krawtchouk, Hahn, discrete Chebyshev,
  modified Chebyshev) are abstracted to a table of the requested size for the
  dispatched family. Their numbers are not modelled.
- Floating-point rounding is not modelled; coefficients are exact reals. The
  drop tolerance `2 * eps` is the named constant `ProductTolerance`, and no claim
  depends on its value.
- `basis_matrix`, `canonical_basis_matrix`, `jacobian`, `value`, `__call__` and the
  monomial fallback are not modelled. They depend on the variable transformation's
  canonical mapping and on `monomial_basis_matrix`, which are not part of this model.
- `get_polynomial_from_variable` and `define_poly_options_from_variable_transformation`
  are not modelled, because they construct objects outside this module.
  `Operators.Add`, `Operators.Sub` and `Operators.Pow` take the freshly built
  expansion as a parameter (`blank`).
- `remove_variables_from_polynomial_chaos_expansion` is not modelled: it uses
  undefined names (`indices`, `pce`, `IndependentMultivariateRandomVariable`).
- `get_tensor_product_quadrature_rule_from_pce` is not modelled: it reads an
  undefined `basis_type_index_map`.
- `add_polynomials`, `cartesian_product`, `outer_product` and
  `flattened_rectangular_lower_triangular_matrix_index` are not part of this model.
  They are specified by meaning (`Merge.Merge`, `BasisProduct.Expand`,
  `UnivariateProducts.FlatLowerTriangularIndex`).
- `Merge.Merge`: no ordering of the merged multi-indices is claimed.
- State left half-updated when an exception is raised mid-call is not modelled. A
  failing call returns `Failure` and no state.
- The quadrature provider (`Numerics.quad`) is total. When a discrete family clamps
  its table below the hi + lo + 1 coefficients a product asks for, the model still
  projects with whatever rule the provider returns, and the product succeeds.
  Whether the source's Gauss rule fails or loses exactness on such a table is not
  modelled.
- Exception kinds are coarse (`PceTypes.Error`), and which of several failing
  checks fires first is not claimed.
- Broadcasting of numpy shapes beyond the cases the source handles (a 1-D index
  array, a 2-D coefficient array) is not modelled.
- `Operators.Pow`: its degree bound is stated only when the operand has indices,
  coefficients and at least one term. It does not state that the result equals the
  (n - 1)-fold product term by term, because that would unfold n multiplications.
  It multiplies with the corrected `Operators.Mul`. As written, `__pow__` (line 182)
  uses `__mul__` as written, so it also raises in the case the Findings table
  describes.
- `Expansion.Configure`: modelled on a fresh object only. Reconfiguring an object
  that already has tables is not modelled.
- The Python `assert` that a monomial basis is the only family (line 293) is
  modelled as a failure. Whether a multi-family configuration may mix monomials in
  is not otherwise modelled.
- `Conditional.ConditionalMoments`: when every variable is fixed, numpy's
  `unique` over an empty set of active rows is not modelled. The model then puts
  all terms in one group.
- Evaluation through a monomial basis, optimizer wrappers and the test files are
  outside this model.

## Findings

| source | as written | input that shows it | evidently intended | confidence | as-written member | corrected member |
|---|---|---|---|---|---|---|
| pyapprox/multivariate_polynomials.py:128-143 | `__mul__` puts first the operand with more terms and passes that operand's per-variable maximum degrees as `max_degree1`. But `compute_univariate_orthonormal_basis_products` asserts `max_degree1 >= max_degree2` (line 543) in every variable. | One Legendre variable: (1 + p1) * p3. The first operand has 2 terms with maximum degree 1; the second has 1 term with maximum degree 3. The assertion 1 >= 3 fails. | Build and look up each variable's product table for (max, min) of the two operands' maximum degrees in that variable. The lookup already orders each pair the same way (lines 596-599). | not executed | Operators.MulAsWrittenRejectsHigherSecondDegree | Operators.MulCorrectedTablesFor |
