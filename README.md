# Weighted power series and polynomial data: a Dafny model

This project models the arithmetic core of the nuthatch rings package:

- the two monomial encodings, `SparseMonomialData` and `PackedMonomialData`;
- `PolynomialData`, a dictionary from monomials to coefficients;
- the structural rules of `PolynomialRing` and `PolynomialRingMorphism`;
- capped weighted power series.

A power series is stored as a list of buckets `(N, g)`, each standing for `g·T^N`, with a precision cap. There are two revisions of this storage: `SeriesData` (nuthatch/rings/series.py) and `_Series` (src/nuthatch/rings/series.py). The model covers them and `PowerSeriesRing`.

Coefficients are integers; the base ring is a tag `RingId`. Python dictionaries are insertion-ordered association lists (`Dicts`). A series is given meaning by flattening it into k[y][T]: the coefficient of y^m·T^N is `Coeff(Flat(s), Graded(N, m))`.

How the model is built:

- Every loop of the code is a `method` proved equal to a specification function.
- The laws are lemmas about those functions:
  - coefficients of sums, differences and products;
  - evaluation;
  - the packing round trip;
  - associativity;
  - powers as n-fold (truncated) products.

Module layout, in dependency order:

- `Wrappers`: `Option`, `Result` and the Python exception kinds.
- `Dicts`: insertion-ordered dictionaries.
- `Sums`: linear bookkeeping, `Coeff`, `Conv` and associativity of `Conv`.
- `Monomials`.
- `Polynomials`.
- `Sorting`: `list.sort()` on integers.
- `PowerLaws` and `PolynomialPower` (powers.dfy). The two square-and-multiply loops are written once. They are generic in a property "x stands for the e-th power" that multiplication must add exponents for, and `Power` instantiates it with `PowerLaws.IsPower`.
- `PolynomialRings`.
- `PolynomialMorphisms`.
- `SeriesBuckets`.
- `SeriesArithmetic`.
- `SeriesProducts`.
- `PowerSeriesRings`.
- `SeriesPower`.
- `SeriesQueries`.
- `SeriesExamples`.

Where the two series revisions differ, both are modelled:

- unflattening by weighted degree versus total degree;
- `__pow__` with and without the `n == 0` case.

The modules state these invariants and ring facts:

- `Polynomials.Valid`: every `PolynomialData` the code builds has distinct keys, nonzero coefficients and well-formed monomials.
- `SeriesPower.Shaped`: ascending buckets of nonnegative degree over the series' own base ring. It is proved for `ring(n)`, `ring(c)`, the generators, `one` and `zero` of a constructed ring, and it is preserved by sums, negation and products over one base ring (`SeriesPower.ShapedCall`, `ShapedGenerator`, `ConstructedShaped`, `ShapedSum`, `ShapedNeg`, `MulShaped`).
- `PolynomialRings.Constructed` and `PowerSeriesRings.Constructed`: what the ring constructors establish.

## Model

| member | source | states |
|---|---|---|
| Monomials.SparseMul | src/nuthatch/rings/polynomials.py:162-193 | the two-pointer loop computes the merge of two sparse tuples |
| Monomials.MergeExpAt | src/nuthatch/rings/polynomials.py:162-193 | the exponent of each variable in a product is the sum of its exponents in the factors |
| Monomials.MergeTotalDegree | src/nuthatch/rings/polynomials.py:162-193 | the total degree of a product is the sum of the total degrees |
| Monomials.MergeWellFormed | src/nuthatch/rings/polynomials.py:162-193 | the product of well-formed tuples (increasing indices, positive exponents) is well formed |
| Monomials.Canonicity | src/nuthatch/rings/polynomials.py:195-196 | two well-formed tuples with the same exponents are equal, so sparse tuple `==` is equality of monomials |
| Monomials.MergeIdentity | src/nuthatch/rings/polynomials.py:162-193 | `()` is a two-sided identity of the sparse product |
| Monomials.MergeComm | src/nuthatch/rings/polynomials.py:162-193 | the sparse product of well-formed tuples is commutative |
| Monomials.MergeAssoc | src/nuthatch/rings/polynomials.py:162-193 | the sparse product of well-formed tuples is associative |
| Monomials.MergeExample | src/nuthatch/rings/polynomials.py:162-193 | (1,2,4,7)·(0,3,3,3,4,1) = (0,3,1,2,3,3,4,8) |
| Monomials.PackSparse | src/nuthatch/rings/polynomials.py:64-69 | `from_sparse_tuple` computes the weight Σ e·B^i |
| Monomials.PackedDegrees | src/nuthatch/rings/polynomials.py:78-90 | `degrees` and the identical loop of `SparseMonomialData.from_packed_integer` compute the nonzero base-B digits of the weight |
| Monomials.PackDense | src/nuthatch/rings/polynomials.py:71-76 | packed `from_tuple` computes Σ v[i]·B^i |
| Monomials.SparseFromDense | src/nuthatch/rings/polynomials.py:145-151 | sparse `from_tuple` keeps the pairs (i, v[i]) with v[i] ≠ 0 |
| Monomials.PackedRoundTrip | src/nuthatch/rings/polynomials.py:64-90 | `from_sparse_tuple(t).degrees == t` for every well-formed tuple whose exponents are below PACKING_BOUND |
| Monomials.WeightInjective | src/nuthatch/rings/polynomials.py:92-96 | on packable tuples equal weights hold exactly when the tuples are equal, so the packed `==` and `hash` agree with sparse equality |
| Monomials.WeightMerge | src/nuthatch/rings/polynomials.py:98-106 | the weight of the sparse product is the sum of the weights |
| Monomials.PackedProduct | src/nuthatch/rings/polynomials.py:98-106 | without overflow, the sum of two weights decodes to the sparse product |
| Monomials.PackedIdentity | src/nuthatch/rings/polynomials.py:98-106 | weight 0 is the monomial 1, the identity of the packed product |
| Monomials.DenseToSparseExpAt | src/nuthatch/rings/polynomials.py:145-151 | the sparse form of a dense vector carries exactly its exponents |
| Monomials.DenseWeightAgrees | src/nuthatch/rings/polynomials.py:71-76 | packed `from_tuple` gives the weight of the sparse form of the vector |
| Monomials.FromPackedAgrees | src/nuthatch/rings/polynomials.py:129-139 | decoding the packed weight of a dense vector with entries in [0, B) gives its sparse form |
| Monomials.WeightExample | src/nuthatch/rings/polynomials.py:64-69 | the weight of (1,2,4,7) is 2·B + 7·B^4 |
| Monomials.DigitsExample | src/nuthatch/rings/polynomials.py:78-90 | that weight decodes back to (1,2,4,7) |
| Monomials.DenseExample | src/nuthatch/rings/polynomials.py:145-151 | (0,2,0,0,7) becomes the sparse (1,2,4,7) |
| Polynomials.New | src/nuthatch/rings/polynomials.py:213-218 | the constructor loop keeps exactly the entries with a nonzero coefficient |
| Polynomials.MakeFacts | src/nuthatch/rings/polynomials.py:213-218 | the constructed data holds exactly the nonzero items of the dictionary, has its coefficients, and is valid for well-formed keys |
| Polynomials.IsZero | src/nuthatch/rings/polynomials.py:220-226 | `is_zero` is true iff every coefficient is 0 |
| Polynomials.ZeroIffEmpty | src/nuthatch/rings/polynomials.py:220-226 | with no zero coefficients stored, being zero is having no terms |
| Polynomials.Lookup | src/nuthatch/rings/polynomials.py:319-324 | the dictionary lookup returns the coefficient of a monomial, and a nonzero one is a stored item |
| Polynomials.EqualsIff | src/nuthatch/rings/polynomials.py:286-289 | `==` (same base ring, equal dictionaries) holds iff base rings and all coefficients agree |
| Polynomials.Add | src/nuthatch/rings/polynomials.py:238-252 | the loop over the shorter dictionary computes the sum function, whichever operand is shorter |
| Polynomials.SumFacts | src/nuthatch/rings/polynomials.py:238-252 | coefficients add, the result lies over `other`'s base ring, and validity is preserved |
| Polynomials.EvalSum | src/nuthatch/rings/polynomials.py:238-252 | evaluation of a sum is the sum of evaluations |
| Polynomials.Neg | src/nuthatch/rings/polynomials.py:257-261 | the negation loop computes the negated dictionary |
| Polynomials.NegationFacts | src/nuthatch/rings/polynomials.py:257-261 | every coefficient is negated, the base ring kept and validity preserved |
| Polynomials.Sub | src/nuthatch/rings/polynomials.py:254-255 | `p - q` is `p + (-q)` |
| Polynomials.DifferenceFacts | src/nuthatch/rings/polynomials.py:254-255 | coefficients subtract and validity is preserved |
| Polynomials.SubSelfZero | src/nuthatch/rings/polynomials.py:254-255 | `p - p` has no terms |
| Polynomials.Scale | src/nuthatch/rings/polynomials.py:277-284 | `__rmul__` by an integer scales every coefficient |
| Polynomials.ScaledFacts | src/nuthatch/rings/polynomials.py:277-284 | the coefficients of `s·p` are s times those of `p`, and validity is preserved |
| Polynomials.Mul | src/nuthatch/rings/polynomials.py:263-275 | the nested loops give `NotImplemented` for different base rings and otherwise the product function |
| Polynomials.ProductFacts | src/nuthatch/rings/polynomials.py:263-275 | the coefficient of m in a product is Σ over pairs whose monomials multiply to m of the coefficient products |
| Polynomials.ProductValid | src/nuthatch/rings/polynomials.py:263-275 | the product of valid data is valid |
| Polynomials.OneIdentity | src/nuthatch/rings/polynomials.py:497-499 | the constant 1 is a two-sided identity of the product |
| Polynomials.ProductEquals | src/nuthatch/rings/polynomials.py:286-289 | the product respects `==` in both arguments |
| Polynomials.ProductAssoc | src/nuthatch/rings/polynomials.py:263-275 | the product is associative coefficient by coefficient |
| Polynomials.ProductAssocEquals | src/nuthatch/rings/polynomials.py:263-275 | the product is associative up to `==` |
| Polynomials.Evaluate | src/nuthatch/rings/polynomials.py:326-334 | `evaluate` raises `IndexError` exactly when a variable has no argument, and otherwise returns Σ c·Π args[i]^e |
| Polynomials.EvalProduct | src/nuthatch/rings/polynomials.py:263-275 | evaluation of a product is the product of evaluations |
| Polynomials.EvalExample | src/nuthatch/rings/polynomials.py:326-334 | x0 + 2·x1·x2 + x3 at (1,2,3,4) is 17 |
| PowerLaws.NFoldValid | src/nuthatch/rings/polynomials.py:291-317 | the n-fold product of valid data is valid, over the same base ring |
| PowerLaws.NFoldAdd | src/nuthatch/rings/polynomials.py:291-317 | p^a · p^b == p^(a+b) |
| PowerLaws.PowStep | src/nuthatch/rings/polynomials.py:291-317 | multiplying a power p^a by a power p^b gives p^(a+b) |
| PowerLaws.SelfPower | src/nuthatch/rings/polynomials.py:300 | `apow = self` stands for p^1 |
| PowerLaws.MulStep | src/nuthatch/rings/polynomials.py:291-317 | that product always succeeds, the base rings agreeing, and stands for p^(a+b) |
| PolynomialPower.LoopExponentValue | src/nuthatch/rings/polynomials.py:308-314 | the exponent the multiply loop accumulates is c + 2·b·k |
| PolynomialPower.PowersMulAdd | src/nuthatch/rings/polynomials.py:291-317 | for valid p, `x * y` of p^a and p^b always succeeds and stands for p^(a+b): the one law the loops rely on |
| PolynomialPower.MulPowers | src/nuthatch/rings/polynomials.py:311-313 | under that law, `apow * res` of two powers is the power of the summed exponent |
| PolynomialPower.SquareWhileEven | src/nuthatch/rings/polynomials.py:300-305 | the squaring loop leaves an odd m and a power p^b with b·m = a·n |
| PolynomialPower.SquareAndMultiply | src/nuthatch/rings/polynomials.py:307-315 | the second loop returns p^(er + 2·ea·n) |
| PolynomialPower.Power | src/nuthatch/rings/polynomials.py:291-317 | `TypeError` exactly for a non-integer or negative exponent, otherwise valid data equal to the n-fold product, with p^0 the constant 1 |
| PolynomialPower.PowerAsWritten | src/nuthatch/rings/polynomials.py:297-298 | the code as written fails exactly for non-integer, negative or zero exponents |
| PolynomialPower.PowerZeroAsWritten | src/nuthatch/rings/polynomials.py:297-298 | `p ** 0` as written raises `AttributeError`, while the intended value is the constant 1 |
| PolynomialRings.UnitWeights | src/nuthatch/rings/polynomials.py:475-476 | the default weights are ngens ones |
| PolynomialRings.GeneratorFacts | src/nuthatch/rings/polynomials.py:484-493 | the generator x_i is valid, its only coefficient is 1 at x_i, and it evaluates to args[i] |
| PolynomialRings.Constant | src/nuthatch/rings/polynomials.py:508-538 | `ring(n)` is valid with coefficient n at `()` and 0 elsewhere |
| PolynomialRings.ConstantEval | src/nuthatch/rings/polynomials.py:508-538 | `ring(n)` evaluates to n everywhere |
| PolynomialRings.Call | src/nuthatch/rings/polynomials.py:508-538 | `TypeError` exactly for a foreign element, foreign data, a foreign scalar or another type; otherwise the conversion branch by branch |
| PolynomialRings.NewRing | src/nuthatch/rings/polynomials.py:457-499 | `ValueError` exactly for a wrong number of weights; otherwise the defaults, the generators x_i, `one` = 1 and `zero` = empty |
| PolynomialMorphisms.NewMorphism | src/nuthatch/rings/polynomials.py:546-576 | success exactly when the base rings match φ, there is one image per generator and each lies in the codomain; `TypeError` otherwise |
| PolynomialMorphisms.NewMorphismAsWritten | src/nuthatch/rings/polynomials.py:562-565 | as written, every admissible morphism fails at the `precision_cap` check |
| PolynomialMorphisms.PrecisionCapRejects | src/nuthatch/rings/polynomials.py:562-565 | admissible arguments raise `AttributeError` as written |
| PolynomialMorphisms.MonomialImage | src/nuthatch/rings/polynomials.py:578-586 | the image of a monomial is Π images[i]^e, with `IndexError` exactly for an index with no image |
| PolynomialMorphisms.MonomialImageAsWritten | src/nuthatch/rings/polynomials.py:582-586 | as written, subscripting the monomial fails for every non-constant monomial |
| PolynomialMorphisms.SubscriptRejects | src/nuthatch/rings/polynomials.py:582-586 | x0·x1 has images but raises `TypeError` as written |
| PolynomialMorphisms.Apply | src/nuthatch/rings/polynomials.py:588-598 | `f ↦ Σ φ(c)·image(m)` is valid over the codomain, with `IndexError` exactly when a monomial has a variable with no image |
| PolynomialMorphisms.ApplyGenerator | src/nuthatch/rings/polynomials.py:588-598 | when φ(1) = 1, the morphism sends x_i to its chosen image |
| PolynomialMorphisms.ImageOfProduct | src/nuthatch/rings/polynomials.py:582-586 | the image of x0·x1 is the product of the two images |
| SeriesArithmetic.Collect | nuthatch/rings/series.py:67-72 | sorting the degrees and keeping the nonzero buckets computes the read-back function |
| SeriesArithmetic.DictOfFacts | nuthatch/rings/series.py:60 | `dict(term_list)` has distinct keys, and every entry it holds comes from the list |
| SeriesArithmetic.DictOfDistinct | nuthatch/rings/series.py:60 | on a list with distinct keys, `dict(term_list)` is the list itself |
| SeriesArithmetic.BelowCapFacts | nuthatch/rings/series.py:61-62 | the kept buckets are those below the cap, with the same coefficients there |
| SeriesArithmetic.Accumulate | nuthatch/rings/series.py:63-66 | `term_dict[n] += c`, or insertion on `KeyError`, adds c into the bucket of degree n |
| SeriesArithmetic.AddSeries | nuthatch/rings/series.py:55-73 | `f + g` computes the sum function |
| SeriesArithmetic.SumSeriesShape | nuthatch/rings/series.py:55-73 | the sum has f's base ring and g's cap, ascending degrees, no zero bucket, and only degrees of g or of f below the cap |
| SeriesArithmetic.SumSeriesCoeffs | nuthatch/rings/series.py:55-73 | each coefficient of the sum is f's (below g's cap) plus g's |
| SeriesArithmetic.NegSeriesFacts | nuthatch/rings/series.py:78-83 | negation keeps degrees, order, cap and validity, and negates every coefficient |
| SeriesArithmetic.SubSeries | nuthatch/rings/series.py:75-76 | `f - g` is `f + (-g)` |
| SeriesArithmetic.DifferenceCoeffs | nuthatch/rings/series.py:75-76 | each coefficient of the difference is f's (below g's cap) minus g's |
| SeriesArithmetic.MulRowInto | nuthatch/rings/series.py:116-123 | the inner loop with its `break` accumulates one row, and fails exactly when a product meets different base rings |
| SeriesArithmetic.MulSeries | nuthatch/rings/series.py:108-130 | `f * g` computes the product function, `TypeError` included |
| SeriesProducts.ProductSeriesShape | nuthatch/rings/series.py:108-130 | `TypeError` exactly when two multiplied buckets lie over different base rings; otherwise ascending buckets below g's cap, over f's base ring, with no zero bucket |
| SeriesProducts.ProductSeriesCoeffs | nuthatch/rings/series.py:108-130 | when the right factor ascends, the product's coefficients are those of the truncated product in k[y][T] |
| SeriesProducts.MulRowKeep | nuthatch/rings/series.py:116-123 | a row keeps the truncated product with the buckets it reaches before the `break` |
| SeriesProducts.ConvBeyondCap | nuthatch/rings/series.py:117-123 | when every degree sum reaches the cap, the truncated product is empty |
| SeriesExamples.AddExample | jacamar/rings/tests/test_series.py:50-52 | buckets at degrees 5 and 8 sum to both buckets, in order |
| SeriesExamples.MulExample | jacamar/rings/tests/test_series.py:63-66 | buckets at degrees 5 and 8 multiply to one bucket at degree 13 |
| SeriesExamples.ProductBeyondCap | nuthatch/rings/series.py:114-130 | when every row breaks at once, the product is the empty series at g's cap |
| SeriesExamples.CubeExample | jacamar/rings/tests/test_series.py:67-89 | with cap 20, T^8·T^8 succeeds and its product with T^8 is the empty series |
| PowerSeriesRings.Call | nuthatch/rings/series.py:382-453 | `ring(0)` is empty, another integer or a scalar is one constant bucket at degree 0 with that coefficient, and data is wrapped unchanged |
| PowerSeriesRings.ZeroScalar | nuthatch/rings/series.py:409-429 | a zero scalar gives one zero bucket, unlike `ring(0)` |
| PowerSeriesRings.MonomialWeight | nuthatch/rings/series.py:472-474 | the inner loop computes Σ weights[i]·e_i |
| PowerSeriesRings.UnitWeightedDegree | nuthatch/rings/series.py:282-283 | under the default unit weights the weighted degree is the total degree |
| PowerSeriesRings.WeightedDegreeSign | nuthatch/rings/series.py:285-292 | positive weights and exponents give a nonnegative degree, zero only for `()` |
| PowerSeriesRings.WeightedDegreeAsWritten | nuthatch/rings/series.py:473-474 | as written, pair i is weighted by weights[2i], with `IndexError` past the end |
| PowerSeriesRings.WeightedDegreeCounterexample | nuthatch/rings/series.py:474 | with weights (1, 5), x1 has weighted degree 5, but the code gives it 1 |
| PowerSeriesRings.UnflattenData | nuthatch/rings/series.py:466-491 | `_unflatten_data` computes the bucketing by weighted degree |
| PowerSeriesRings.UnflattenDataTotal | src/nuthatch/rings/series.py:430-453 | the later revision computes the bucketing by total degree |
| PowerSeriesRings.UnflattenCoeffs | nuthatch/rings/series.py:466-491 | each term lands at its degree, terms at or above the cap are dropped, and nothing else appears |
| PowerSeriesRings.UnflattenShape | nuthatch/rings/series.py:466-491 | the buckets ascend strictly, lie below the cap over the base ring, and are valid when the input is |
| PowerSeriesRings.UnflattenGenerator | nuthatch/rings/series.py:307-310 | x_i unflattens to the single bucket x_i·T^d at its degree d, or to nothing when d reaches the cap |
| PowerSeriesRings.CheckWeights | nuthatch/rings/series.py:289-291 | the check passes iff every weight is positive |
| PowerSeriesRings.GeneratorSeries | nuthatch/rings/series.py:307-310 | the i-th series generator is x_i·T^d under the revision's degree rule |
| PowerSeriesRings.Generators | nuthatch/rings/series.py:307-310 | there is one generator per variable, each as above |
| PowerSeriesRings.NewSeriesRing | nuthatch/rings/series.py:256-310 | `ValueError` exactly for a wrong count or a non-positive weight; otherwise defaults, `one`, `zero` and the generators |
| PowerSeriesRings.NewSeriesMorphism | nuthatch/rings/series.py:515-543 | the checks in their order: `TypeError` for incompatible base rings or count, `ValueError` for a larger codomain cap, `TypeError` for a foreign image |
| SeriesPower.SPowAdd | nuthatch/rings/series.py:132-152 | F^a · F^b has the coefficients of F^(a+b) under truncation, for nonnegative T-degrees |
| SeriesPower.MulShaped | nuthatch/rings/series.py:108-130 | two shaped series over one base ring multiply to a shaped series with the truncated-product coefficients |
| SeriesPower.ShapedCall | nuthatch/rings/series.py:382-453 | `ring(n)` and `ring(c)` are shaped over the ring's base ring |
| SeriesPower.ShapedGenerator | nuthatch/rings/series.py:307-310 | with positive weights, each generator x_i·T^d is shaped over the ring's base ring |
| SeriesPower.ConstructedShaped | nuthatch/rings/series.py:304-310 | a constructed ring's `one`, `zero` and generators are all shaped |
| SeriesPower.ShapedSum | nuthatch/rings/series.py:55-73 | the sum of two shaped series over one base ring is shaped, over that ring |
| SeriesPower.ShapedNeg | nuthatch/rings/series.py:78-83 | the negation of a shaped series is shaped, over the same ring |
| SeriesPower.MulPowers | nuthatch/rings/series.py:148-150 | the product of f^a and f^b is f^(a+b) |
| SeriesPower.SquareWhileEven | nuthatch/rings/series.py:138-142 | the squaring loop leaves an odd m and f^b with b·m = a·n |
| SeriesPower.SquareAndMultiply | nuthatch/rings/series.py:144-152 | the multiply loop returns f^(er + 2·ea·n) |
| SeriesPower.Power | nuthatch/rings/series.py:132-152 | for n ≥ 1, `f ** n` has the coefficients of the n-fold truncated product |
| SeriesPower.PowerOrOne | src/nuthatch/rings/series.py:170-193 | `f ** 0` is the ring's one, and otherwise the n-fold truncated product |
| SeriesPower.PowerOrOneAsWritten | src/nuthatch/rings/series.py:171-172 | as written, the power fails exactly at n = 0 |
| SeriesPower.PowerZeroAsWritten | src/nuthatch/rings/series.py:171-172 | `f ** 0` raises `AttributeError` as written |
| SeriesQueries.CountAtMostOne | nuthatch/rings/series.py:157-167 | no nonzero bucket means all buckets are zero, and at most one nonzero bucket means at most one |
| SeriesQueries.IsHomogeneous | nuthatch/rings/series.py:157-167 | `is_homogeneous` is true iff at most one bucket is nonzero |
| SeriesQueries.ZeroDegree | nuthatch/rings/series.py:169-174 | a degree with no nonzero bucket has no nonzero coefficient |
| SeriesQueries.Degree | nuthatch/rings/series.py:169-174 | -1 for a zero series, otherwise the degree of the last nonzero bucket; nothing above it, and a nonzero coefficient at it |
| SeriesQueries.FiltrationWeight | src/nuthatch/rings/series.py:210-214 | the cap for a zero series, otherwise the degree of the first nonzero bucket; nothing below it, and a nonzero coefficient at it |
| SeriesQueries.GetItem | src/nuthatch/rings/series.py:284-295 | `AssertionError` exactly for a wrong length, otherwise the coefficient of y^degs·T^(degs·weights) |
| SeriesQueries.IsUnit | src/nuthatch/rings/series.py:79-86 | `IndexError` exactly for an empty term list, otherwise, on a shaped series, true iff the constant coefficient is ±1 |
| SeriesQueries.TrueDiv | src/nuthatch/rings/series.py:110-120 | `IndexError` for an empty divisor, `ValueError` exactly for a non-unit, zero for `zero / g`, otherwise `f * inverse` with the truncated-product coefficients |
| SeriesQueries.ZeroHasNoBuckets | nuthatch/rings/series.py:304-305 | a constructed ring's `zero` has no buckets, its cap and its base ring |
| SeriesQueries.NewtonLoop | nuthatch/rings/series.py:216-226 | the doubling loop ends at the least power of two N ≥ cap, after that many Newton steps |

## Left out

- Base rings: coefficients are integers, and the base ring is a tag. FLINT and scalar-ring arithmetic are not modelled, and the units of the coefficient ring are ±1.
- Packed keys inside polynomials: polynomial dictionaries keep sparse keys. The packed encoding is connected to them by the round-trip and product lemmas of `Monomials`.
- `SeriesPower.Power` and `PolynomialPower.Power`: the square-and-multiply loops need n ≥ 1 (series) or n ≥ 0 (polynomials). For n ≤ 0 the series loops do not terminate in the code (`n & 1` and `n >>= 1` at 0), and the model rules those inputs out instead of modelling divergence.
- `SeriesPower.Shaped` and `SeriesProducts.ProductSeriesCoeffs`: the power and product laws require the shape (ascending, nonnegative degrees, one base ring). They are not stated for arbitrary term lists. The shape is proved for what a constructed ring builds and for sums, negations and products. Series passed in as `SeriesData` from elsewhere are not covered.
- `SeriesQueries.NewtonLoop`: the Newton step is a parameter. The model covers the doubling count and the iteration, not the fact that the result is the inverse.
- `SeriesQueries.TrueDiv`: the inverse is passed in as a parameter, and its correctness is not proved.
- `SeriesQueries.FiltrationWeight`, `SeriesQueries.GetItem`, `SeriesQueries.TrueDiv` and `SeriesPower.PowerOrOne`: the ring that `parent()` or `_parent` would return is passed as a parameter.
- `SeriesQueries.FiltrationWeight`: the test `coeff != zero()` is taken as `not coeff.is_zero()`.
- `SeriesQueries.GetItem`: `coeff[degs]` is taken as the lookup of the sparse form of `degs`. `Polynomial.__getitem__` is not part of this model.
- `SeriesQueries.IsUnit`: the nuthatch `Series.is_unit` and `constant_coefficient`, which read the first entry of the bucket dictionary, are not modelled. The src `_Series.is_unit` is.
- `SeriesQueries.Degree` and `SeriesQueries.IsHomogeneous`: the src revision's methods are the same loops and are covered by the same members.
- The `_special` representation and `to_generic`, `_flatten`, `map_coefficients`, `__floordiv__`, `_Series.__rmul__`, `monomials`, `monomial_coefficient`, evaluation `__call__`, `_homogeneous_part`, `is_generator` and `_eliminates_generator` are not modelled. They lie outside the arithmetic core.
- The series morphism's `__call__`: only its constructor's checks are modelled.
- Printing (`__str__`, `__repr__`), `functools.cache` and `cached_property` are not modelled. They do not change results.
- Operator forwarding through `AbstractRingElement` (elements.py) is not part of this model, and neither is the `Polynomial` element wrapper beyond its ring identity.
- `PowerSeriesRings.Call`: the src `__call__` branch for data of other types is not modelled separately. Any non-integer, non-scalar input is wrapped unchanged.
- `PolynomialMorphisms.Apply` and `PolynomialMorphisms.ApplyTo`: `self.coefficient_morphism(self.domain(c)) * self._call_on_monomial(m)` is read as φ(c)·image(m), following the TODO beside it. As written, `self.domain(c)` goes through `PolynomialRing.__call__` (src/nuthatch/rings/polynomials.py:508-538): an `fmpz` coefficient matches no branch there and raises `TypeError`, and an `int` becomes a constant polynomial, so the product is an element product. Neither path is modelled.
- `SeriesQueries.IsUnit`: the src `polynomials.py` defines no `constant_coefficient()`. The model reads `term_list[0][1].constant_coefficient()` as the coefficient of the empty monomial in the first bucket.
- `PowerSeriesRings.UnflattenDataTotal`: the src `polynomials.py` defines neither `_Polynomial` nor `_Monomial`, which src `series.py` imports, and it gives no `degree()` for a monomial. The model reads `m.degree()` as the total degree of the sparse monomial.
- `PowerSeriesRings.NewSeriesMorphism`: models the nuthatch `PowerSeriesRingHomomorphism` constructor. The src one (src/nuthatch/rings/series.py:476-500) is not modelled. As written it reads `coefficient_ring()`, `_ngens` and `_precision_cap`, while the src `PowerSeriesRing` sets only `base_ring`, `ngens` and `precision_cap`, so it raises `AttributeError`.
- `PowerSeriesRings.Call` and `PowerSeriesRings.NewSeriesRing`: skip the `_special` test at nuthatch/rings/series.py:313. `_special` is never set on the polynomial ring, so `self.one = self(1)` would raise `AttributeError` as written. The model takes the generic branch.
- `Sparse`: sparse monomials are sequences of (index, exponent) pairs, so an odd-length flat tuple cannot occur. The `len(t)//2` truncation at src/nuthatch/rings/polynomials.py:67, 331, 402, 432 and 584 and at nuthatch/rings/series.py:473 and 551 is not modelled.
- Object identity: rings and elements compare by identity in Python. Here they carry an `ident` number.

## Findings

| source | as written | input that shows it | evidently intended | confidence | as-written member | corrected member |
|---|---|---|---|---|---|---|
| src/nuthatch/rings/polynomials.py:297-298 | `p ** 0` returns `self.ring.one.data`, but `PolynomialData` has no `ring` attribute | any `PolynomialData` raised to 0 raises `AttributeError` | the constant 1 of the base ring | not executed | PolynomialPower.PowerZeroAsWritten | PolynomialPower.Power |
| src/nuthatch/rings/polynomials.py:562-565 | the polynomial morphism checks `precision_cap`, which `PolynomialRing` does not have | every admissible morphism reaches the check and raises `AttributeError` | no cap check for polynomial rings | not executed | PolynomialMorphisms.PrecisionCapRejects | PolynomialMorphisms.NewMorphism |
| src/nuthatch/rings/polynomials.py:582-586 | `t[2*j]` subscripts a `SparseMonomialData`, which defines no `__getitem__` | x0·x1 raises `TypeError` | read `t.degrees[2*j]` and `t.degrees[2*j+1]` | not executed | PolynomialMorphisms.SubscriptRejects | PolynomialMorphisms.MonomialImage |
| nuthatch/rings/series.py:474 | `weights[2*i]` weights pair i by the weight at position 2i | weights (1, 5): x1 gets degree 1 instead of 5 | `weights[m.degrees[2*i]]`, the weight of the pair's variable | not executed | PowerSeriesRings.WeightedDegreeCounterexample | PowerSeriesRings.UnflattenData |
| src/nuthatch/rings/series.py:171-172 | `f ** 0` returns `self.parent().one()`, but `_Series` defines no `parent` | any series raised to 0 raises `AttributeError` | the ring's one | not executed | SeriesPower.PowerZeroAsWritten | SeriesPower.PowerOrOne |
