# Verification model of ASCCpp

A Dafny model of three parts of ASCCpp and proofs about them: the dense BLAS
kernels with the storage maps under them, the deterministic random and
quasi-random words, and the schema-driven configuration tree with its
command-line parser. `dafny verify dfyconfig.toml` checks everything.

## What the modules model

**Storage and layouts.** `Storage` describes full, general-band,
triangular-band, packed and strided-vector storage as one `Form`; a `View`
places a form in one flat memory, so that in-place updates, overlap and strides
are real. `Checked` is the 64-bit checked arithmetic with C++ truncating
division. `Descriptors` is the creation of the BLAS views; `Layouts`,
`DenseLayouts`, `CanonicalLayouts`, `LayoutTheorems` and `Views` are dense
layouts of any rank and views on them; `MixedRadix` is the theory of strides
and `ChainedStrides` says when the uniqueness test is exact.

**Kernels.** Scalars are complex numbers over exact reals; a real kernel is the
same kernel on scalars with zero imaginary part (`Scalars.RealElementsClosed`).
`Triangular` states what a triangular product and solution are, without sweeps.
`Level2` and `Level3` are the in-place sweeps and are proved against it;
`RoundTrips` runs them one after the other on one memory, and `Adjoints` runs
them with an operand and with its transpose. `Updates` and `RankK` are the
symmetric and Hermitian updates of a stored triangle; `UpdateForms` says what
they do to the form of the whole matrix, in the inner products of `Forms`.
`Givens`, `Rescaling`, `WeightedNorms`, `Rotations` and
`RotationKernels` are Rotmg and Rotm; `Norm` and `NormKernels` hold the two
implementations of the scaled 2-norm. `VectorOperands` is the strided operands
of Level 1, which accept plain host memory only. `Statuses` gives each kernel's
errors by their conditions.

**Random words.** `Words` are machine words as sequences of bits with their
values. `Sobol`, `SobolNets`, `SobolUnits` and `SobolSequences` are the
direction-word recurrence, the Gray-code point words, their coordinates in the
unit interval and the stateful sequence; `SobolPolynomials` ties the direction
words to the polynomial of their row. `SplitMix`, `Xoroshiro` and `Engines` are
seeding, stepping, jumping and restoring; `Philox` is Philox4x32-10 and its
addressing.

`JumpDistances` proves how far the jumps lead. One walk of each engine from a
suitable state, computed in machine registers, shows that the state satisfies
the characteristic polynomial of the step and that its steps span every state
(`Spans`); so the step satisfies it everywhere, and repeated squaring modulo
the polynomial (`StepPolynomials`, `Frobenius`) reaches the jump polynomials.
`Registers` and `RegisterSteps` tie registers to words, `JumpTables` holds the
registers of the two computations, and `KnownAnswers` derives published outputs.

**Configuration.** `Pointers` is JSON Pointer (sections 3 and 4 of RFC 6901).
`Values`, `Schemas`, `Metadata`, `Validation` and `Configurations` are the value
tree, its validation, the metadata table and path lookup; `Utf8` is the UTF-8
recogniser (sections 3 and 4 of RFC 3629). `Bounds` says which values are valid, node by
node. `CommandOptions`, `CommandTrees` and `CommandLine` are the argument
parser; `Denotations` and `Arguments` are the grammar of what it accepts and
what that stands for, and `Refusals` says why it refuses the rest.

## Results that are not what one might expect

- What Rotmg returns keeps the weighted norm of every pair, annihilates the
  second coordinate and reports the first exactly when at most one rescaling
  iteration runs over both loops, or when the inputs satisfy the equations of
  `Rescaling.Coincidence` (`Rescaling.RotmgPreservesExactly`). From the second
  iteration on the branches at src/dense/blas_level1.cc:282-285 and 307-310 set
  both off-diagonal entries back to one and minus one.
  `Rotations.TwoIterationsCanFail` is an input with neither property.
- The norm alone survives on slightly more inputs: exactly when at most one
  iteration runs, or the inputs coincide, or the inputs with the first
  coordinate negated do (`WeightedNorms.RotmgPreservesNormExactly`).
  `WeightedNorms.NormWithoutAnnihilation` is an input whose norms are all kept
  and whose pair is not annihilated.
- The two norm loops agree exactly when no infinity follows every NaN:
  the vector loop lets a later infinity displace a NaN, the view loop returns at
  the first NaN (`Norm.NormsAgree`, `Norm.NormsDiffer`).
- The uniqueness proof of a layout is sufficient and not necessary
  (`LayoutTheorems.UniquenessTestIsOnlySufficient`). It is exact whenever each
  positive stride, in sorted order, divides the next
  (`ChainedStrides.UniqueIffOneToOne`). For every layout with elements the
  exhaustive flag is exactly bijectivity.
- A left layout is created for every extent list whose sizes fit. A right layout
  is also refused when a product of trailing extents overflows. That never
  happens without a zero extent (`CanonicalLayouts.PositiveSuffixesFit`) and does
  happen with one (`CanonicalLayouts.ZeroDoesNotExcuse`).
- Rotmg, Rotm and both norm kernels refuse pinned host memory, which the Level 2
  and Level 3 kernels accept.
- Skipping can never exhaust a Sobol sequence while stepping can: the skip that
  would land just past the last index is refused
  (`SobolSequences.SobolSequence.Skip`).

## Model

| member | source | states |
|---|---|---|
| Checked.AddIsExact | include/asc/core/types.h:133-157 | checked addition succeeds exactly when the mathematical sum is representable, and then is that sum |
| Checked.MultiplyIsExact | include/asc/core/types.h:165-195 | the division-based guards, under truncating division, reject exactly the products that are not representable |
| Storage.PackedOffsetInRange | src/dense/blas_level2.cc:141-153 | every stored coordinate has a packed offset inside n(n+1)/2, for all four layout/triangle pairs |
| Storage.PackedOffsetInjective | src/dense/blas_level2.cc:141-153 | distinct stored coordinates have distinct packed offsets |
| Storage.PackedOffsetSurjective | src/dense/blas_level2.cc:141-153 | every offset below n(n+1)/2 is the offset of a stored coordinate |
| Storage.PackedOffsetOrder | src/dense/blas_level2.cc:141-153 | column-major storage keeps its coordinates in column order and row-major storage in row order |
| Storage.PackedStepsFit | src/dense/blas_level2.cc:141-153 | the offset formulas as written, subexpression by subexpression, have the packed offset as their value, and every subexpression lies between -1 and n(n+1) |
| Descriptors.CreatedPackedStepsFit | include/asc/dense/blas.h:1298-1322 | on a packed view that was created every subexpression of the offset formulas is a 64-bit integer |
| Storage.OffsetInReach | src/dense/blas_level2.cc:86-160 | every stored coordinate of a full, band, triangular-band, packed or vector form lies in the span its creation validated |
| Storage.OffsetSteps | src/dense/blas_level2.cc:86-140 | in full, general-band and triangular-band storage where the first diagonal entry lies, and that a step along a line is one element and a step to the next line is the leading dimension |
| Storage.SlotIffInLine | src/dense/blas_level2.cc:86-140 | a band stores exactly the coordinates whose element lies inside the height of its own line |
| Storage.OffsetInjective | src/dense/blas_level2.cc:86-160 | distinct stored coordinates of one operand are distinct elements, for every form |
| Storage.NoSharedPlace | src/dense/blas_level2.cc:58-70 | operands that pass the overlap test share no element |
| Statuses.OverlapIff | src/dense/blas_level2.cc:58-70 | the overlap test is positive if and only if some element lies in the reach of both operands |
| Descriptors.CheckedSpanIsExact | include/asc/dense/blas.h:551-582 | the span computation succeeds exactly for well-formed descriptors whose span and intermediate products fit, and yields the span |
| Descriptors.SpanIsRefusedExactly | include/asc/dense/blas.h:551-582 | a refused span is an overflow exactly when the shape is right or only the height of the band does not fit, and an invalid argument otherwise |
| Descriptors.MatrixIsCreatedExactly | include/asc/dense/blas.h:444-490 | a view is created if and only if the shape is right, its span fits and its bytes are aligned, addressable and inside the backing storage; its byte count is exact |
| Descriptors.MatrixIsRefusedExactly | include/asc/dense/blas.h:444-490 | for a right shape, exactly when creation reports an invalid argument and when an overflow |
| Descriptors.CreatedMatrixIsReachable | include/asc/dense/blas.h:444-490 | every entry of a created full, band, triangular-band or packed view lies inside the backing storage |
| Descriptors.CreatedVectorIsReachable | include/asc/dense/blas.h:147-240 | every element of a created vector, with positive or negative increment, lies inside the backing storage |
| Descriptors.VectorIsCreatedExactly | include/asc/dense/blas.h:147-240 | a vector is created if and only if its increment is not zero and its byte range, which runs below the pointer for a negative increment, is aligned, addressable and inside the backing storage; the range is exact |
| Descriptors.VectorIsRefusedExactly | include/asc/dense/blas.h:147-240 | exactly when creating a vector reports an invalid argument and exactly when an overflow; every other refusal is a null pointer or a range outside the backing storage |
| Scalars.RealElementsClosed | src/dense/blas_level2.cc:72-84 | on real elements the complex arithmetic is real arithmetic and conjugation is the identity |
| Triangular.MultiplyStep | src/dense/blas_level2.cc:436-449 | one step of the multiply sweep computes its row from entries not yet overwritten and keeps the finished ones |
| Triangular.SolveStep | src/dense/blas_level2.cc:452-466 | one step of the substitution sweep solves its row from entries already solved |
| Triangular.SolutionIsUnique | src/dense/blas_level2.cc:452-466 | a triangular system with non-zero diagonal has at most one solution |
| Triangular.MultiplyThenSolveRestores | src/dense/blas_level2.cc:403-466 | solving what multiplying produced, with the reciprocal scale, restores every entry |
| Triangular.SolveThenMultiplyRestores | src/dense/blas_level2.cc:403-466 | multiplying the solution, with the reciprocal scale, restores the right-hand side |
| Operands.OperatorIsTriangular | src/dense/blas_level2.cc:320-401 | whatever the storage, the operand read through its accessor and transposition is triangular in its effective direction |
| Operands.OperatorReadsStorage | src/dense/blas_level2.cc:320-401 | the untransposed operand is the stored entry inside the triangle and the band, one on a unit diagonal, and zero elsewhere |
| Operands.SameTriangleSameOperator | src/dense/blas_level2.cc:320-401 | full, band and packed storages that hold the same triangle define the same operator |
| Operands.EntryUndisturbed | src/dense/blas_level2.cc:428-431 | an operand that passed the overlap test reads the same after any writes to the target |
| Level2.AccumulateRow | src/dense/blas_level2.cc:439-445 | the inner loop is the partial row sum of the operator over the current vector |
| Level2.SubtractRow | src/dense/blas_level2.cc:454-460 | the inner loop subtracts the partial row sum from its start |
| Level2.MultiplyVector | src/dense/blas_level2.cc:436-449 | the in-place sweep leaves the operator applied to the old vector and changes nothing else |
| Level2.SolveVector | src/dense/blas_level2.cc:452-466 | with a non-zero diagonal the in-place sweep leaves the solution for the old vector and changes nothing else |
| Level2.TriangularOperation | src/dense/blas_level2.cc:403-466 | Trmv, Tbmv, Tpmv, Trsv, Tbsv and Tpsv: the exact status in check order, no change on failure, product or solution on success |
| Adjoints.TransposeIsAdjoint | src/dense/blas_level2.cc:388-401 | the conjugate-transposed operand is the adjoint of the operand, and the transposed one its transpose without conjugates |
| Adjoints.VectorsAreAdjoint | src/dense/blas_level2.cc:403-466 | a run with the transposed operand that leaves x' from x and a run with the operand that leaves y' from y, on equal memories, give (y, x') = (y', x), for products and for solutions, with conjugates exactly for the conjugate transpose |
| Adjoints.AdjointVectors | src/dense/blas_level2.cc:403-466 | running Trmv or Trsv, or their band and packed forms, both ways leaves vectors in that relation |
| Statuses.TriangularVectorStatus | src/dense/blas_level2.cc:403-431 | the condition of each error of the triangular vector kernels |
| Level3.AccumulateTerms | src/dense/blas_level3.cc:505-510 | the inner loop is the partial sum of products along the line being swept |
| Level3.MultiplyLine | src/dense/blas_level3.cc:501-535 | one column (left) or row (right) becomes the operator applied to its old contents |
| Level3.SolveLine | src/dense/blas_level3.cc:556-597 | one column or row becomes the solution for its old contents |
| Level3.FillZero | src/dense/blas_level3.cc:474-481 | every entry of the matrix becomes zero and nothing else changes |
| Level3.TriangularMultiply | src/dense/blas_level3.cc:483-536 | Trmm leaves alpha op(A) B or alpha B op(A) for every side, triangle, transpose and diagonal choice, and touches only B |
| Level3.TriangularSolve | src/dense/blas_level3.cc:538-598 | Trsm with a non-zero diagonal leaves X with op(A) X = alpha B or X op(A) = alpha B, and touches only B |
| Adjoints.MatricesAreAdjoint | src/dense/blas_level3.cc:144-157 | the same relation between every line of one matrix and every line of the other after Trmm or Trsm, either side, with both alphas |
| Adjoints.AdjointMatrices | src/dense/blas_level3.cc:483-598 | running Trmm or Trsm with the transposed operand and with the operand itself leaves matrices in that relation |
| Statuses.TriangularMatrixStatus | src/dense/blas_level3.cc:432-472 | the condition of each error of Trmm and Trsm |
| Level3.GridSolutionIsUnique | src/dense/blas_level3.cc:538-598 | that X is the only solution |
| Level3.MultiplyThenSolveIsIdentity | src/dense/blas_level3.cc:483-598 | under one operator, a solution with 1/alpha of a product with alpha has the entries of B |
| Level3.SolveThenMultiplyIsIdentity | src/dense/blas_level3.cc:483-598 | under one operator, a product with 1/alpha of a solution with alpha has the entries of B |
| RoundTrips.OperatorKept | src/dense/blas_level3.cc:432-472 | after writes to the target the operand still defines the same operator and is singular or not as before |
| RoundTrips.MultiplyThenSolveVector | src/dense/blas_level2.cc:403-466 | Trmv and then Trsv, or their band and packed forms, run on one memory leave it exactly as it was |
| RoundTrips.SolveThenMultiplyVector | src/dense/blas_level2.cc:403-466 | Trsv and then Trmv, or their band and packed forms, leave the memory exactly as it was |
| RoundTrips.MultiplyThenSolveMatrix | src/dense/blas_level3.cc:483-598 | Trmm with alpha and then Trsm with 1/alpha leave the memory exactly as it was |
| RoundTrips.SolveThenMultiplyMatrix | src/dense/blas_level3.cc:483-598 | Trsm with alpha and then Trmm with 1/alpha leave the memory exactly as it was |
| Updates.UpdateTriangle | src/dense/blas_level2.cc:513-527 | the update loop rewrites each stored entry of the triangle once, from its old value |
| Updates.RewrittenIsUpdated | src/dense/blas_level2.cc:163-221 | then the expanded matrix is the old expanded matrix plus the full rank-one or rank-two update, and a Hermitian diagonal is real |
| Updates.RankOne | src/dense/blas_level2.cc:496-529 | Syr, Spr, Her, Hpr: exact status, and the expanded matrix gains alpha x x^T or alpha x x^H; only the stored triangle changes |
| Updates.RankTwo | src/dense/blas_level2.cc:531-568 | Syr2, Spr2, Her2, Hpr2: the expanded matrix gains the full symmetric or Hermitian rank-two update |
| UpdateForms.UpdatedForm | src/dense/blas_level2.cc:496-568 | for all columns w and z, the form w A z of the expanded matrix gains alpha (w, x)(y, z), and for a rank-two update the mirrored product, with the conjugates of the Hermitian case |
| UpdateForms.RankOneQuadratic | src/dense/blas_level2.cc:496-529 | z^H A z gains alpha times the squared modulus of the inner product of z and x in the Hermitian case; z^T A z gains alpha times its square in the symmetric one |
| Statuses.RankUpdateStatusIs | src/dense/blas_level2.cc:468-512 | the condition of each error of the rank-one and rank-two updates |
| Updates.SameUpdateSameMatrix | src/dense/blas_level2.cc:496-568 | full and packed targets with the same expanded matrix have the same expanded matrix after the same update |
| RankK.RankKUpdate | src/dense/blas_level3.cc:319-430 | Syrk, Syr2k, Herk, Her2k: the expanded output is the full product plus beta times the old expanded output; only the stored triangle changes |
| UpdateForms.RankKForm | src/dense/blas_level3.cc:319-430 | for all columns w and z, the form of the expanded output becomes beta times the old form plus the sum over k of the products of w and z with column k of the operands, conjugated as the kernel asks |
| Statuses.RankKStatusIs | src/dense/blas_level3.cc:295-430 | the condition of each error of Syrk, Syr2k, Herk and Her2k |
| RankK.RewrittenIsRankK | src/dense/blas_level3.cc:319-430 | rewriting each entry of the stored triangle once, with the zero-alpha, zero-beta and diagonal special cases, is the full matrix update |
| MixedRadix.SeparatedIsInjective | include/asc/dense/layout.h:399-437 | strides that each exceed what the axes below cover give distinct positions to distinct coordinates |
| MixedRadix.TightIsSurjective | include/asc/dense/layout.h:383-391 | if moreover the axes cover exactly their size, every position is reached |
| MixedRadix.BijectionIffTight | include/asc/dense/layout.h:383-391 | sorted axes address their positions bijectively if and only if they are separated and tight |
| Layouts.SortSorts | include/asc/dense/layout.h:408-418 | the insertion order is sorted by stride and keeps every dimension once |
| Layouts.AxesCarryLayout | include/asc/dense/layout.h:399-437 | the sorted active dimensions carry the offset, the span and the size of the whole layout |
| DenseLayouts.InsertDimension | include/asc/dense/layout.h:408-418 | the in-place inner loop inserts one dimension into the sorted prefix and leaves the rest |
| DenseLayouts.SortDimensions | include/asc/dense/layout.h:408-418 | the in-place insertion sort equals its specification |
| DenseLayouts.ProveUnique | include/asc/dense/layout.h:399-437 | the test succeeds exactly when the sorted axes are separated and every partial reach is representable |
| DenseLayouts.ValidateExtents | include/asc/dense/layout.h:322-341 | succeeds exactly when no extent is negative and no product before the first zero overflows, with the product as the size; otherwise reports the first of the two failures |
| DenseLayouts.ExtentsStatusIs | include/asc/dense/layout.h:322-341 | the first-failure outcome is success exactly under that condition |
| DenseLayouts.CheckedSpan | include/asc/dense/layout.h:356-381 | the span is one plus the offset of the last coordinate, exactly when that is representable |
| DenseLayouts.CreateValidated | include/asc/dense/layout.h:343-397 | succeeds exactly when sizes and span fit, with the unique and exhaustive flags as computed, and names the first failure otherwise |
| DenseLayouts.CreateStride | include/asc/dense/layout.h:171-186 | a stride layout is created exactly for non-negative strides whose sizes and span fit; the error of each refusal is exact |
| DenseLayouts.Offset | include/asc/dense/layout.h:298-319 | every in-range coordinate has its offset computed without overflow; every other coordinate is refused with the first error met |
| LayoutTheorems.UniqueMeansInjective | include/asc/dense/layout.h:383-397 | if a created layout reports unique, distinct in-range coordinates have distinct offsets below the required span |
| LayoutTheorems.UniquenessTestIsOnlySufficient | include/asc/dense/layout.h:420-437 | extents 3, 2 with strides 2, 3 have distinct offsets although the test fails |
| ChainedStrides.SeparatedIffInjective | include/asc/dense/layout.h:420-437 | on sorted axes whose strides divide one another the test holds if and only if positions are distinct |
| ChainedStrides.UniqueIffOneToOne | include/asc/dense/layout.h:383-397 | a created layout with elements and such strides reports unique if and only if its offset map is one-to-one |
| LayoutTheorems.ExhaustiveIffBijection | include/asc/dense/layout.h:383-397 | a created layout with elements reports exhaustive if and only if its offset map is a bijection onto the offsets below its size |
| CanonicalLayouts.CreateLeft | include/asc/dense/layout.h:103-122 | every left layout whose sizes fit is created, and with elements it is unique and exhaustive; the error of a refusal is exact |
| CanonicalLayouts.CreateRight | include/asc/dense/layout.h:136-156 | exactly which right layouts are created, with the error of each refusal; with elements each is unique and exhaustive |
| CanonicalLayouts.PositiveSuffixesFit | include/asc/dense/layout.h:136-156 | without a zero extent the products of trailing extents fit whenever the sizes do |
| CanonicalLayouts.ZeroDoesNotExcuse | include/asc/dense/layout.h:136-156 | extents 0, 2^32, 2^32 pass validation and their right layout is refused |
| Views.CreatedViewIsValid | include/asc/dense/view.h:115-131 | a view created over a created layout has a unique mapping and an address if it has elements |
| Views.ViewIsRefusedExactly | include/asc/dense/view.h:115-131 | exactly when and with which error creating a view is refused |
| Views.At | include/asc/dense/view.h:259-272 | element access succeeds exactly for host-accessible views and in-range coordinates, at base plus offset; the error of each refusal is exact |
| Views.SubmappingAccepted | include/asc/dense/view.h:286-331 | shrinking the extents of a unique layout can make neither a size nor the span overflow nor the uniqueness re-check fail |
| Views.Subview | include/asc/dense/view.h:286-331 | a subview of a created view succeeds exactly when it is in bounds, and otherwise reports the first bound violated |
| Views.SubviewElement | include/asc/dense/view.h:286-331 | the element at c is the parent's element at offsets + c |
| Views.SubviewsCompose | include/asc/dense/view.h:286-331 | a subview of a subview has the extents and strides of the subview with the offsets added, and equals it exactly when it has elements, or the outer one has none, or the outer offset is zero |
| Givens.BasePreserves | src/dense/blas_level1.cc:234-274 | before rescaling: a rotation results unless the second weight is negative and dominates, it preserves the weighted norm, and its u is positive, so the branch for u <= 0 is dead |
| Rescaling.DistanceDecreases | src/dense/blas_level1.cc:276-322 | both rescaling loops terminate on every non-zero weight |
| Rescaling.ScaledPreserves | src/dense/blas_level1.cc:286-297 | scaling rows and unscaling weights keeps every property of a rotation |
| Rescaling.SecondLoopSurvives | src/dense/blas_level1.cc:301-321 | when the second loop runs last after two or more iterations, the overwritten entries are right exactly on two equations of the inputs |
| Rescaling.FirstLoopSpoils | src/dense/blas_level1.cc:277-299 | two or more iterations of the first loop alone never leave the right entries |
| Rescaling.RotmgPreservesExactly | src/dense/blas_level1.cc:191-342 | the returned matrix preserves the weighted norm, annihilates the second coordinate and reports the first if and only if at most one rescaling iteration runs or the inputs coincide |
| WeightedNorms.DeterminedUpToSign | src/dense/blas_level1.cc:282-310 | off-diagonal entries that satisfy the norm equations are the right ones up to a common sign |
| WeightedNorms.RotmgPreservesNormExactly | src/dense/blas_level1.cc:191-342 | the returned matrix preserves the weighted norm if and only if at most one rescaling iteration runs or the inputs coincide, possibly after negating the first coordinate |
| WeightedNorms.NormWithoutAnnihilation | src/dense/blas_level1.cc:307-310 | weights 2^37 and 2^25 with the pair (1, -1) keep every norm although the pair is not annihilated |
| Rotations.FirstStep | src/dense/blas_level1.cc:277-299 | one iteration of the first loop keeps the closed form of its variables |
| Rotations.SecondStep | src/dense/blas_level1.cc:301-321 | one iteration of the second loop keeps the closed form of its variables |
| Rotations.TwoIterationsCanFail | src/dense/blas_level1.cc:307-310 | weights 16777216 with x1 = 0 and y1 = 1 give a matrix that does not keep the weighted norm |
| Rotations.EncodedDecodes | src/dense/blas_level1.cc:325-342 | the parameters Rotmg writes, read the way Rotm reads them, are the finished matrix |
| Rotations.NormsAreEquations | src/dense/blas_level1.cc:393-411 | the norm equations of the entries hold exactly when every pair keeps its weighted norm |
| Rotations.RotatedNorms | src/dense/blas_level1.cc:393-411 | Rotm with Rotmg's parameters keeps d1 x^2 + d2 y^2 for every pair on exactly the inputs of the norm condition |
| Rotations.RotatedPairs | src/dense/blas_level1.cc:393-411 | under the condition for all three properties Rotm with Rotmg's parameters sends (x1, y1) to (x1', 0) and keeps d1 x^2 + d2 y^2 for every pair |
| RotationKernels.RescaleFirst | src/dense/blas_level1.cc:276-299 | the first while loop ends in the closed form for all its iterations |
| RotationKernels.RescaleSecond | src/dense/blas_level1.cc:300-321 | the second while loop ends with the finished weights, coordinate and entries |
| RotationKernels.Transform | src/dense/blas_level1.cc:225-342 | the branches and loops compute the specified stage on every input |
| RotationKernels.Rotmg | src/dense/blas_level1.cc:191-342 | exact status, the four outputs in place, every other element unchanged |
| Statuses.RotmgStatusIs | src/dense/blas_level1.cc:190-219 | the condition of each error of Rotmg; of several bad operands the first decides |
| RotationKernels.Rotm | src/dense/blas_level1.cc:369-413 | exact status; every pair is mapped by the decoded matrix in place and nothing else changes |
| Statuses.RotmStatusIs | src/dense/blas_level1.cc:369-392 | the condition of each error of Rotm |
| Norm.LargestIsLargest | src/dense/blas_level1.cc:623-626 | the scale is the largest magnitude among the finite values |
| Norm.AddValue | src/dense/blas_level1.cc:604-630 | one finite value keeps scale = max, scale^2 sum = sum of squares, and 1 <= sum <= number of non-zero values |
| Norm.AddScaledSquare | src/dense/blas_level1.cc:604-630 | the loop state with special values: the last of them displaces the others and stops the sum |
| NormKernels.Nrm2Vector | src/dense/blas_level1.cc:633-651 | exact status; the specified norm of a strided real vector is written to the result and nothing else changes |
| NormKernels.Nrm2Complex | src/dense/blas_level1.cc:633-651 | exact status; the norm of the interleaved real and imaginary parts is written to the result and nothing else changes |
| NormKernels.Nrm2View | src/dense/blas.cc:260-302 | the error of each refusal, and otherwise the specified norm of the elements of a dense view |
| Statuses.ReductionStatusIs | src/dense/blas_level1.cc:527-548 | the condition of each error of the vector norms |
| Statuses.ViewStatusIs | src/dense/blas.cc:260-270 | the condition of each error of the view norm |
| Norm.State | src/dense/blas_level1.cc:604-651 | on every input the sum stays between 1 and max(1, n) |
| Norm.NormSquared | src/dense/blas_level1.cc:633-651 | the square of the computed norm of finite values is the sum of squares |
| Norm.NormsAgree | src/dense/blas.cc:271-301 | the two loops agree if and only if the last special value is NaN whenever there is one; in particular on all NaN-free input |
| Norm.NormsDiffer | src/dense/blas_level1.cc:604-618 | a NaN followed by an infinity tells them apart |
| Words.ValueOfDecrement | src/random/quasi.cc:63 | borrowing through the low zeros subtracts one, wrapping at zero |
| Words.ClearLowest | src/random/quasi.cc:63 | masking a word with its predecessor clears exactly the lowest set bit |
| Sobol.InitialShiftIsExact | tools/random/generate_sobol_table.py:69-73 | an accepted initial value loses no bit when shifted into a 64-bit word |
| Sobol.RecurrenceKeepsBit | tools/random/generate_sobol_table.py:91-97 | the recurrence puts the lowest set bit of word i at 63 - i |
| Sobol.TableIsDirections | tools/random/generate_sobol_table.py:82-97 | for every accepted row, word i has its lowest set bit at exactly 63 - i |
| SobolPolynomials.CoefficientSpelled | tools/random/generate_sobol_table.py:91-97 | the bits at which the recurrence tests the coefficient, read from the lowest, spell it |
| SobolPolynomials.TableIffPolynomial | tools/random/generate_sobol_table.py:82-97 | words are the table of a row if and only if the first are its shifted initial values and all others satisfy, in every bit, the linear recurrence of x^s + a_1 x^(s-1) + ... + 1 whose inner coefficients are the binary digits of the coefficient |
| Sobol.DirectionWordsAreDirections | tools/random/generate_sobol_table.py:162-200 | so it is for every dimension, the first included |
| Sobol.DirectionWordsAreUnique | tools/random/generate_sobol_table.py:162-200 | a dimension has one table of direction words |
| Sobol.InitializeDirections | tools/random/generate_sobol_table.py:162-200 | the generated initialiser fills exactly these words, with its two errors |
| Sobol.SelectWords | src/random/quasi.cc:58-64 | the loop over lowest set bits computes the xor of the selected direction words |
| Sobol.SobolWord | src/random/quasi.cc:49-66 | the word of an index is the selection by its Gray code, with the dimension error |
| SobolPolynomials.GrayStep | src/random/quasi.cc:49-66 | the Gray codes of an index and the next differ in exactly the bit of the trailing zeros of the next |
| SobolPolynomials.NextPointWord | src/random/quasi.cc:49-66 | the first point word is zero and the next differs from the one before by exactly that direction word |
| SobolNets.Triangular | src/random/quasi.cc:58-64 | bit 63 - b of a selection depends on Gray bits b and up only, and flips with bit b |
| SobolNets.HitsAtMostOnce | src/random/quasi.cc:49-66 | in an aligned block of 2^k indices at most one has a given top k-bit prefix |
| SobolNets.HitsAtLeastOnce | src/random/quasi.cc:49-66 | and one has, for every block and every prefix |
| SobolNets.PointWordInjective | src/random/quasi.cc:49-66 | distinct 64-bit indices have distinct words |
| SobolNets.PointWordSurjective | src/random/quasi.cc:49-66 | every 64-bit word is the word of an index |
| SobolUnits.UnitInInterval | include/asc/random/quasi.h:182-189 | a coordinate lies in one of 2^k equal intervals exactly when the word has that top k-bit prefix, as far as the precision reaches |
| SobolUnits.UnitIsUnit | include/asc/random/quasi.h:182-189 | every coordinate lies in the half-open unit interval |
| SobolUnits.UnitsAreFractions | include/asc/random/quasi.h:182-189 | the coordinates are exactly the multiples of 2^-24 in single and of 2^-53 in double precision |
| SobolUnits.OnePointPerInterval | include/asc/random/quasi.h:692-699 | of an aligned block of 2^k indices exactly one coordinate falls into each of the 2^k equal intervals |
| SobolSequences.GeneratePoint | include/asc/random/quasi.h:718-731 | writes the coordinate of every dimension, or refuses too many dimensions without writing |
| SobolSequences.SobolSequence.Next | include/asc/random/quasi.h:774-796 | delivers the coordinates of the point at the position and advances; the last index is delivered once and then the sequence ends |
| SobolSequences.SobolSequence.Skip | src/random/quasi.cc:83-94 | advances by count or refuses without change, exactly when it would pass the last index |
| SplitMix.MixInjective | src/random/engine.cc:46-52 | the output mix is injective on 64-bit words |
| SplitMix.MixIsInvertible | src/random/engine.cc:46-52 | the output mix has a two-sided inverse on 64-bit words |
| KnownAnswers.SeedZero | tests/random/stateful_engine_test.cc:32-40 | the first two outputs from seed 0, and the state they seed, are the published ones |
| SplitMix.SuccessiveOutputsDiffer | src/random/engine.cc:46-52 | two successive outputs are never equal |
| SplitMix.SplitMix64.Next | src/random/engine.cc:46-52 | advances the state and returns the mix of the new one |
| Xoroshiro.StepIsInvertible | src/random/engine.cc:130-138 | the step has a two-sided inverse, for both engines |
| Xoroshiro.StepIsLinear | src/random/engine.cc:206-214 | the step is linear over xor |
| Xoroshiro.StepsStayNonzero | src/random/engine.cc:206-214 | no run of steps reaches the zero state from another |
| Xoroshiro.EvaluateIsLinear | src/random/engine.cc:216-230 | every polynomial in the step is linear |
| Xoroshiro.EvaluateCommutesWithSteps | src/random/engine.cc:216-230 | every polynomial commutes with any number of steps |
| Xoroshiro.EvaluationsCommute | src/random/engine.cc:216-246 | any two polynomials in the step commute |
| Spans.EveryStateIsSpanned | src/random/engine.cc:130-138 | a state whose first word is even for all but the last of as many steps as there are bits generates every state by polynomials in the step |
| JumpDistances.TermsArePowers | src/random/engine.cc:206-214 | the step of each engine satisfies its characteristic polynomial on every state |
| Frobenius.SquareApplied | src/random/engine.cc:216-246 | squaring a register modulo that polynomial applies the polynomial it holds twice |
| JumpDistances.JumpIsSteps | src/random/engine.cc:216-230 | a jump is exactly 2^64 steps of the 128-bit engine and 2^32 steps of the 64-bit one, from every state |
| JumpDistances.LongJumpIsSteps | src/random/engine.cc:232-246 | a long jump is exactly 2^96 steps of the 128-bit engine and 2^48 steps of the 64-bit one |
| JumpDistances.StatesRecur | src/random/engine.cc:206-214 | every state recurs after 2^128 - 1 steps of the 128-bit engine and 2^64 - 1 steps of the 64-bit one |
| JumpDistances.JumpsStayNonzero | src/random/engine.cc:140-170 | no jump leads from a non-zero state to zero |
| KnownAnswers.StreamsFromOneAndTwo | tests/random/stateful_engine_test.cc:115-169 | the first three outputs of each engine from the state (1, 2) are the published ones |
| Engines.SeedsAreNonzero | src/random/engine.cc:200-204 | every seed gives the 128-bit engine a non-zero state |
| Engines.ExportRestores | src/random/engine.cc:248-275 | a non-zero state survives export and restore unchanged |
| Engines.RunsRestore | src/random/engine.cc:248-275 | after any number of steps from a seed, restoring the export succeeds and replays the same stream |
| Engines.JumpsCommute | src/random/engine.cc:140-170 | for both engines, both jumps are linear and commute with each other and with any number of steps |
| Engines.Engine.constructor | src/random/engine.cc:200-204 | seeds the state with two successive SplitMix64 outputs |
| Engines.Engine.Next | src/random/engine.cc:206-214 | outputs from the old state and steps it |
| Engines.Engine.JumpBy | src/random/engine.cc:216-230 | the accumulation loop evaluates the polynomial in the step at the old state |
| Engines.Engine.JumpWord | src/random/engine.cc:220-228 | the bit loop moves the terms of one word into the accumulator |
| Engines.Engine.Jump | src/random/engine.cc:216-230 | runs that loop, and so steps the engine 2^64 or 2^32 times |
| Engines.Engine.LongJump | src/random/engine.cc:232-246 | runs that loop, and so steps the engine 2^96 or 2^48 times |
| Engines.Engine.RestoreState | src/random/engine.cc:264-275 | accepts exactly the non-zero snapshots of the current version and changes nothing otherwise |
| Philox.RoundIsInvertible | src/random/engine.cc:23-35 | a round has a two-sided inverse on counters |
| Philox.RoundsAreInvertible | src/random/engine.cc:277-286 | for a fixed key any number of rounds is a permutation of the counters |
| Philox.RoundKeyIsWeyl | src/random/engine.cc:37-42 | the keys of the rounds are two arithmetic progressions modulo 2^32 |
| Philox.Philox4x32 | src/random/engine.cc:277-286 | the loop is ten rounds with nine key bumps |
| Philox.AddressesCount | src/random/engine.cc:288-299 | the counter as a number is the block plus 2^64 times the subsequence, and the key is the stream |
| Philox.BlocksAreDistinct | src/random/engine.cc:288-299 | within a stream distinct (subsequence, block) pairs give distinct blocks |
| Philox.OffsetsReadBlocks | src/random/engine.cc:301-307 | the word at offset o is word o of the blocks laid one after the other |
| Philox.GenerateWord | src/random/engine.cc:301-307 | computes that word |
| Utf8.FirstCharacterEncodes | src/core/configuration.cc:37-95 | what the recogniser takes as a character is the encoding of a Unicode scalar value |
| Utf8.EncodingIsAccepted | src/core/configuration.cc:37-95 | the encoding of a scalar value is taken as one character whatever follows |
| Utf8.IsValidUtf8 | src/core/configuration.cc:37-95 | accepts exactly the concatenations of encodings of Unicode scalar values |
| Utf8.EncodingIsUnique | src/core/configuration.cc:37-95 | an accepted string decodes in one way only |
| Pointers.EscapePathToken | src/core/configuration.cc:97-110 | the escaping loop equals its specification |
| Pointers.UnescapePathToken | src/core/configuration.cc:112-135 | the unescaping loop equals its specification, errors included |
| Pointers.UnescapeIffEscape | src/core/configuration.cc:97-135 | among texts without a separator, exactly the escape of a token unescapes to it |
| Pointers.ParseIffRender | src/utilities/command_line.cc:32-77 | a path parses into tokens if and only if it is their canonical rendering |
| Pointers.RenderInjective | src/core/configuration.cc:137-143 | distinct token lists have distinct paths |
| Values.SpelledDecimal | src/core/configuration.cc:715-731 | the lookup reads the decimal form of an index back without overflow |
| Schemas.ValidateIsIdempotent | src/core/configuration.cc:314-408 | re-validating a validated value against the same schema succeeds and returns it unchanged |
| Bounds.BoundsAreObeyed | src/core/configuration.cc:217-280 | the bounds test holds exactly when every bound present is kept: numbers and the lengths of strings and lists compare, and NaN satisfies no bound |
| Bounds.ValidIff | src/core/configuration.cc:314-408 | a value is valid if and only if every node that has a schema passes: right type, bounds kept, known keys only, and each missing key optional or filled by a valid default, objects measured with their defaults |
| Bounds.OneBadNodeFails | src/core/configuration.cc:314-408 | one node outside a present bound, or otherwise wrong, makes validation fail |
| Bounds.ValidatedObeys | src/core/configuration.cc:314-408 | every node of a validated value keeps the bounds of its schema, with the size of an object taken after its defaults |
| Metadata.ChildRecorded | src/core/configuration.cc:366-396 | recording one more child adds exactly its entries and disturbs none recorded before |
| Validation.RecordDescendants | src/core/configuration.cc:282-310 | records exactly one entry for every node of a value, at its canonical path |
| Validation.ValidateNode | src/core/configuration.cc:314-408 | returns the specified validated copy and records exactly the expected entry of each of its nodes |
| Validation.ValidateFields | src/core/configuration.cc:357-407 | fills an object in any field order with validated, default or absent fields, and measures the result |
| Configurations.Find | src/core/configuration.cc:680-746 | the lookup loop equals its specification, with its error of each kind |
| Configurations.FindFromIsWalk | src/core/configuration.cc:680-746 | a lookup succeeds if and only if the path parses and its tokens lead to that node |
| Configurations.FindsNode | src/core/configuration.cc:680-746 | looking up the canonical path of a node returns that node |
| Configurations.EveryKeyFindsItsNode | src/core/configuration.cc:314-408 | after validation the metadata keys are exactly the canonical paths of the nodes of the output, and each finds its node |
| Configurations.SensitiveIsClosed | src/core/configuration.cc:338-345 | everything below a sensitive node is sensitive |
| Configurations.OriginIsDeepest | src/core/configuration.cc:320-326 | the origin of a node of the input is that of its deepest ancestor-or-self in the map, else the fallback |
| Configurations.RecordedOrigin | src/core/configuration.cc:383-390 | so it is recorded; every node filled in by default has the default origin, whatever the map says |
| Configurations.ValidateConfiguration | src/core/configuration.cc:777-787 | succeeds exactly on valid values, with the table of the output tree |
| Configurations.ValidateWithOrigins | src/core/configuration.cc:789-806 | succeeds exactly when the value is valid and every origin names a node of the output |
| CommandOptions.ParsePointer | src/utilities/command_line.cc:32-77 | the splitting loop equals its specification |
| CommandOptions.FindSchema | src/utilities/command_line.cc:79-96 | the descent loop equals its specification |
| CommandOptions.Create | src/utilities/command_line.cc:288-356 | succeeds exactly on accepted option lists (valid distinct names, distinct destinations at scalar leaves, no negation collision) and otherwise reports the first failure |
| Refusals.AcceptedIff | src/utilities/command_line.cc:288-356 | a parser accepts exactly the options whose names are of letters, digits, dashes and underscores without a leading dash, whose destinations are paths of scalars, without repetition and without an option that spells the negation of a boolean one |
| CommandOptions.DestinationsAreIncomparable | src/utilities/command_line.cc:311-333 | distinct accepted destinations are prefix-free as token lists |
| CommandTrees.InsertionsCommute | src/utilities/command_line.cc:230-261 | insertions at incomparable paths commute |
| CommandTrees.BuildingSucceeds | src/utilities/command_line.cc:488-500 | insertions at pairwise incomparable paths never meet a scalar |
| CommandTrees.SettingIsFound | src/utilities/command_line.cc:488-500 | every inserted value is found at its path in the final tree |
| CommandTrees.OrderDoesNotMatter | src/utilities/command_line.cc:488-500 | the tree is the same for every order of the insertions |
| CommandLine.ScanIsSound | src/utilities/command_line.cc:367-486 | a scan supplies options of the parser, each destination at most once, each with a value of its type |
| CommandLine.RestIsPositional | src/utilities/command_line.cc:372-380 | after a double dash every argument is positional |
| CommandLine.DestinationsNeverOverlap | src/utilities/command_line.cc:242-245 | the overlap error can never occur, and every supplied value is in the tree |
| CommandLine.TreeShape | src/utilities/command_line.cc:230-261 | the built tree has nodes exactly at the prefixes of the supplied destinations, the values at the destinations and objects above them |
| CommandLine.OriginsAlwaysExist | src/core/configuration.cc:798-803 | the missing-origin error can never occur for a parsed command line |
| CommandLine.TreeIgnoresOrder | src/utilities/command_line.cc:488-509 | supplying the same options with the same values in another order builds the same tree |
| CommandLine.ScanArguments | src/utilities/command_line.cc:367-486 | the scanning loop equals its specification |
| Denotations.ParsesIff | src/utilities/command_line.cc:176-228 | a text parses to a value if and only if it denotes it: true or false, an optional minus and decimal digits in range, Unicode; the error of each refusal is exact |
| Arguments.ScansIffWritten | src/utilities/command_line.cc:367-486 | an argument vector scans to a result if and only if some list of items, in any mix of the seven written forms and a tail after a double dash, writes that vector and stands for that result |
| Refusals.RefusedToken | src/utilities/command_line.cc:387-486 | every refused token is refused with the error of the first check that fails: its shape, an unknown option, a destination supplied before, text that is not Unicode, any other value |
| Refusals.ScanStops | src/utilities/command_line.cc:367-486 | a scan that fails does so at a refused token, with its error |
| CommandLine.BuildTree | src/utilities/command_line.cc:488-509 | the building loop equals its specification and its overlap branch is dead |
| CommandLine.ParseArguments | src/utilities/command_line.cc:360-520 | parsing succeeds exactly when the arguments scan and the tree they build is valid |
| Arguments.WrittenScan | src/utilities/command_line.cc:367-486 | distinct options written in any mix of forms (--name=text, --name text, --name, --no-name, -c, -c text) with operands between them scan back to exactly the intended values |

## Left out

- IEEE rounding: the kernels, Rotmg and the norms are exact-real models; infinity and NaN appear in the norms and in the order of configuration doubles only.
- Division by zero: the model gives a value on which no result depends; the solve kernels promise a solution only for a non-zero diagonal.
- Invalid flag values: triangle, transpose, diagonal, side and layout are enumerations, so the errors for values outside them cannot be expressed.
- Matrix-vector and matrix-matrix products that only read their operands (Gemv, Gbmv, Symv, Hemv and their band and packed forms, Gemm, Symm, Hemm), the rank-one update of a full matrix and the element-wise vector kernels: they overwrite nothing they still read, so they would add easier members only.
- The two side-specific loop nests of Trmm, and those of Trsm, are one method on a line, a column for the left side and a row for the right; the order of lines is the source's.
- The symmetric and Hermitian, rank-one and rank-two loops share one body, and every operand lies in one memory of one element type.
- The address-overflow branch of the overlap test: a view that was created has no overflowing end, and views here are ranges of one memory.
- Rotmg, Rotm and the norm kernels on separate allocations: all operands are views of one memory. For the complex norm it is a memory of real cells, two to an element; for the view norm an address is a cell.
- The null-pointer test of the Level 1 vectors: a created vector with elements has a pointer.
- In Rotmg the two inner tests for a non-zero weight are one test before both loops; a first weight of zero comes only with a second of zero. The tests for finite weights are always true for reals.
- The square root is a parameter of the norm kernels; that it is a square root is assumed only by Norm.NormSquared.
- The contents and checksum of the Sobol table: only what parse_rows accepts is assumed. Halton and Latin sampling and PrimeAt are not modelled.
- The exact period: every non-zero state recurs after 2^128 - 1 or 2^64 - 1 steps; that no smaller number does, which needs the prime factors of these, is not shown.
- Non-zero seeding of the 64-bit engine is not claimed: it truncates both outputs to 32 bits. PCG32 is not modelled.
- Both xoroshiro engines are one class with a kind; ExportState and FromState are ExportState and RestoreState on a fresh engine.
- The fields of an object are visited in any order instead of by key; every validation error has the same code, so the order decides only the message, and messages are not modelled.
- Path lookup is proved for values whose lists have at most 2^64 - 1 items, as they do in a machine. The lookup also accepts list indices with leading zeros, unlike section 4 of RFC 6901.
- Schema setters: the model takes any bounds, and validation compares with them as the source does; a schema is a value, so building one in place is not modelled.
- The conversion of text to a double is a parameter of the parser; help text and diagnostic strings are not modelled. Characters stand for bytes.
- CUDA providers, file handles, timers, random devices, sparse views, expression templates, distributions and storage adapters.
