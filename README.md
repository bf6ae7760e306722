# qsharp_rs linear-algebra core, modelled in Dafny

qsharp_rs is a small quantum-computing toolkit written in Rust. This project
models its arithmetic core:

- complex numbers in Cartesian form (`ComplexNumber`) and in polar form
  (`ComplexPolarNumber`);
- the dense complex `Matrix`, with its cell-wise and matrix operators and
  the methods `new`, `from_dimensions`, `IDENTITY`, `determinant`,
  `invert`, `transpose`, `conjugate`, `adjunct`, `unitary`,
  `inner_product`, `outer_product`, `tensor_product`,
  `inverse_tensor_product`, `eigenvalue_from_eigenvector` and
  `eigenvector_from_eigenvalue`;
- the fixed single-qubit gates I, X, Y, Z, H, S and T;
- the `Qubit` (a 2 x 1 column of amplitudes, created in |0⟩) and the
  `System` register that allocates qubits;
- the earlier prototype in `src/main.rs`, with its own `ComplexNumber`,
  `ComplexPolarNumber` and `Matrice`.

Modelling conventions:

- A complex component is a Dafny `real`. The model computes exactly, with
  no f32 rounding (see "Left out").
- A Rust panic becomes `Err(fault)` in a `Result`, or `Panicked(fault)` in a
  `Status` for the in-place methods. `Outcomes.Fault` names the cause.
- A matrix is the value `Matrices.Mat(value, rows, cols)`. Rust's `Matrix`
  derives `Clone` and `PartialEq`, so value semantics fit it.
- The `&mut self` methods are methods of the class `MatrixInPlace.Matrix`.
  They update its fields in place and are proved against the value-level
  functions.
- `ComplexNumber` and `ComplexPolarNumber` are classes whose methods update
  `a`/`b` and `r`/`theta` in place. `System` is a class whose `state`
  sequence `Allocate` extends.

Modules, one per file:

| file | module | models |
|---|---|---|
| outcomes.dfy | Outcomes | panics as faults; `Option`, `Result`, `Status` |
| index_arith.dfy | IndexArith | index arithmetic for the block layouts |
| complex.dfy | ComplexNumbers | `src/complex/mod.rs` |
| matrix_value.dfy | Matrices | `Matrix` as a value: every operation and its algebra |
| matrix_class.dfy | MatrixInPlace | the operator loops and the `&mut self` methods |
| kronecker.dfy | Kronecker | `tensor_product` |
| inverse_tensor.dfy | InverseKronecker | `inverse_tensor_product` |
| eigen.dfy | Eigen | `eigenvalue_from_eigenvector`, `eigenvector_from_eigenvalue` |
| gates.dfy | Gates | `Gate` |
| qubit.dfy | Qubits | `src/qubit/mod.rs` |
| system.dfy | Registers | `src/system/mod.rs` |
| prototype.dfy | Prototype | the parts of `src/main.rs` that differ from the library |

The prototype in `src/main.rs` repeats some library code verbatim:
`conjugate` and `divide` (lines 22-41), `ComplexPolarNumber::multiply`
(lines 97-116), and `Matrice::new` and `from_dimensions` (lines 127-146).
Each of these is modelled once, by the library's member. The prototype's
`add` differs and is modelled in `Prototype`.

Where the code has a defect, the model keeps the code's behaviour as
written. A separate member models what was evidently intended, and a lemma
exhibits the difference (see "## Findings").

## Model

| member | source | states |
|---|---|---|
| ComplexNumbers.NormSquared | src/qubit/mod.rs:19-20 | the weight a² + b² is never negative, and it is zero exactly for 0 + 0i |
| ComplexNumbers.Over | src/complex/mod.rs:49-55 | the quotient formula (ac + bd)/(c² + d²), (bc − ad)/(c² + d²) gives a q with q · divisor = dividend, for every nonzero divisor |
| ComplexNumbers.OverUndoesTimes | src/complex/mod.rs:49-55 | dividing x · y by a nonzero y gives back x |
| ComplexNumbers.NormMultiplicative | src/complex/mod.rs:28-38 | the squared modulus of a product is the product of the squared moduli |
| ComplexNumbers.ComplexNumber.Add | src/complex/mod.rs:16-21 | the number becomes the component-wise sum of its old value and the addend |
| ComplexNumbers.ComplexNumber.ScalarMult | src/complex/mod.rs:22-27 | the number becomes its old value times the real scalar, the same as multiplying by k + 0i |
| ComplexNumbers.ComplexNumber.Mult | src/complex/mod.rs:28-38 | the number becomes the complex product (ac − bd) + (ad + bc)i of its old value and the factor |
| ComplexNumbers.ComplexNumber.Conjugate | src/complex/mod.rs:39-44 | returns the conjugate without changing self; conjugating the result gives self back |
| ComplexNumbers.ComplexNumber.Divide | src/complex/mod.rs:45-58 | returns None exactly when the dividend's real part and the divisor's imaginary part are both zero, and then self is untouched; otherwise self becomes the quotient (for a nonzero divisor) |
| ComplexNumbers.DivideGuardMisjudges | src/complex/mod.rs:46-48 | the guard refuses i / 2, which has the quotient 0.5i, and lets 1 / 0 through |
| ComplexNumbers.CheckedDivide | src/complex/mod.rs:45-58 | the intended divide: it refuses exactly a zero divisor, and otherwise its result times the divisor is the dividend |
| ComplexNumbers.WrapDown | src/complex/mod.rs:129-131 | subtracting TAU while the angle exceeds PI ends at or below PI, and leaves an angle already at or below PI alone |
| ComplexNumbers.WrapDownTurns | src/complex/mod.rs:129-131 | the first loop changes the angle by whole turns only |
| ComplexNumbers.WrapUp | src/complex/mod.rs:132-134 | adding TAU while the angle is below −PI ends at or above −PI, and keeps an angle at or below PI at or below PI |
| ComplexNumbers.WrapUpTurns | src/complex/mod.rs:132-134 | the second loop changes the angle by whole turns only |
| ComplexNumbers.PolarProductNormalised | src/complex/mod.rs:121-140 | the polar product has radius \|r1 · r2\| ≥ 0 and an angle in [−PI, PI]; the angle differs from θ1 + θ2 by whole turns, or from θ1 + θ2 + PI when r1 · r2 is negative |
| ComplexNumbers.PolarProductByOne | src/complex/mod.rs:121-140 | multiplying a normalised polar number by 1∠0 leaves it unchanged |
| ComplexNumbers.ComplexPolarNumber.Mult | src/complex/mod.rs:121-140 | the two while loops terminate, and the number becomes the normalised polar product of its old value and the factor |
| Matrices.New | src/matrix/mod.rs:312-323 | succeeds exactly when there is at least one row and every row is as long as the first; the result holds the given rows; an empty list panics on `value[0]` |
| Matrices.NewOfValid | src/matrix/mod.rs:312-323 | rebuilding a well-formed matrix from its rows gives the same matrix |
| Matrices.Zeros | src/matrix/mod.rs:324-331 | a rows x cols grid whose every cell is 0 |
| Matrices.FromDimensions | src/matrix/mod.rs:324-331 | succeeds exactly when rows ≥ 1 (zero rows panic in `new`), and then gives the all-zero rows x cols matrix |
| Matrices.Identity | src/matrix/mod.rs:305-309 | IDENTITY is a well-formed 2 x 2 matrix |
| Matrices.Column | src/qubit/mod.rs:66-69 | a well-formed 2 x 1 column holding the two given amplitudes |
| Matrices.ScalarMap | src/matrix/mod.rs:54-280 | the scalar operators `matrix + c`, `- c`, `* c` and `/ c` (lines 54-68, 109-123, 164-178, 266-280) keep the shape and combine every cell with c; `/` needs a nonzero c |
| Matrices.ScalarMapValid | src/matrix/mod.rs:54-68 | the scalar operators keep a matrix well-formed |
| Matrices.ApplyScalarInverse | src/matrix/mod.rs:109-123 | per cell, subtracting c undoes adding c, and dividing by a nonzero c undoes multiplying by it |
| Matrices.ScalarMapInverse | src/matrix/mod.rs:266-280 | on whole matrices, `- c` undoes `+ c`, and `/ c` undoes `* c` for nonzero c |
| Matrices.ZipCells | src/matrix/mod.rs:69-86 | cell-wise sum or difference of two same-size matrices: the same shape, and each cell combines the two cells at that position |
| Matrices.Zip | src/matrix/mod.rs:69-141 | `matrix + matrix` (lines 69-86) and `matrix - matrix` (lines 124-141) succeed exactly when the sizes match (otherwise they panic), and then give the cell-wise sum or difference |
| Matrices.ZipCellsLaws | src/matrix/mod.rs:124-141 | cell-wise addition commutes, and subtracting n undoes adding n |
| Matrices.Product | src/matrix/mod.rs:179-218 | the product of conformable matrices is well-formed, m.rows x n.cols, and each cell is the dot product of a row of m with a column of n |
| Matrices.Multiply | src/matrix/mod.rs:179-218 | `matrix * matrix` succeeds exactly when m.cols = n.rows (otherwise it panics), and then gives the matrix product |
| Matrices.IdentityLeft | src/matrix/mod.rs:305-309 | IDENTITY · n = n for every matrix n with two rows |
| Matrices.IdentityRight | src/matrix/mod.rs:305-309 | m · IDENTITY = m for every matrix m with two columns |
| Matrices.Transposed | src/matrix/mod.rs:358-369 | the transpose is cols x rows, and cell (c, r) is the original cell (r, c) |
| Matrices.Transpose | src/matrix/mod.rs:358-369 | succeeds exactly when there is a column (otherwise `from_dimensions` panics on zero rows), and then gives the transpose |
| Matrices.TransposeTwice | src/matrix/mod.rs:358-369 | transposing twice gives back the matrix |
| Matrices.Adjoint | src/matrix/mod.rs:370-381 | the conjugate transpose that `adjunct` evidently means: cell (c, r) is the conjugate of cell (r, c) |
| Matrices.AdjointTwice | src/matrix/mod.rs:370-381 | taking the conjugate transpose twice gives back the matrix |
| Matrices.UnitaryAsWritten | src/matrix/mod.rs:382-385 | `unitary` as written panics on a matrix with no column; otherwise it answers whether m · mᵀ is IDENTITY, because `adjunct` only transposes |
| Matrices.RealMatricesAgree | src/matrix/mod.rs:382-385 | on matrices with real entries, the written test answers exactly whether m · m† = IDENTITY |
| Matrices.TransposedDot | src/matrix/mod.rs:387-393 | the single cell of mᵀ · n is the column dot product Σ m[i][0] · n[i][0] |
| Matrices.ColumnDotSymmetric | src/matrix/mod.rs:387-393 | the column dot product is symmetric |
| Matrices.InnerProduct | src/matrix/mod.rs:387-393 | succeeds exactly when both are single columns of the same length, and then gives their column dot product |
| Matrices.InnerProductSymmetric | src/matrix/mod.rs:387-393 | `inner_product(m, n)` equals `inner_product(n, m)`, including which calls panic |
| Matrices.Outer | src/matrix/mod.rs:394-400 | the outer product of two columns is m.rows x n.rows, and cell (i, j) is m[i] · n[j] |
| Matrices.OuterProduct | src/matrix/mod.rs:394-400 | succeeds exactly when both arguments are single columns, and then gives their outer product |
| Matrices.OuterTransposes | src/matrix/mod.rs:394-400 | swapping the arguments transposes the outer product |
| Matrices.Determinant | src/matrix/mod.rs:332-342 | a 2 x 2 matrix gets ad − bc; every other shape reaches `todo!()` |
| Matrices.Inverse2 | src/matrix/mod.rs:343-357 | the adjugate divided by the determinant is again 2 x 2 |
| Matrices.Invert | src/matrix/mod.rs:343-357 | succeeds exactly for a 2 x 2 matrix with a nonzero determinant, and then gives the adjugate inverse; other shapes reach `todo!()` in `determinant`; a zero determinant is a division by zero |
| Matrices.InverseIsRightInverse | src/matrix/mod.rs:343-357 | m · invert(m) = IDENTITY for every invertible 2 x 2 m |
| MatrixInPlace.BuildFromDimensions | src/matrix/mod.rs:324-331 | the row-pushing loop builds exactly `from_dimensions(rows, cols)` |
| MatrixInPlace.DotProduct | src/matrix/mod.rs:190-206 | the map-and-reduce over a row and a column computes the dot product that specifies each product cell |
| MatrixInPlace.MatrixProduct | src/matrix/mod.rs:179-218 | the nested loops of `matrix * matrix` compute exactly `Multiply`, panic included |
| MatrixInPlace.ScalarOperator | src/matrix/mod.rs:54-68 | the loops of `matrix + c` (and likewise `-`, `*` and `/` at lines 109-123, 164-178 and 266-280) compute exactly the scalar map |
| MatrixInPlace.CellwiseOperator | src/matrix/mod.rs:69-86 | the loops of `matrix + matrix` (and `-` at lines 124-141) compute exactly `Zip`, panic included |
| MatrixInPlace.Matrix.ApplyScalarInPlace | src/matrix/mod.rs:87-289 | `+= c`, `-= c`, `*= c` and `/= c` (lines 87-95, 142-150, 219-227, 281-289) update every cell in place, and the matrix becomes the scalar map of its old value |
| MatrixInPlace.Matrix.ApplyMatrixInPlace | src/matrix/mod.rs:96-163 | `+= matrix` and `-= matrix` (lines 96-108, 151-163) complete exactly when the sizes match, and the matrix becomes the cell-wise sum or difference; otherwise they panic and nothing changes |
| MatrixInPlace.Matrix.MultiplyInPlace | src/matrix/mod.rs:228-265 | `*= matrix` completes exactly when cols = n.rows, and the matrix becomes the product; otherwise it panics and nothing changes |
| MatrixInPlace.Matrix.Invert | src/matrix/mod.rs:343-357 | completes exactly when `Matrices.Invert` succeeds, and the matrix becomes the inverse; otherwise it panics with the same fault and nothing changes |
| MatrixInPlace.Matrix.Transpose | src/matrix/mod.rs:358-369 | completes exactly when there is a column, and the matrix becomes its transpose |
| MatrixInPlace.Matrix.Conjugate | src/matrix/mod.rs:370-377 | the conjugated copy is discarded, so the matrix is unchanged |
| MatrixInPlace.Matrix.Adjunct | src/matrix/mod.rs:378-381 | because `conjugate` changes nothing, `adjunct` leaves exactly the transpose |
| Kronecker.Kron | src/matrix/mod.rs:415-429 | the Kronecker product is (m.rows · n.rows) x (m.cols · n.cols), and each cell is the product of the matching cells of the two factors |
| Kronecker.KronBlock | src/matrix/mod.rs:422 | cell (r · n.rows + rn, c · n.cols + cn) of the product is m[r][c] · n[rn][cn] |
| Kronecker.Tensor | src/matrix/mod.rs:415-429 | `tensor_product` as written succeeds exactly when n has no columns or m.cols ≤ n.rows, because the column stride reads `to_mul.value[c]`; when it succeeds it gives the Kronecker product |
| Kronecker.TensorStridePanics | src/matrix/mod.rs:422 | [[1, 1]] ⊗ [[1]] panics, although its Kronecker product is [[1, 1]] |
| Kronecker.WriteBlock | src/matrix/mod.rs:419-425 | the two inner loops write block (r, c) of the product, or hit the out-of-range stride exactly when c ≥ n.rows and n has columns |
| Kronecker.TensorProduct | src/matrix/mod.rs:415-429 | the zero-filled buffer that the four nested loops write is returned, and it equals `Tensor`: the Kronecker product, or the out-of-range stride panic |
| InverseKronecker.NonzeroSumHasNonzero | src/matrix/mod.rs:488-492 | a base whose cells do not sum to zero has a nonzero cell |
| InverseKronecker.InverseTensor | src/matrix/mod.rs:483-514 | succeeds exactly when the base has a column, the product has at least as many rows as the base, the base's cell sum is nonzero and every index stays in range; the result is (rows / base.rows) x (cols / base.cols) |
| InverseKronecker.AfterGuardShape | src/matrix/mod.rs:494-513 | once the guards pass, the sweep fails exactly when a block index leaves the base |
| InverseKronecker.SweepRowLoop | src/matrix/mod.rs:495-511 | the inner loop over one row succeeds exactly when every base index it computes is in range, and writes exactly the sweep of that row |
| InverseKronecker.InverseTensorProduct | src/matrix/mod.rs:483-514 | the nested loops compute exactly `InverseTensor`, panics included |
| InverseKronecker.InverseTensorUndoesKron | src/matrix/mod.rs:483-514 | for a base whose cells do not sum to zero, `inverse_tensor_product(a ⊗ b, a)` gives back b |
| InverseKronecker.AfterGuardRecovers | src/matrix/mod.rs:494-513 | the sweep over a ⊗ b recovers b whenever a has a nonzero cell |
| InverseKronecker.InverseTensorIntended | src/matrix/mod.rs:488-492 | the intended guard: it refuses exactly a base with no nonzero cell, and otherwise behaves as written |
| InverseKronecker.IntendedAgrees | src/matrix/mod.rs:488-492 | on a base whose cells do not sum to zero, the intended and written versions agree |
| InverseKronecker.IntendedUndoesKron | src/matrix/mod.rs:483-514 | with the intended guard, a ⊗ b is undone for every base with a nonzero cell |
| InverseKronecker.ZeroSumBaseRejected | src/matrix/mod.rs:488-492 | [[1, −1]] ⊗ [[1]] is refused by the written guard, although the intended version recovers [[1]] |
| Eigen.NonzeroCountZero | src/matrix/mod.rs:437-445 | no nonzero entry is counted exactly when the column is all zero |
| Eigen.FirstNonzero | src/matrix/mod.rs:437-445 | finds the first nonzero entry of the column, or its length when there is none |
| Eigen.EigenvalueAsWritten | src/matrix/mod.rs:430-447 | panics unless m is n x n and v has n rows (line 431), and indexes column 0 of v, so a v with no column panics too; every nonzero entry divides row 0 of m · v by v[0][0], so a zero v[0][0] beside a nonzero entry is a division by zero; a value comes back only when v[0][0] is the single nonzero entry; an all-zero column or a second nonzero entry gives None |
| Eigen.EigenvalueFromEigenvector | src/matrix/mod.rs:430-447 | the loop with its early return computes exactly `EigenvalueAsWritten` |
| Eigen.EigenvalueIntended | src/matrix/mod.rs:430-447 | the intended version: the same shape panics, and a value exactly when v has a single nonzero entry |
| Eigen.EigenvalueIntendedRecovers | src/matrix/mod.rs:430-447 | for an eigenpair (m, v, λ) whose v has a single nonzero entry, the intended version returns λ |
| Eigen.EigenvalueAsWrittenRecovers | src/matrix/mod.rs:430-447 | the written version returns λ too when that entry is v[0][0] |
| Eigen.EigenvalueFormsAgree | src/matrix/mod.rs:430-447 | whenever the written version does not fail, the intended one gives the same answer |
| Eigen.EigenvalueWrongRow | src/matrix/mod.rs:439 | for diag(1, 2) and the eigenvector (0, 1), the written version divides by zero, while the intended one returns 2 |
| Eigen.EigenvectorAsWritten | src/matrix/mod.rs:448-482 | succeeds exactly for a matrix of at least 2 x 2 where c = 0 or b ≠ 0 (otherwise the final branch divides by b = 0); the result is a 2 x 1 column |
| Eigen.EigenvectorIntended | src/matrix/mod.rs:448-482 | the intended version succeeds on every matrix of at least 2 x 2 and returns a nonzero 2 x 1 column |
| Eigen.EigenvectorIntendedCorrect | src/matrix/mod.rs:448-482 | for every root λ of the characteristic polynomial of a 2 x 2 m, the intended column is an eigenvector of m for λ |
| Eigen.EigenvectorAsWrittenCorrect | src/matrix/mod.rs:476-481 | with b ≠ 0 and c ≠ 0 the written column (1, (λ − a)/b) is an eigenvector for every root λ |
| Eigen.EigenvectorWrongCase | src/matrix/mod.rs:456-461 | with c = 0, a ≠ λ and b ≠ 0, the written version returns (0, 1), which is not an eigenvector, while the intended one is |
| Eigen.SecondUnitNotEigen | src/matrix/mod.rs:456-461 | (0, 1) is an eigenvector of no 2 x 2 matrix with b ≠ 0 |
| Eigen.EigenvectorWrongCaseWitness | src/matrix/mod.rs:456-461 | [[1, 1], [0, 2]] with λ = 2 meets the conditions of that case |
| Eigen.EigenvectorZeroB | src/matrix/mod.rs:478-479 | [[1, 0], [1, 2]] with λ = 2 makes the written version divide by b = 0, while the intended one returns an eigenvector |
| Gates.Square | src/matrix/mod.rs:520-565 | each gate is built with `Matrix::new` from two rows of two, and is a well-formed 2 x 2 matrix |
| Gates.ProductOfSquares | src/matrix/mod.rs:179-218 | the product of two 2 x 2 matrices is given by the usual four cell formulas |
| Gates.TransposeOfSquare | src/matrix/mod.rs:358-369 | transposing a 2 x 2 matrix swaps b and c |
| Gates.AdjointOfSquare | src/matrix/mod.rs:370-381 | the conjugate transpose of a 2 x 2 matrix swaps b and c and conjugates every cell |
| Gates.ScaledSquare | src/matrix/mod.rs:164-178 | `matrix * k` on a 2 x 2 matrix multiplies each of its four cells by k |
| Gates.IIsIdentity | src/matrix/mod.rs:522-527 | the I gate equals IDENTITY |
| Gates.XInvolution | src/matrix/mod.rs:529-534 | X · X = I |
| Gates.YInvolution | src/matrix/mod.rs:535-540 | Y · Y = I |
| Gates.ZInvolution | src/matrix/mod.rs:541-546 | Z · Z = I |
| Gates.PauliProduct | src/matrix/mod.rs:529-546 | X · Y = i Z |
| Gates.SSquaredIsZ | src/matrix/mod.rs:554-559 | S · S = Z |
| Gates.HSymmetric | src/matrix/mod.rs:548-553 | H equals its transpose |
| Gates.XUnitaryAccepted | src/matrix/mod.rs:382-385 | `unitary` accepts X, and X is unitary |
| Gates.ZUnitaryAccepted | src/matrix/mod.rs:382-385 | `unitary` accepts Z, and Z is unitary |
| Gates.YRejected | src/matrix/mod.rs:382-385 | `unitary` answers false for Y |
| Gates.YUnitary | src/matrix/mod.rs:535-540 | Y · Y† = IDENTITY: Y is unitary |
| Gates.YUnitaryMisjudged | src/matrix/mod.rs:382-385 | `unitary` rejects Y although Y is unitary |
| Gates.SRejected | src/matrix/mod.rs:382-385 | `unitary` answers false for S, since S · Sᵀ = S · S = Z |
| Gates.SUnitary | src/matrix/mod.rs:554-559 | S · S† = IDENTITY: S is unitary |
| Gates.SUnitaryMisjudged | src/matrix/mod.rs:382-385 | `unitary` rejects S although S is unitary |
| Qubits.NewBuildsColumn | src/qubit/mod.rs:66-69 | `Matrix::new` on two one-cell rows succeeds and builds the 2 x 1 column |
| Qubits.NewQubit | src/qubit/mod.rs:64-71 | a fresh qubit is a well-formed 2 x 1 state with amplitudes 1 and 0 |
| Qubits.Ket | src/qubit/mod.rs:33-62 | every id panics, because all named arms sit inside a block comment |
| Qubits.Probability | src/qubit/mod.rs:19-20 | the weight a² + b² of a row is never negative, and it is zero exactly when that amplitude is zero |
| Qubits.NewQubitIsZeroState | src/qubit/mod.rs:64-71 | a fresh qubit is measured as 0 with probability 1 and as 1 with probability 0 |
| Qubits.NewQubitNormalised | src/qubit/mod.rs:64-71 | the two probabilities of a fresh qubit sum to one |
| Qubits.GlobalPhaseKeepsProbabilities | src/qubit/mod.rs:19-20 | multiplying the state by a scalar of modulus one (`matrix * c`) keeps it well-formed and keeps every row's probability |
| Qubits.ApplyToColumn | src/matrix/mod.rs:179-218 | a 2 x 2 matrix times the column (x, y) is (ax + by, cx + dy) |
| Qubits.ZeroStateNormalised | src/qubit/mod.rs:19-20 | a state whose first amplitude has modulus one and whose second is zero has weights adding up to one |
| Qubits.XSwapsAmplitudes | src/matrix/mod.rs:529-534 | the X gate applied to any qubit swaps its two amplitudes, so the probabilities of measuring 0 and 1 trade places |
| Qubits.ZKeepsProbabilities | src/matrix/mod.rs:541-546 | the Z gate applied to any qubit negates the second amplitude and keeps both probabilities |
| Qubits.XFlipsNewQubit | src/matrix/mod.rs:529-534 | the X gate applied to a fresh qubit gives the column (0, 1) |
| Registers.System.constructor | src/system/mod.rs:18-22 | a new register holds no qubits |
| Registers.System.Allocate | src/system/mod.rs:24-27 | appends one fresh \|0⟩ qubit and leaves the others as they were; the returned slot is the new last one, so the `expect` cannot fire; every slot stays well-formed |
| Prototype.Number.Add | src/main.rs:16-21 | the prototype's `add` computes the sum into locals and never stores it, so the number keeps its value |
| Prototype.OnePlusOne | src/main.rs:16-21 | 1 + 1 through the prototype's `add` leaves 1, while the library's `add` leaves 2 |
| Prototype.Matrice.Add | src/main.rs:147-156 | panics exactly on a size mismatch; otherwise every cell goes through the no-op `add`, so the matrix is left exactly as it was |

## Left out

- Floating point: components are exact reals. f32 rounding, NaN and infinities are not modelled. So `ComplexNumber::divide` by 0 + 0i (which the guard can let through) leaves the components unspecified in `ComplexNumbers.ComplexNumber.Divide`. A zero divisor met by a matrix operation is reported as `DivisionByZero`.
- ComplexNumbers.ComplexNumber.Divide: the new value is stated only for a nonzero divisor, because f32 division by zero (NaN or infinity) is not modelled.
- The arithmetic operators on `ComplexNumber` (`+`, `-`, `*`, `/`, `+=`, ...) that the matrix code uses are not part of this model's source files. They are modelled as exact complex arithmetic (`Plus`, `Minus`, `Times`, `Over`). `matrix / c` requires a nonzero c for the same reason.
- The transcendental functions `modulus`, `exp`, `to_polar`, `arbitrary_exp` and `to_cartesian` (in both files) are not modelled: they need sqrt, exp, sin, cos and atan2.
- `normalize` is not modelled: it needs sqrt, and its non-column branch is `todo!()`.
- The rotation gates `R_x`, `R_y`, `R_z` and `R_1` are not modelled, for the same reason.
- Gates.HSymmetric: H and T hold rounded f32 constants, so only the symmetry of H is proved, not that H or T is unitary.
- The `Debug` output is not modelled: the probability bars, the phases and the matrix printing. `Qubits.Probability` models the a² + b² weight it prints.
- `System::dump` is not modelled: it calls `Qubit::measure`, which is not part of this model's source files.
- `main` in both files and the commented-out demo at the end of src/matrix/mod.rs are drivers that print, and are not modelled.
- `Index`/`IndexMut` are modelled as sequence indexing. An out-of-range index is excluded by the callers' `requires` or reported as `IndexOutOfBounds`.
- Returned references (`&Self`, `&mut Qubit`) are not modelled. `Allocate` returns the slot index instead of a mutable reference.
- The in-place `Matrix` methods require a well-formed matrix, which is what `Matrix::new` establishes.
- `ComplexNumbers.WrapDown` and `ComplexNumbers.WrapUp` model the loops on exact reals. They do not model f32 precision loss for huge angles.

## Findings

| source | as written | input that shows it | evidently intended | confidence | as-written member | corrected member |
|---|---|---|---|---|---|---|
| src/main.rs:16-21 | the prototype's `add` stores the sum in two locals and returns self unchanged; `Matrice::add` (lines 147-156) inherits this | 1 + 1 leaves 1 | self becomes the sum, as in src/complex/mod.rs:16-21 | not executed | Prototype.OnePlusOne | ComplexNumbers.ComplexNumber.Add |
| src/complex/mod.rs:46-48 | `divide` refuses when the dividend's real part and the divisor's imaginary part are both zero | i / 2 is refused; 1 / 0 is let through | refuse exactly a zero divisor | not executed | ComplexNumbers.DivideGuardMisjudges | ComplexNumbers.CheckedDivide |
| src/matrix/mod.rs:370-385 | `conjugate` computes the conjugate and discards it, so `adjunct` only transposes and `unitary` tests m · mᵀ | the Y and S gates are reported as not unitary | test m · m† (the conjugate transpose) | not executed | Gates.YUnitaryMisjudged | Matrices.Adjoint |
| src/matrix/mod.rs:422 | the column offset uses `to_mul.value[c].len()`, indexing `to_mul` by a column of `self` | [[1, 1]] ⊗ [[1]] panics | offset `c * to_mul.cols` | not executed | Kronecker.TensorStridePanics | Kronecker.Kron |
| src/matrix/mod.rs:488-492 | the base is refused when its cells sum to zero | base [[1, −1]] with product [[1, −1]] | refuse only a base with no nonzero cell, as the panic message says | not executed | InverseKronecker.ZeroSumBaseRejected | InverseKronecker.InverseTensorIntended |
| src/matrix/mod.rs:439 | the eigenvalue divides row 0 of m · v by v[0][0], whichever entry is nonzero | diag(1, 2) with v = (0, 1) | divide by the nonzero entry found (row r) | not executed | Eigen.EigenvalueWrongRow | Eigen.EigenvalueIntended |
| src/matrix/mod.rs:456-461 | with c = 0 and a ≠ λ the eigenvector returned is (0, 1) | [[1, 1], [0, 2]] with λ = 2 | (b, λ − a) | not executed | Eigen.EigenvectorWrongCase | Eigen.EigenvectorIntended |
