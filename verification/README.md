# Fixed-size square matrices and vectors, modelled in Dafny

This project models the exact, structural core of a small Rust linear-algebra
library with two value types. `Matrix<N>` is a square N x N matrix of `f64`.
`Vector<N>` holds N `f64` coordinates. `f64` is abstracted as `real`, and the
dimension N, a const generic in Rust, becomes an explicit `n` checked by the
predicates `IsMatrix` and `IsVector`. A matrix is a `seq<seq<real>>` stored row
by row, and a vector is a `seq<real>`.

Modules, following the source files:

- `Linalg` (linalg.dfy): the representation and the dot product. `DotPrefix`
  accumulates products from index 0 upward, exactly as the loops in `dot`,
  `mult` and `matmult` do. The module also holds the linearity lemmas about it.
- `Matrices` (matrix.dfy) covers `src/matrix.rs`:
  - constructors, `decompose`, `mult`, `matmult`;
  - the row operations `swaprow`, `scalerow`, `subrow`;
  - `scale`, `Add`, `Sub`;
  - `rotation`, with the rotation of a single vector as a parameter.
- `GaussJordan` (gauss_jordan.dfy) covers `Matrix::inverse`:
  - the pivot choice;
  - the forward pass and the back-substitution pass, as loops;
  - the invariant `inverse * A == output`.
- `Vectors` (vector.dfy) covers `src/vector.rs`: constructors and both `From`
  conversions, `basis`, `scale`, `dot`, `mult`, `cross`, `Add`, `Sub`.
- `Genetic` (genetic.dfy) covers the bounds check `check` and the discrete
  crossover `child_discrete`. The random draws of `child_discrete` are inputs.

How `inverse` is modelled:

- Every row operation is applied to both the working copy `output` and the
  accumulator `inverse` (the `Tableau`). So `MatMult(inverse, A) == output`
  holds at every step (`Tracks`).
- After the forward pass, `output` is unit upper-triangular.
- After the back-substitution pass, `output` is the identity. The returned
  accumulator is then a left inverse of A.
- The Rust code divides by the pivot without checking it. With `f64`, a zero
  pivot gives infinities and NaNs. Here that case is an explicit outcome,
  `ZeroPivot(step, tableau)`: it records where the division by zero would
  happen and the state at that point. This replaces a precondition about
  pivots, which could only be stated in terms of intermediate states.
- The run is also written as functions over the tableau. `Step` is one round
  of the first loop, `Run` is the first loop, `Back` is the second loop and
  `InverseRun` is the whole of `inverse`. Each loop method is proved to return
  exactly what these functions compute. So `ZeroPivot` occurs exactly when the
  run meets a zero pivot, and `Done` exactly when it meets none.
- The pivot rule is a parameter. `ExceedsDiagonal` is the library's rule
  (src/matrix.rs:145-150). It picks the last row k at or below the diagonal
  with `output[k][i] > output[i][i]`, or row i if there is none. It does not
  pick the largest value in the column, and it does not pick the largest
  magnitude. `LargestMagnitude` is textbook partial pivoting, used for the
  corrected behaviour described under Findings.

`Vector::mult` is documented as multiplying the matrix by the transpose of the
vector. It actually computes the same matrix-vector product as `Matrix::mult`.
`Vectors.Mult` states that equality. `Vectors.MultIsNotRowTimes` shows that the
result differs from the row-vector product vᵀM.

## Model

The functions that only compute have no row of their own:
- `Zero`, `New`, `Scale`, `Add` and `Sub` in both modules;
- `Linalg.Dot`, `Matrices.Compose`, `Vectors.ToArray`, `Vectors.Cross` and `Vectors.RowTimes`;
- the run functions `GaussJordan.ClearFrom`, `Run`, `BackRow`, `Back` and `InverseRun`.

Their contracts say what the body computes, or which rows it leaves alone.
The lemmas and loop methods below state what the results mean.

| member | source | states |
|---|---|---|
| `Linalg.DotCommutes` | src/vector.rs:69-77 | the dot product is commutative |
| `Linalg.DotUnit` | src/vector.rs:69-77 | dotting with the i-th basis vector, on either side, yields coordinate i |
| `Linalg.DotDifference` | src/vector.rs:69-77 | the dot product is linear in its left operand: (x - s y)·c = x·c - s (y·c) |
| `Matrices.SetDiagonal` | src/matrix.rs:35-37 | after k rounds of the loop in `identity`, diagonal entries 0..k-1 are 1 and every other entry is unchanged |
| `Matrices.Identity` | src/matrix.rs:32-42 | `identity` has 1 at (i,i) and 0 at every (i,j) with i ≠ j |
| `Matrices.Set` | src/matrix.rs:205-209 | writing through `IndexMut` changes entry (i,j) to the new value and no other entry |
| `Matrices.Decompose` | src/matrix.rs:76-86 | `decompose()[j][i]` is entry (i,j): the result lists the columns |
| `Matrices.DecomposeRoundTrip` | src/matrix.rs:66-86 | rebuilding a matrix from its columns gives it back, and decomposing a rebuilt matrix gives back the columns |
| `Matrices.DecomposeExample` | src/matrix.rs:303-318 | the columns of [[1,2,3],[4,5,6],[7,8,9]] are [1,4,7], [2,5,8], [3,6,9] |
| `Matrices.Rotation` | src/matrix.rs:55-71 | `rotation` is a 3 x 3 matrix whose column i is the rotated i-th basis vector |
| `Matrices.RotationMapsBasis` | src/matrix.rs:59-70 | the rotation matrix times the i-th basis vector is that vector's rotated image |
| `Matrices.Mult` | src/matrix.rs:89-99 | `mult(v)[i]` is the sum over j of `self[(i,j)] * v[j]` |
| `Matrices.MultIdentity` | src/matrix.rs:89-99 | `identity().mult(v) == v` for every v |
| `Matrices.MultUnitIsColumn` | src/matrix.rs:76-99 | multiplying by the j-th basis vector gives the j-th column of `decompose` |
| `Matrices.MatMult` | src/matrix.rs:102-114 | `matmult(B)[(i,j)]` is the sum over k of `self[(i,k)] * B[(k,j)]` |
| `Matrices.MatMultIdentity` | src/matrix.rs:102-114 | the identity is a left and a right unit of `matmult` |
| `Matrices.MatMultColumns` | src/matrix.rs:102-114 | column j of A·B is A `mult` (column j of B) |
| `Matrices.MultMatMult` | src/matrix.rs:89-114 | `matmult` composes the linear maps: (A·B)·v = A·(B·v) |
| `Matrices.MatMultExample` | src/matrix.rs:279-301 | [[1,2,3],[4,5,6],[7,8,9]]·[[9,8,7],[6,5,4],[3,2,1]] = [[30,24,18],[84,69,54],[138,114,90]] |
| `Matrices.SwapRow` | src/matrix.rs:117-121 | `swaprow(i,j)` exchanges rows i and j and leaves every other row unchanged |
| `Matrices.SwapRowInvolution` | src/matrix.rs:117-121 | `swaprow(i,i)` is a no-op, and swapping the same rows twice restores the matrix |
| `Matrices.ScaleRow` | src/matrix.rs:124-128 | `scalerow(i,s)` multiplies row i by s and leaves every other row unchanged |
| `Matrices.SubRow` | src/matrix.rs:131-135 | `subrow(i,j,s)` sets row i to row i − s·row j (old values) and leaves every other row, j included, unchanged |
| `Matrices.RowOpsNeutral` | src/matrix.rs:123-135 | `scalerow(i, 1)` and `subrow(i, j, 0)` leave the matrix unchanged |
| `Matrices.MatMultSwapRow` | src/matrix.rs:117-121 | swapping rows of X swaps the same rows of X·A |
| `Matrices.MatMultScaleRow` | src/matrix.rs:124-128 | scaling a row of X scales the same row of X·A |
| `Matrices.MatMultSubRow` | src/matrix.rs:131-135 | subtracting s·row j from row i of X does the same to X·A |
| `Matrices.ScaleLaws` | src/matrix.rs:183-194 | `scale(1)` returns the same matrix, and scaling by t then s is scaling by s·t |
| `Matrices.SubLaws` | src/matrix.rs:211-241 | a − a is the zero matrix, and (a + b) − b = a |
| `GaussJordan.ScanExceeding` | src/matrix.rs:146-150 | the scan from row k returns the last row from k on whose entry exceeds the diagonal entry, or the row chosen so far if there is none |
| `GaussJordan.PivotRow` | src/matrix.rs:145-150 | the pivot row p lies in i..N-1; it is the last p with `output[(p,i)] > output[(i,i)]`, or i if there is none |
| `GaussJordan.LargestPivotRow` | src/matrix.rs:143-150 | the corrected choice: a row in i..N-1 whose entry in column i has the largest magnitude |
| `GaussJordan.LargestPivotNonzero` | src/matrix.rs:143-157 | under the corrected choice, the pivot is zero exactly when the whole column at and below the diagonal is zero |
| `GaussJordan.ExceedsDiagonalChoosesZeroPivot` | src/matrix.rs:145-157 | for diag(−1,1), which is its own inverse, the library's rule swaps in a zero pivot; the corrected rule keeps the nonzero one |
| `GaussJordan.ExceedsDiagonalIsNotLargest` | src/matrix.rs:143-150 | for the column (1,3,2) the library's rule picks the 2, not the largest entry 3 |
| `GaussJordan.SwapKeepsTracking` | src/matrix.rs:152-154 | swapping the same rows in `output` and `inverse` keeps `inverse × A == output` |
| `GaussJordan.ScaleKeepsTracking` | src/matrix.rs:156-159 | scaling the same row in both keeps `inverse × A == output` |
| `GaussJordan.SubKeepsTracking` | src/matrix.rs:161-166 | the same row subtraction in both keeps `inverse × A == output` |
| `GaussJordan.SwapPivotUp` | src/matrix.rs:145-154 | the row chosen by the pivot rule is swapped into row i of both matrices; this keeps the invariant and the reduced columns; under the corrected rule a zero diagonal entry afterwards means the column is zero at and below the diagonal |
| `GaussJordan.NormalisePivotRow` | src/matrix.rs:156-159 | row i of both matrices is multiplied by 1/pivot; with a nonzero pivot this puts 1 on the diagonal and keeps the invariant |
| `GaussJordan.Step` | src/matrix.rs:143-166 | one round of the first loop stops at a zero pivot exactly when the entry of the chosen pivot row in column i is 0, and that stop is at step i; otherwise the diagonal entry of column i ends as 1 |
| `GaussJordan.ClearBelow` | src/matrix.rs:161-166 | after normalising row i, clearing the rows below it completes column i of the unit upper-triangular form; the invariant holds and row indices stay below N |
| `GaussJordan.EliminateColumn` | src/matrix.rs:143-166 | the loop body returns exactly the round `Step` computes; it keeps the invariant and either extends the reduced columns by one or stops at a zero pivot; under the corrected rule, a zero pivot means the column at and below the diagonal is zero |
| `GaussJordan.ForwardPass` | src/matrix.rs:139-167 | the loop returns exactly what `Run` computes from (A, identity); if the run meets no zero pivot, `output` is upper-triangular with unit diagonal and `inverse × A == output` |
| `GaussJordan.SubRightKeepsUpper` | src/matrix.rs:172-175 | in a unit upper-triangular `output`, clearing entry (i, j) with row j keeps the form and extends the cleared part of row i |
| `GaussJordan.BackRowClears` | src/matrix.rs:172-176 | the inner loop of the second pass keeps `inverse × A == output` and the unit upper-triangular form, and clears row i right of the diagonal |
| `GaussJordan.ClearRight` | src/matrix.rs:172-176 | the inner loop of the second pass returns exactly what `BackRow` computes and changes no row but i |
| `GaussJordan.BackClears` | src/matrix.rs:171-177 | the second pass from row i, with the rows above i already identity rows, keeps the invariant and leaves the identity |
| `GaussJordan.BackSubstitution` | src/matrix.rs:169-177 | the loop returns exactly what `Back` computes; from a unit upper-triangular `output` it reaches the identity while keeping `inverse × A == output` |
| `GaussJordan.Inverse` | src/matrix.rs:138-180 | the result is exactly `InverseRun`; if the run meets no zero pivot, the result R satisfies R × A == identity; otherwise the outcome names the step whose pivot is zero |
| `GaussJordan.IdentityPivot` | src/matrix.rs:145-150 | for the identity, both rules choose row i as the pivot of column i |
| `GaussJordan.ClearFromIdentity` | src/matrix.rs:161-166 | clearing below the diagonal changes nothing when `output` is the identity |
| `GaussJordan.StepIdentity` | src/matrix.rs:143-166 | a round of the first loop changes nothing when `output` is the identity |
| `GaussJordan.RunIdentity` | src/matrix.rs:142-167 | once `output` is the identity, the rest of the first loop changes nothing |
| `GaussJordan.BackRowIdentity` | src/matrix.rs:172-176 | the inner loop of the second pass changes nothing when `output` is the identity |
| `GaussJordan.BackIdentity` | src/matrix.rs:171-177 | the second pass changes nothing when `output` is the identity |
| `GaussJordan.InverseOfIdentity` | src/matrix.rs:138-180 | under either rule, `identity().inverse()` completes and returns the identity |
| `GaussJordan.SelfInverseDiagonal` | src/matrix.rs:138-180 | the whole run on diag(−1,1): the library's rule stops at a zero pivot in column 0, and the corrected rule completes with inverse diag(−1,1) |
| `Vectors.ArrayRoundTrip` | src/vector.rs:199-209 | converting an array to a vector and back returns the array, and the other way round |
| `Vectors.Basis` | src/vector.rs:50-54 | `basis()[i][j]` is 1 if i = j and 0 otherwise, because the basis is the columns of the identity |
| `Vectors.BasisOrthonormal` | src/vector.rs:50-77 | `basis()[i].dot(basis()[j])` is 1 if i = j and 0 otherwise |
| `Vectors.ScaleLaws` | src/vector.rs:57-66 | `scale(1)` returns the same vector, and scaling by t then s is scaling by s·t |
| `Vectors.DotScale` | src/vector.rs:57-77 | scaling either operand by s scales the dot product by s |
| `Vectors.Mult` | src/vector.rs:95-106 | `Vector::mult(v, M)` equals `Matrix::mult(M, v)` |
| `Vectors.MultIsNotRowTimes` | src/vector.rs:95-106 | for v = (1,0) and M = [[0,1],[0,0]], `mult` gives (0,0) but vᵀM is (0,1) |
| `Vectors.CrossAntiCommutes` | src/vector.rs:190-196 | `a.cross(b) == b.cross(a).scale(-1)`, and `a.cross(a)` is zero |
| `Vectors.CrossOrthogonal` | src/vector.rs:190-196 | `a.dot(a.cross(b)) == 0` and `b.dot(a.cross(b)) == 0` |
| `Vectors.CrossBasis` | src/vector.rs:190-196 | on the basis, e0 × e1 == e2, e1 × e2 == e0 and e2 × e0 == e1 (right-handed) |
| `Vectors.AddSubLaws` | src/vector.rs:225-251 | (a + b) − b = a, a − a is zero, and + commutes |
| `Vectors.DotAdd` | src/vector.rs:69-77 | the dot product distributes over vector addition |
| `Genetic.CheckFrom` | src/vector.rs:158-172 | the loop from coordinate i returns true exactly when every later coordinate meets its bounds |
| `Genetic.Check` | src/vector.rs:157-173 | `check` is true iff for every i, (`lower[i]` is None or `self[i] >= lower[i]`) and (`upper[i]` is None or `self[i] <= upper[i]`) |
| `Genetic.MissingBoundsNeverFail` | src/vector.rs:157-173 | with no bounds the check passes; a failing check has a coordinate that breaks a bound that is present |
| `Genetic.CheckExample` | src/vector.rs:157-173 | (3,10,−2) fails the bounds lower=(0,−,−), upper=(−,5,−); (3,4,−2) passes them |
| `Genetic.ChildDiscrete` | src/vector.rs:135-154 | given the draws, each coordinate is the mother's (coin < 0.5) or father's value, or, if its mutation draw is below 1/N, the chosen permitted value; the call fails iff a mutation fires with `permitted` empty; every coordinate is the mother's, the father's or a permitted value |

## Left out

- `norm` and `normalize` (src/vector.rs:80-93) are not modelled. They need `powf` and `sqrt`, and the zero vector gives NaN.
- `rotate` (src/vector.rs:181-187) is not modelled: Rodrigues' formula needs `sin` and `cos`. `Matrices.Rotation` takes it as the parameter `rotate`.
- `Matrices.Rotation`: it is stated for an arbitrary `rotate`. So it does not state that the result is a rotation, or that it agrees with `rotate` on vectors other than the basis vectors.
- `child` (src/vector.rs:110-131) is not modelled, because it samples Gaussian noise through foreign random-number and distribution libraries.
- The random source of `child_discrete` is not modelled. The coin, the mutation draw and the index that `choose` picks are inputs, one `GeneDraws` per coordinate. `choose` is modelled as picking `permitted[choice % |permitted|]`, and a failed `unwrap` is the outcome None.
- `Display` for both types (src/matrix.rs:243-276, src/vector.rs:253-282) and the print-only tests are left out; they are cosmetic.
- IEEE-754 behaviour is not modelled: rounding, infinities and NaN. Arithmetic is exact over `real`. One consequence: in `f64`, a NaN coordinate passes `check`, because every comparison with NaN is false. The model has no NaN.
- `GaussJordan.Inverse` does not return the NaN/infinity matrix the library computes after a division by a zero pivot. It returns the explicit `ZeroPivot` outcome instead.
- `GaussJordan.Inverse`: it proves R × A = identity, a left inverse, but not A × R = identity. It also does not prove that a `ZeroPivot` outcome under `LargestMagnitude` means A is singular. It proves only that the pivot column is then zero at and below the diagonal.
- `Index` for both types is Dafny sequence indexing, and `IndexMut` for vectors is sequence update `v[i := x]`. Both need no member of their own.
- `Vectors.Cross`: its own contract states only the length. `CrossBasis` gives the products of the basis pairs, and `CrossAntiCommutes` gives the reversed pairs and a × a = 0. With bilinearity, which the formula has but no lemma states, these fix the product. `CrossOrthogonal` alone would also hold for the zero map.
- `Vectors.New`, `Vectors.ToArray` and `Matrices.New` are the identity on the representation, because a vector or matrix is its array. `new` and both `From` conversions store or return that array unchanged. The round trip is `Vectors.ArrayRoundTrip`.

## Findings

| source | as written | input that shows it | evidently intended | confidence | as-written member | corrected member |
|---|---|---|---|---|---|---|
| src/matrix.rs:143-157 | the pivot is the last row k ≥ i with `output[(k,i)] > output[(i,i)]` (raw values, compared with the diagonal), or i if there is none; line 157 then divides by it unguarded | A = [[−1,0],[0,1]], which is its own inverse: row 1 is chosen because 0 > −1, the swap puts 0 on the diagonal, and line 157 divides by 0 | the "largest pivot" of the comment at line 143: the row of largest magnitude, which is zero only if the whole column at and below the diagonal is zero | high; not executed | `GaussJordan.SelfInverseDiagonal` | `GaussJordan.LargestPivotNonzero` |
