/**
  `Matrix<N>`: square matrices, their constructors, products, elementwise
  arithmetic and the three row operations Gauss-Jordan inversion is built from.
 */
module Matrices {
  import opened Linalg

  /** `zero`: every entry 0. */
  function Zero(n: nat): (m: Matrix)
    ensures IsMatrix(m, n)
    ensures forall i, j :: 0 <= i < n && 0 <= j < n ==> m[i][j] == 0.0
  {
    seq(n, i => seq(n, j => 0.0))
  }

  /** `IndexMut`: overwrite entry (i, j) and nothing else. */
  function Set(m: Matrix, n: nat, i: nat, j: nat, x: real): (r: Matrix)
    requires IsMatrix(m, n) && i < n && j < n
    ensures IsMatrix(r, n)
    ensures r[i][j] == x
    ensures forall p, q :: 0 <= p < n && 0 <= q < n && (p != i || q != j) ==> r[p][q] == m[p][q]
  {
    m[i := m[i][j := x]]
  }

  /** The loop of `identity` after k rounds: diagonal entries 0 .. k-1 set to 1. */
  function SetDiagonal(m: Matrix, n: nat, k: nat): (r: Matrix)
    requires IsMatrix(m, n) && k <= n
    ensures IsMatrix(r, n)
    ensures forall i, j :: 0 <= i < n && 0 <= j < n ==>
      r[i][j] == if i == j && i < k then 1.0 else m[i][j]
    decreases k
  {
    if k == 0 then m else Set(SetDiagonal(m, n, k - 1), n, k - 1, k - 1, 1.0)
  }

  /** `identity`: 1 on the diagonal, 0 everywhere else. */
  function Identity(n: nat): (m: Matrix)
    ensures IsMatrix(m, n)
    ensures forall i, j :: 0 <= i < n && 0 <= j < n ==> m[i][j] == if i == j then 1.0 else 0.0
  {
    SetDiagonal(Zero(n), n, n)
  }

  /** `new`: the matrix holding exactly the given entries. */
  function New(values: Matrix, n: nat): (m: Matrix)
    requires IsMatrix(values, n)
    ensures IsMatrix(m, n)
    ensures forall i, j :: 0 <= i < n && 0 <= j < n ==> m[i][j] == values[i][j]
  {
    values
  }

  /** `decompose`: the columns of m, column j as the j-th vector. */
  function Decompose(m: Matrix, n: nat): (cols: seq<Vector>)
    requires IsMatrix(m, n)
    ensures IsMatrix(cols, n)
    ensures forall i, j :: 0 <= i < n && 0 <= j < n ==> cols[j][i] == m[i][j]
  {
    seq(n, j requires 0 <= j < n => Column(m, n, j))
  }

  /** The matrix whose j-th column is cols[j], as `rotation` packs its rotated basis. */
  function Compose(cols: seq<Vector>, n: nat): (m: Matrix)
    requires IsMatrix(cols, n)
    ensures IsMatrix(m, n)
  {
    seq(n, i requires 0 <= i < n => seq(n, j requires 0 <= j < n => cols[j][i]))
  }

  /**
    `rotation`, for three dimensions, with the rotation of a single vector
    (Rodrigues' formula, which needs sine and cosine) as the parameter `rotate`:
    column i is the image of the i-th basis vector.
   */
  function Rotation(rotate: Vector -> Vector): (r: Matrix)
    requires forall i :: 0 <= i < 3 ==> |rotate(Decompose(Identity(3), 3)[i])| == 3
    ensures IsMatrix(r, 3)
    ensures forall i :: 0 <= i < 3 ==> Decompose(r, 3)[i] == rotate(Decompose(Identity(3), 3)[i])
  {
    var basis := Decompose(Identity(3), 3);
    var images := seq(3, i requires 0 <= i < 3 => rotate(basis[i]));
    assert IsMatrix(images, 3);
    DecomposeRoundTrip(Identity(3), images, 3);
    Compose(images, 3)
  }

  /** The rotation matrix maps each basis vector to its rotated image. */
  lemma RotationMapsBasis(rotate: Vector -> Vector, j: nat)
    requires forall i :: 0 <= i < 3 ==> |rotate(Decompose(Identity(3), 3)[i])| == 3
    requires j < 3
    ensures Mult(Rotation(rotate), Decompose(Identity(3), 3)[j], 3) == rotate(Decompose(Identity(3), 3)[j])
  {
    var basis := Decompose(Identity(3), 3);
    var images := seq(3, i requires 0 <= i < 3 => rotate(basis[i]));
    assert IsMatrix(images, 3);
    DecomposeRoundTrip(Identity(3), images, 3);
    MultUnitIsColumn(Rotation(rotate), basis[j], 3, j);
  }

  /** Rebuilding a matrix from its columns gives it back, and decomposing a composed matrix returns the columns. */
  lemma DecomposeRoundTrip(m: Matrix, cols: seq<Vector>, n: nat)
    requires IsMatrix(m, n) && IsMatrix(cols, n)
    ensures Compose(Decompose(m, n), n) == m
    ensures Decompose(Compose(cols, n), n) == cols
  {
    MatrixExt(Compose(Decompose(m, n), n), m, n);
    MatrixExt(Decompose(Compose(cols, n), n), cols, n);
  }

  /** The `decompose` test: the columns of [[1,2,3],[4,5,6],[7,8,9]]. */
  lemma DecomposeExample()
    ensures Decompose([[1.0, 2.0, 3.0], [4.0, 5.0, 6.0], [7.0, 8.0, 9.0]], 3)
      == [[1.0, 4.0, 7.0], [2.0, 5.0, 8.0], [3.0, 6.0, 9.0]]
  {
    var m := [[1.0, 2.0, 3.0], [4.0, 5.0, 6.0], [7.0, 8.0, 9.0]];
    assert IsMatrix(m, 3);
    MatrixExt(Decompose(m, 3), [[1.0, 4.0, 7.0], [2.0, 5.0, 8.0], [3.0, 6.0, 9.0]], 3);
  }

  /** `mult`: the matrix-vector product, entry i the sum over j of m[i][j] * v[j]. */
  function Mult(m: Matrix, v: Vector, n: nat): (r: Vector)
    requires IsMatrix(m, n) && IsVector(v, n)
    ensures IsVector(r, n)
    ensures forall i :: 0 <= i < n ==> r[i] == Dot(m[i], v)
  {
    seq(n, i requires 0 <= i < n => Dot(m[i], v))
  }

  /** The identity matrix maps every vector to itself. */
  lemma MultIdentity(v: Vector, n: nat)
    requires IsVector(v, n)
    ensures Mult(Identity(n), v, n) == v
  {
    var id := Identity(n);
    forall i | 0 <= i < n
      ensures Mult(id, v, n)[i] == v[i]
    {
      DotUnit(id[i], v, i);
    }
  }

  /** Multiplying by the j-th basis vector yields the j-th column, as `decompose` returns it. */
  lemma MultUnitIsColumn(m: Matrix, e: Vector, n: nat, j: nat)
    requires IsMatrix(m, n) && IsVector(e, n) && j < n && IsUnit(e, j)
    ensures Mult(m, e, n) == Decompose(m, n)[j]
  {
    forall i | 0 <= i < n
      ensures Mult(m, e, n)[i] == m[i][j]
    {
      DotUnit(e, m[i], j);
    }
  }

  /** `matmult`: entry (i, j) is the sum over k of a[i][k] * b[k][j]. */
  function MatMult(a: Matrix, b: Matrix, n: nat): (r: Matrix)
    requires IsMatrix(a, n) && IsMatrix(b, n)
    ensures IsMatrix(r, n)
    ensures forall i, j :: 0 <= i < n && 0 <= j < n ==> r[i][j] == Dot(a[i], Column(b, n, j))
  {
    seq(n, i requires 0 <= i < n => seq(n, j requires 0 <= j < n => Dot(a[i], Column(b, n, j))))
  }

  /** The identity is a unit for the matrix product on both sides. */
  lemma MatMultIdentity(a: Matrix, n: nat)
    requires IsMatrix(a, n)
    ensures MatMult(Identity(n), a, n) == a
    ensures MatMult(a, Identity(n), n) == a
  {
    var id := Identity(n);
    forall i, j | 0 <= i < n && 0 <= j < n
      ensures MatMult(id, a, n)[i][j] == a[i][j]
      ensures MatMult(a, id, n)[i][j] == a[i][j]
    {
      DotUnit(id[i], Column(a, n, j), i);
      DotUnit(Column(id, n, j), a[i], j);
    }
    MatrixExt(MatMult(id, a, n), a, n);
    MatrixExt(MatMult(a, id, n), a, n);
  }

  /** Column j of a product is the left factor applied to column j of the right factor. */
  lemma MatMultColumns(a: Matrix, b: Matrix, n: nat, j: nat)
    requires IsMatrix(a, n) && IsMatrix(b, n) && j < n
    ensures Decompose(MatMult(a, b, n), n)[j] == Mult(a, Decompose(b, n)[j], n)
  {
  }

  /** Entry r is the product of row r of b with the first k coordinates of v. */
  function PartialMult(b: Matrix, v: Vector, n: nat, k: nat): (w: Vector)
    requires IsMatrix(b, n) && IsVector(v, n) && k <= n
    ensures IsVector(w, n)
    ensures forall r :: 0 <= r < n ==> w[r] == DotPrefix(b[r], v, k)
  {
    seq(n, r requires 0 <= r < n => DotPrefix(b[r], v, k))
  }

  /**
    With row[j] == x . (column j of b), summing row[j] * v[j] over the first k
    indices gives x . (b applied to the first k coordinates of v).
   */
  lemma {:induction false} RowOfProduct(x: Vector, row: Vector, b: Matrix, v: Vector, n: nat, k: nat)
    requires IsVector(x, n) && IsVector(row, n) && IsMatrix(b, n) && IsVector(v, n) && k <= n
    requires forall j :: 0 <= j < n ==> row[j] == Dot(x, Column(b, n, j))
    ensures DotPrefix(row, v, k) == Dot(x, PartialMult(b, v, n, k))
    decreases k
  {
    var w := PartialMult(b, v, n, k);
    if k == 0 {
      DotScaled(w, w, x, 0.0);
      DotCommutes(x, w);
    } else {
      RowOfProduct(x, row, b, v, n, k - 1);
      var w0 := PartialMult(b, v, n, k - 1);
      var col := Column(b, n, k - 1);
      DotDifference(w0, col, w, x, -v[k - 1]);
      DotCommutes(x, w);
      DotCommutes(x, w0);
      DotCommutes(x, col);
    }
  }

  /** The matrix product composes the linear maps: (a b) v == a (b v). */
  lemma MultMatMult(a: Matrix, b: Matrix, v: Vector, n: nat)
    requires IsMatrix(a, n) && IsMatrix(b, n) && IsVector(v, n)
    ensures Mult(MatMult(a, b, n), v, n) == Mult(a, Mult(b, v, n), n)
  {
    var ab := MatMult(a, b, n);
    forall i | 0 <= i < n
      ensures Mult(ab, v, n)[i] == Mult(a, Mult(b, v, n), n)[i]
    {
      RowOfProduct(a[i], ab[i], b, v, n, n);
      assert PartialMult(b, v, n, n) == Mult(b, v, n);
    }
  }

  /** The `matrix_multiply` test. */
  lemma MatMultExample()
    ensures MatMult([[1.0, 2.0, 3.0], [4.0, 5.0, 6.0], [7.0, 8.0, 9.0]],
                    [[9.0, 8.0, 7.0], [6.0, 5.0, 4.0], [3.0, 2.0, 1.0]], 3)
      == [[30.0, 24.0, 18.0], [84.0, 69.0, 54.0], [138.0, 114.0, 90.0]]
  {
    var a := [[1.0, 2.0, 3.0], [4.0, 5.0, 6.0], [7.0, 8.0, 9.0]];
    var b := [[9.0, 8.0, 7.0], [6.0, 5.0, 4.0], [3.0, 2.0, 1.0]];
    var c := [[30.0, 24.0, 18.0], [84.0, 69.0, 54.0], [138.0, 114.0, 90.0]];
    assert IsMatrix(a, 3) && IsMatrix(b, 3) && IsMatrix(c, 3);
    forall i, j | 0 <= i < 3 && 0 <= j < 3
      ensures MatMult(a, b, 3)[i][j] == c[i][j]
    {
      Dot3(a[i], Column(b, 3, j));
    }
    MatrixExt(MatMult(a, b, 3), c, 3);
  }

  /** `swaprow`: rows i and j exchanged. */
  function SwapRow(m: Matrix, n: nat, i: nat, j: nat): (r: Matrix)
    requires IsMatrix(m, n) && i < n && j < n
    ensures IsMatrix(r, n)
    ensures r[i] == m[j] && r[j] == m[i]
    ensures forall p :: 0 <= p < n && p != i && p != j ==> r[p] == m[p]
  {
    m[i := m[j]][j := m[i]]
  }

  /** Swapping a row with itself changes nothing, and swapping twice restores the matrix. */
  lemma SwapRowInvolution(m: Matrix, n: nat, i: nat, j: nat)
    requires IsMatrix(m, n) && i < n && j < n
    ensures SwapRow(m, n, i, i) == m
    ensures SwapRow(SwapRow(m, n, i, j), n, i, j) == m
  {
  }

  /** `scalerow`: row i multiplied entrywise by s. */
  function ScaleRow(m: Matrix, n: nat, i: nat, s: real): (r: Matrix)
    requires IsMatrix(m, n) && i < n
    ensures IsMatrix(r, n)
    ensures forall k :: 0 <= k < n ==> r[i][k] == m[i][k] * s
    ensures forall p :: 0 <= p < n && p != i ==> r[p] == m[p]
  {
    m[i := seq(n, k requires 0 <= k < n => m[i][k] * s)]
  }

  /**
    `subrow`: row i minus s times row j. Each entry reads row j before row i's
    entry in the same column is written, so i == j gives row i times (1 - s).
   */
  function SubRow(m: Matrix, n: nat, i: nat, j: nat, s: real): (r: Matrix)
    requires IsMatrix(m, n) && i < n && j < n
    ensures IsMatrix(r, n)
    ensures forall k :: 0 <= k < n ==> r[i][k] == m[i][k] - s * m[j][k]
    ensures forall p :: 0 <= p < n && p != i ==> r[p] == m[p]
  {
    m[i := seq(n, k requires 0 <= k < n => m[i][k] - s * m[j][k])]
  }

  /** Scaling a row by 1 and subtracting 0 times a row leave the matrix unchanged. */
  lemma RowOpsNeutral(m: Matrix, n: nat, i: nat, j: nat)
    requires IsMatrix(m, n) && i < n && j < n
    ensures ScaleRow(m, n, i, 1.0) == m
    ensures SubRow(m, n, i, j, 0.0) == m
  {
    assert ScaleRow(m, n, i, 1.0)[i] == m[i];
    assert SubRow(m, n, i, j, 0.0)[i] == m[i];
  }

  /** A row swap on the left factor is the same row swap on the product. */
  lemma MatMultSwapRow(x: Matrix, a: Matrix, n: nat, i: nat, j: nat)
    requires IsMatrix(x, n) && IsMatrix(a, n) && i < n && j < n
    ensures MatMult(SwapRow(x, n, i, j), a, n) == SwapRow(MatMult(x, a, n), n, i, j)
  {
    MatrixExt(MatMult(SwapRow(x, n, i, j), a, n), SwapRow(MatMult(x, a, n), n, i, j), n);
  }

  /** Scaling a row of the left factor scales the same row of the product. */
  lemma MatMultScaleRow(x: Matrix, a: Matrix, n: nat, i: nat, s: real)
    requires IsMatrix(x, n) && IsMatrix(a, n) && i < n
    ensures MatMult(ScaleRow(x, n, i, s), a, n) == ScaleRow(MatMult(x, a, n), n, i, s)
  {
    var lhs := MatMult(ScaleRow(x, n, i, s), a, n);
    var rhs := ScaleRow(MatMult(x, a, n), n, i, s);
    forall p, q | 0 <= p < n && 0 <= q < n
      ensures lhs[p][q] == rhs[p][q]
    {
      if p == i {
        DotScaled(x[i], ScaleRow(x, n, i, s)[i], Column(a, n, q), s);
      }
    }
    MatrixExt(lhs, rhs, n);
  }

  /** Subtracting a multiple of one row from another in the left factor does the same to the product. */
  lemma MatMultSubRow(x: Matrix, a: Matrix, n: nat, i: nat, j: nat, s: real)
    requires IsMatrix(x, n) && IsMatrix(a, n) && i < n && j < n
    ensures MatMult(SubRow(x, n, i, j, s), a, n) == SubRow(MatMult(x, a, n), n, i, j, s)
  {
    var lhs := MatMult(SubRow(x, n, i, j, s), a, n);
    var rhs := SubRow(MatMult(x, a, n), n, i, j, s);
    forall p, q | 0 <= p < n && 0 <= q < n
      ensures lhs[p][q] == rhs[p][q]
    {
      if p == i {
        DotDifference(x[i], x[j], SubRow(x, n, i, j, s)[i], Column(a, n, q), s);
      }
    }
    MatrixExt(lhs, rhs, n);
  }

  /** `scale`: every entry multiplied by the scalar. */
  function Scale(m: Matrix, s: real, n: nat): (r: Matrix)
    requires IsMatrix(m, n)
    ensures IsMatrix(r, n)
    ensures forall i, j :: 0 <= i < n && 0 <= j < n ==> r[i][j] == s * m[i][j]
  {
    seq(n, i requires 0 <= i < n => seq(n, j requires 0 <= j < n => s * m[i][j]))
  }

  /** `Add`: entrywise sum. */
  function Add(a: Matrix, b: Matrix, n: nat): (r: Matrix)
    requires IsMatrix(a, n) && IsMatrix(b, n)
    ensures IsMatrix(r, n)
    ensures forall i, j :: 0 <= i < n && 0 <= j < n ==> r[i][j] == a[i][j] + b[i][j]
  {
    seq(n, i requires 0 <= i < n => seq(n, j requires 0 <= j < n => a[i][j] + b[i][j]))
  }

  /** `Sub`: entrywise difference. */
  function Sub(a: Matrix, b: Matrix, n: nat): (r: Matrix)
    requires IsMatrix(a, n) && IsMatrix(b, n)
    ensures IsMatrix(r, n)
    ensures forall i, j :: 0 <= i < n && 0 <= j < n ==> r[i][j] == a[i][j] - b[i][j]
  {
    seq(n, i requires 0 <= i < n => seq(n, j requires 0 <= j < n => a[i][j] - b[i][j]))
  }

  /** Scaling by 1 returns the same matrix, and scaling twice multiplies the factors. */
  lemma ScaleLaws(m: Matrix, s: real, t: real, n: nat)
    requires IsMatrix(m, n)
    ensures Scale(m, 1.0, n) == m
    ensures Scale(Scale(m, t, n), s, n) == Scale(m, s * t, n)
  {
    MatrixExt(Scale(m, 1.0, n), m, n);
    MatrixExt(Scale(Scale(m, t, n), s, n), Scale(m, s * t, n), n);
  }

  /** a - a is the zero matrix and subtraction undoes addition. */
  lemma SubLaws(a: Matrix, b: Matrix, n: nat)
    requires IsMatrix(a, n) && IsMatrix(b, n)
    ensures Sub(a, a, n) == Zero(n)
    ensures Sub(Add(a, b, n), b, n) == a
  {
    MatrixExt(Sub(a, a, n), Zero(n), n);
    MatrixExt(Sub(Add(a, b, n), b, n), a, n);
  }
}
