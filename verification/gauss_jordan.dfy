/**
  `Matrix::inverse`: Gauss-Jordan elimination on a working copy (`output`) of the
  matrix, with every row operation repeated on an accumulator (`inverse`) that
  starts as the identity. Because each operation is applied to both, the
  accumulator times the original matrix equals the working copy at every step
  (`Tracks`); once the working copy is the identity, the accumulator is a left
  inverse.

  The library divides by the pivot without checking it. Over `f64` a zero pivot
  yields infinities and NaNs; here it is the explicit outcome `ZeroPivot`,
  which carries the step and the tableau at which the division would happen.

  The run is defined twice: as functions (`Step`, `Run`, `Back`, `InverseRun`)
  and as the library's loops (`EliminateColumn`, `ForwardPass`,
  `BackSubstitution`, `Inverse`). Each loop is proved to agree with its
  function, and the invariants are proved about the loops or the functions.
 */
module GaussJordan {
  import opened Linalg
  import opened Matrices

  /**
    How the pivot row of a column is chosen. `ExceedsDiagonal` is the library's
    rule: the last row at or below the diagonal whose entry exceeds the current
    diagonal entry. `LargestMagnitude` is textbook partial pivoting.
   */
  datatype PivotRule = ExceedsDiagonal | LargestMagnitude

  /** The working copy and the accumulator. */
  datatype Tableau = Tableau(output: Matrix, inverse: Matrix)

  datatype Elimination = Done(t: Tableau) | ZeroPivot(step: nat, t: Tableau)

  /** The scan over rows k .. n-1 for column i, with j the row chosen so far. */
  function ScanExceeding(m: Matrix, n: nat, i: nat, k: nat, j: nat): (p: nat)
    requires IsMatrix(m, n) && i <= j <= k <= n && i < n && j < n
    ensures i <= p < n
    ensures (p == j && forall q :: k <= q < n ==> m[q][i] <= m[i][i])
         || (k <= p && m[p][i] > m[i][i] && forall q :: p < q < n ==> m[q][i] <= m[i][i])
    decreases n - k
  {
    if k == n then j
    else ScanExceeding(m, n, i, k + 1, if m[k][i] > m[i][i] then k else j)
  }

  /**
    The library's pivot choice for column i: the last row p in i .. n-1 with
    m[p][i] > m[i][i], or i when there is none.
   */
  function PivotRow(m: Matrix, n: nat, i: nat): (p: nat)
    requires IsMatrix(m, n) && i < n
    ensures i <= p < n
    ensures p == i || m[p][i] > m[i][i]
    ensures forall q :: p < q < n ==> m[q][i] <= m[i][i]
  {
    ScanExceeding(m, n, i, i, i)
  }

  /** The scan for the largest magnitude over rows k .. n-1, with j the best row so far. */
  function ScanLargest(m: Matrix, n: nat, i: nat, k: nat, j: nat): (p: nat)
    requires IsMatrix(m, n) && i <= j < n && i <= k <= n
    requires forall q :: i <= q < k ==> Abs(m[q][i]) <= Abs(m[j][i])
    ensures i <= p < n
    ensures forall q :: i <= q < n ==> Abs(m[q][i]) <= Abs(m[p][i])
    decreases n - k
  {
    if k == n then j
    else ScanLargest(m, n, i, k + 1, if Abs(m[k][i]) > Abs(m[j][i]) then k else j)
  }

  /** Partial pivoting: a row in i .. n-1 whose entry in column i has the largest magnitude. */
  function LargestPivotRow(m: Matrix, n: nat, i: nat): (p: nat)
    requires IsMatrix(m, n) && i < n
    ensures i <= p < n
    ensures forall q :: i <= q < n ==> Abs(m[q][i]) <= Abs(m[p][i])
  {
    ScanLargest(m, n, i, i, i)
  }

  /** Under partial pivoting the pivot is zero only when the whole column below the diagonal is. */
  lemma LargestPivotNonzero(m: Matrix, n: nat, i: nat)
    requires IsMatrix(m, n) && i < n
    ensures m[LargestPivotRow(m, n, i)][i] == 0.0 <==> forall q :: i <= q < n ==> m[q][i] == 0.0
  {
    var p := LargestPivotRow(m, n, i);
    if m[p][i] == 0.0 {
      forall q | i <= q < n
        ensures m[q][i] == 0.0
      {
        assert Abs(m[q][i]) <= Abs(m[p][i]);
      }
    }
  }

  /**
    diag(-1, 1) is its own inverse, yet the library's rule picks row 1 for
    column 0 (0 > -1), whose entry there is 0: the row swap puts a zero on the
    diagonal and the normalisation divides by it. Partial pivoting keeps row 0.
   */
  lemma ExceedsDiagonalChoosesZeroPivot()
    ensures var a := [[-1.0, 0.0], [0.0, 1.0]];
      && MatMult(a, a, 2) == Identity(2)
      && PivotRow(a, 2, 0) == 1
      && SwapRow(a, 2, 0, PivotRow(a, 2, 0))[0][0] == 0.0
      && LargestPivotRow(a, 2, 0) == 0
      && a[LargestPivotRow(a, 2, 0)][0] != 0.0
  {
    var a := [[-1.0, 0.0], [0.0, 1.0]];
    assert IsMatrix(a, 2);
    forall i, j | 0 <= i < 2 && 0 <= j < 2
      ensures MatMult(a, a, 2)[i][j] == Identity(2)[i][j]
    {
      assert DotPrefix(a[i], Column(a, 2, j), 1) == a[i][0] * a[0][j];
    }
    MatrixExt(MatMult(a, a, 2), Identity(2), 2);
  }

  /**
    The comment calls the choice the largest pivot, but each row is compared
    with the diagonal entry rather than with the best row so far: for the
    column (1, 3, 2) the rule picks the 2, not the 3.
   */
  lemma ExceedsDiagonalIsNotLargest()
    ensures var a := [[1.0, 0.0, 0.0], [3.0, 1.0, 0.0], [2.0, 0.0, 1.0]];
      PivotRow(a, 3, 0) == 2 && LargestPivotRow(a, 3, 0) == 1
  {
    var a := [[1.0, 0.0, 0.0], [3.0, 1.0, 0.0], [2.0, 0.0, 1.0]];
    assert IsMatrix(a, 3);
    assert a[1][0] > a[0][0] && a[2][0] > a[0][0];
  }

  function ChoosePivot(rule: PivotRule, m: Matrix, n: nat, i: nat): (p: nat)
    requires IsMatrix(m, n) && i < n
    ensures i <= p < n
    ensures rule == ExceedsDiagonal ==> p == PivotRow(m, n, i)
    ensures rule == LargestMagnitude ==> p == LargestPivotRow(m, n, i)
  {
    match rule
    case ExceedsDiagonal => PivotRow(m, n, i)
    case LargestMagnitude => LargestPivotRow(m, n, i)
  }

  /** The accumulated row operations map the identity to `inverse` and a to `output`: inverse * a == output. */
  predicate Tracks(t: Tableau, a: Matrix, n: nat)
    requires IsMatrix(a, n)
  {
    IsMatrix(t.output, n) && IsMatrix(t.inverse, n) && MatMult(t.inverse, a, n) == t.output
  }

  /** Columns 0 .. c-1 of m are those of a unit upper-triangular matrix: 1 on the diagonal, 0 below. */
  predicate ReducedColumns(m: Matrix, n: nat, c: nat)
    requires IsMatrix(m, n) && c <= n
  {
    forall p, q :: 0 <= q < c && q <= p < n ==> m[p][q] == if p == q then 1.0 else 0.0
  }

  predicate UnitUpperTriangular(m: Matrix, n: nat)
    requires IsMatrix(m, n)
  {
    ReducedColumns(m, n, n)
  }

  function SwapBoth(t: Tableau, n: nat, i: nat, j: nat): (r: Tableau)
    requires IsMatrix(t.output, n) && IsMatrix(t.inverse, n) && i < n && j < n
  {
    Tableau(SwapRow(t.output, n, i, j), SwapRow(t.inverse, n, i, j))
  }

  function ScaleBoth(t: Tableau, n: nat, i: nat, s: real): (r: Tableau)
    requires IsMatrix(t.output, n) && IsMatrix(t.inverse, n) && i < n
  {
    Tableau(ScaleRow(t.output, n, i, s), ScaleRow(t.inverse, n, i, s))
  }

  function SubBoth(t: Tableau, n: nat, i: nat, j: nat, s: real): (r: Tableau)
    requires IsMatrix(t.output, n) && IsMatrix(t.inverse, n) && i < n && j < n
  {
    Tableau(SubRow(t.output, n, i, j, s), SubRow(t.inverse, n, i, j, s))
  }

  /** Swapping the same two rows of both matrices keeps inverse * a == output. */
  lemma SwapKeepsTracking(t: Tableau, a: Matrix, n: nat, i: nat, j: nat)
    requires IsMatrix(a, n) && Tracks(t, a, n) && i < n && j < n
    ensures Tracks(SwapBoth(t, n, i, j), a, n)
  {
    MatMultSwapRow(t.inverse, a, n, i, j);
  }

  /** Scaling the same row of both matrices keeps inverse * a == output. */
  lemma ScaleKeepsTracking(t: Tableau, a: Matrix, n: nat, i: nat, s: real)
    requires IsMatrix(a, n) && Tracks(t, a, n) && i < n
    ensures Tracks(ScaleBoth(t, n, i, s), a, n)
  {
    MatMultScaleRow(t.inverse, a, n, i, s);
  }

  /** The same row subtraction on both matrices keeps inverse * a == output. */
  lemma SubKeepsTracking(t: Tableau, a: Matrix, n: nat, i: nat, j: nat, s: real)
    requires IsMatrix(a, n) && Tracks(t, a, n) && i < n && j < n
    ensures Tracks(SubBoth(t, n, i, j, s), a, n)
  {
    MatMultSubRow(t.inverse, a, n, i, j, s);
  }

  /** A swap of row i with a row below it keeps the columns before i reduced. */
  lemma SwapKeepsReduced(m: Matrix, n: nat, i: nat, j: nat)
    requires IsMatrix(m, n) && i <= j < n && ReducedColumns(m, n, i)
    ensures ReducedColumns(SwapRow(m, n, i, j), n, i)
  {
  }

  /** Scaling row i keeps the columns before i reduced. */
  lemma ScaleKeepsReduced(m: Matrix, n: nat, i: nat, s: real)
    requires IsMatrix(m, n) && i < n && ReducedColumns(m, n, i)
    ensures ReducedColumns(ScaleRow(m, n, i, s), n, i)
  {
  }

  /**
    Clearing entry (k, i) with the normalised row i keeps the columns before i
    reduced and extends the cleared part of column i by row k.
   */
  lemma SubKeepsReduced(m: Matrix, n: nat, i: nat, k: nat)
    requires IsMatrix(m, n) && i < k < n && ReducedColumns(m, n, i) && m[i][i] == 1.0
    requires forall p :: i < p < k ==> m[p][i] == 0.0
    ensures var r := SubRow(m, n, k, i, m[k][i]);
      && ReducedColumns(r, n, i) && r[i][i] == 1.0
      && forall p :: i < p <= k ==> r[p][i] == 0.0
  {
  }

  /** A normalised, cleared column i extends the reduced columns to i + 1. */
  lemma ColumnDone(m: Matrix, n: nat, i: nat)
    requires IsMatrix(m, n) && i < n && ReducedColumns(m, n, i) && m[i][i] == 1.0
    requires forall p :: i < p < n ==> m[p][i] == 0.0
    ensures ReducedColumns(m, n, i + 1)
  {
  }

  /** Both matrices of the tableau are n x n. */
  predicate Square(t: Tableau, n: nat) {
    IsMatrix(t.output, n) && IsMatrix(t.inverse, n)
  }

  /**
    The inner loop of the first pass from row k on, as a function: clear entry
    (k, i) with row i, then the rows below k. Rows above k are not touched.
   */
  function ClearFrom(t: Tableau, n: nat, i: nat, k: nat): (r: Tableau)
    requires Square(t, n) && i < k <= n
    ensures Square(r, n)
    ensures forall p :: 0 <= p < k ==> r.output[p] == t.output[p] && r.inverse[p] == t.inverse[p]
    decreases n - k
  {
    if k == n then t
    else ClearFrom(SubBoth(t, n, k, i, t.output[k][i]), n, i, k + 1)
  }

  /**
    One round of the first loop for column i, as a function: swap the chosen
    pivot row up; stop if the pivot is zero, where the library would divide by
    it; otherwise divide row i by the pivot and clear the column below it.
   */
  function Step(rule: PivotRule, t: Tableau, n: nat, i: nat): (r: Elimination)
    requires Square(t, n) && i < n
    ensures Square(r.t, n)
    ensures r.ZeroPivot? <==> t.output[ChoosePivot(rule, t.output, n, i)][i] == 0.0
    ensures r.ZeroPivot? ==> r.step == i
    ensures r.Done? ==> r.t.output[i][i] == 1.0
  {
    var swapped := SwapBoth(t, n, i, ChoosePivot(rule, t.output, n, i));
    var pivot := swapped.output[i][i];
    if pivot == 0.0 then ZeroPivot(i, swapped)
    else
      Reciprocal(pivot);
      Done(ClearFrom(ScaleBoth(swapped, n, i, 1.0 / pivot), n, i, i + 1))
  }

  /**
    The first loop of `inverse` from column i on, as a function: the first
    zero pivot stops it, otherwise it runs to the last column.
   */
  function Run(rule: PivotRule, t: Tableau, n: nat, i: nat): (r: Elimination)
    requires Square(t, n) && i <= n
    ensures Square(r.t, n)
    ensures r.ZeroPivot? ==> i <= r.step < n
    decreases n - i
  {
    if i == n then Done(t)
    else
      var e := Step(rule, t, n, i);
      if e.ZeroPivot? then e else Run(rule, e.t, n, i + 1)
  }

  /**
    The inner loop of the second pass from column j on, as a function:
    subtract entry (i, j) times row j from row i. Only row i changes.
   */
  function BackRow(t: Tableau, n: nat, i: nat, j: nat): (r: Tableau)
    requires Square(t, n) && i < j <= n
    ensures Square(r, n)
    ensures forall p :: 0 <= p < n && p != i ==> r.output[p] == t.output[p] && r.inverse[p] == t.inverse[p]
    decreases n - j
  {
    if j == n then t
    else BackRow(SubBoth(t, n, i, j, t.output[i][j]), n, i, j + 1)
  }

  /** The second loop of `inverse` from row i on, as a function. Rows above i are not touched. */
  function Back(t: Tableau, n: nat, i: nat): (r: Tableau)
    requires Square(t, n) && i <= n
    ensures Square(r, n)
    ensures forall p :: 0 <= p < i ==> r.output[p] == t.output[p] && r.inverse[p] == t.inverse[p]
    decreases n - i
  {
    if i == n then t
    else Back(BackRow(t, n, i, i + 1), n, i + 1)
  }

  /**
    `inverse` as a function: the first pass from the tableau (a, identity),
    then, if it met no zero pivot, the second pass.
   */
  function InverseRun(rule: PivotRule, a: Matrix, n: nat): (r: Elimination)
    requires IsMatrix(a, n)
    ensures Square(r.t, n)
    ensures r.ZeroPivot? ==> r.step < n
  {
    var f := Run(rule, Tableau(a, Identity(n)), n, 0);
    if f.Done? then Done(Back(f.t, n, 0)) else f
  }

  /** Under either rule the identity's pivot for column i is its own row i. */
  lemma IdentityPivot(rule: PivotRule, n: nat, i: nat)
    requires i < n
    ensures ChoosePivot(rule, Identity(n), n, i) == i
  {
    var p := ChoosePivot(rule, Identity(n), n, i);
    if rule == LargestMagnitude {
      assert Abs(Identity(n)[i][i]) <= Abs(Identity(n)[p][i]);
    }
  }

  lemma {:induction false} ClearFromIdentity(t: Tableau, n: nat, i: nat, k: nat)
    requires Square(t, n) && t.output == Identity(n) && i < k <= n
    ensures ClearFrom(t, n, i, k) == t
    decreases n - k
  {
    if k < n {
      RowOpsNeutral(t.output, n, k, i);
      RowOpsNeutral(t.inverse, n, k, i);
      ClearFromIdentity(t, n, i, k + 1);
    }
  }

  /** On an identity working copy a round of the first pass changes nothing. */
  lemma StepIdentity(rule: PivotRule, t: Tableau, n: nat, i: nat)
    requires Square(t, n) && t.output == Identity(n) && i < n
    ensures Step(rule, t, n, i) == Done(t)
  {
    IdentityPivot(rule, n, i);
    SwapRowInvolution(t.output, n, i, i);
    SwapRowInvolution(t.inverse, n, i, i);
    assert SwapBoth(t, n, i, i) == t;
    RowOpsNeutral(t.output, n, i, i);
    RowOpsNeutral(t.inverse, n, i, i);
    assert ScaleBoth(t, n, i, 1.0 / 1.0) == t;
    ClearFromIdentity(t, n, i, i + 1);
  }

  /** Once the working copy is the identity, the rest of the first pass changes nothing. */
  lemma {:induction false} RunIdentity(rule: PivotRule, t: Tableau, n: nat, i: nat)
    requires Square(t, n) && t.output == Identity(n) && i <= n
    ensures Run(rule, t, n, i) == Done(t)
    decreases n - i
  {
    if i < n {
      StepIdentity(rule, t, n, i);
      RunIdentity(rule, t, n, i + 1);
    }
  }

  lemma {:induction false} BackRowIdentity(t: Tableau, n: nat, i: nat, j: nat)
    requires Square(t, n) && t.output == Identity(n) && i < j <= n
    ensures BackRow(t, n, i, j) == t
    decreases n - j
  {
    if j < n {
      RowOpsNeutral(t.output, n, i, j);
      RowOpsNeutral(t.inverse, n, i, j);
      BackRowIdentity(t, n, i, j + 1);
    }
  }

  /** On an identity working copy the second pass changes nothing. */
  lemma {:induction false} BackIdentity(t: Tableau, n: nat, i: nat)
    requires Square(t, n) && t.output == Identity(n) && i <= n
    ensures Back(t, n, i) == t
    decreases n - i
  {
    if i < n {
      BackRowIdentity(t, n, i, i + 1);
      BackIdentity(t, n, i + 1);
    }
  }

  /** Under either rule, `inverse` of the identity completes and returns the identity. */
  lemma InverseOfIdentity(rule: PivotRule, n: nat)
    ensures InverseRun(rule, Identity(n), n) == Done(Tableau(Identity(n), Identity(n)))
  {
    RunIdentity(rule, Tableau(Identity(n), Identity(n)), n, 0);
    BackIdentity(Tableau(Identity(n), Identity(n)), n, 0);
  }

  /**
    The whole run on diag(-1, 1), which is its own inverse: the library's
    rule stops at a zero pivot in column 0, where the library divides by
    zero; partial pivoting completes and returns diag(-1, 1) as the inverse.
   */
  lemma SelfInverseDiagonal()
    ensures var d := [[-1.0, 0.0], [0.0, 1.0]];
      && InverseRun(ExceedsDiagonal, d, 2).ZeroPivot?
      && InverseRun(ExceedsDiagonal, d, 2).step == 0
      && InverseRun(LargestMagnitude, d, 2) == Done(Tableau(Identity(2), d))
  {
    var d := [[-1.0, 0.0], [0.0, 1.0]];
    assert IsMatrix(d, 2);
    ExceedsDiagonalChoosesZeroPivot();
    var t := Tableau(d, Identity(2));
    assert Step(ExceedsDiagonal, t, 2, 0).ZeroPivot?;
    SwapRowInvolution(d, 2, 0, 0);
    SwapRowInvolution(Identity(2), 2, 0, 0);
    assert 1.0 / -1.0 == -1.0;
    MatrixExt(ScaleRow(d, 2, 0, -1.0), Identity(2), 2);
    MatrixExt(ScaleRow(Identity(2), 2, 0, -1.0), d, 2);
    ClearFromIdentity(Tableau(Identity(2), d), 2, 0, 1);
    assert Step(LargestMagnitude, t, 2, 0) == Done(Tableau(Identity(2), d));
    RunIdentity(LargestMagnitude, Tableau(Identity(2), d), 2, 1);
    BackIdentity(Tableau(Identity(2), d), 2, 0);
  }

  /**
    The inner loop of the first pass: with row i normalised, subtract
    entry (k, i) times row i from every row k below it.
   */
  method ClearBelow(t0: Tableau, ghost a: Matrix, n: nat, i: nat) returns (t: Tableau)
    requires IsMatrix(a, n) && i < n && Tracks(t0, a, n)
    requires ReducedColumns(t0.output, n, i) && t0.output[i][i] == 1.0
    ensures t == ClearFrom(t0, n, i, i + 1)
    ensures Tracks(t, a, n)
    ensures ReducedColumns(t.output, n, i + 1)
  {
    t := t0;
    for k := i + 1 to n
      invariant Tracks(t, a, n)
      invariant ClearFrom(t, n, i, k) == ClearFrom(t0, n, i, i + 1)
      invariant ReducedColumns(t.output, n, i)
      invariant t.output[i][i] == 1.0
      invariant forall p :: i < p < k ==> t.output[p][i] == 0.0
    {
      var s := t.output[k][i];
      SubKeepsTracking(t, a, n, k, i, s);
      SubKeepsReduced(t.output, n, i, k);
      t := SubBoth(t, n, k, i, s);
    }
    ColumnDone(t.output, n, i);
  }

  /**
    The start of a round of the first loop: choose the pivot row for column i
    and swap it into row i of both matrices.
   */
  method SwapPivotUp(t0: Tableau, ghost a: Matrix, n: nat, i: nat, rule: PivotRule) returns (t: Tableau)
    requires IsMatrix(a, n) && i < n && Tracks(t0, a, n) && ReducedColumns(t0.output, n, i)
    ensures t == SwapBoth(t0, n, i, ChoosePivot(rule, t0.output, n, i))
    ensures Tracks(t, a, n) && ReducedColumns(t.output, n, i)
    ensures rule == LargestMagnitude && t.output[i][i] == 0.0 ==>
      forall q :: i <= q < n ==> t.output[q][i] == 0.0
  {
    var j := ChoosePivot(rule, t0.output, n, i);
    if rule == LargestMagnitude {
      LargestPivotNonzero(t0.output, n, i);
    }
    SwapKeepsTracking(t0, a, n, i, j);
    SwapKeepsReduced(t0.output, n, i, j);
    t := SwapBoth(t0, n, i, j);
  }

  /** Dividing row i of both matrices by a nonzero pivot puts 1 on the diagonal. */
  method NormalisePivotRow(t0: Tableau, ghost a: Matrix, n: nat, i: nat) returns (t: Tableau)
    requires IsMatrix(a, n) && i < n && Tracks(t0, a, n) && ReducedColumns(t0.output, n, i)
    requires t0.output[i][i] != 0.0
    ensures t == ScaleBoth(t0, n, i, 1.0 / t0.output[i][i])
    ensures Tracks(t, a, n) && ReducedColumns(t.output, n, i) && t.output[i][i] == 1.0
  {
    var pivot := t0.output[i][i];
    ScaleKeepsTracking(t0, a, n, i, 1.0 / pivot);
    ScaleKeepsReduced(t0.output, n, i, 1.0 / pivot);
    Reciprocal(pivot);
    t := ScaleBoth(t0, n, i, 1.0 / pivot);
  }

  /**
    One round of the first loop of `inverse`, for column i: choose the pivot
    row, swap it up, normalise it by the pivot, and clear the column below it.
   */
  method EliminateColumn(t0: Tableau, ghost a: Matrix, n: nat, i: nat, rule: PivotRule) returns (r: Elimination)
    requires IsMatrix(a, n) && i < n && Tracks(t0, a, n) && ReducedColumns(t0.output, n, i)
    ensures r == Step(rule, t0, n, i)
    ensures Tracks(r.t, a, n)
    ensures r.Done? ==> ReducedColumns(r.t.output, n, i + 1)
    ensures r.ZeroPivot? ==> r.step == i && ReducedColumns(r.t.output, n, i) && r.t.output[i][i] == 0.0
    ensures r.ZeroPivot? && rule == LargestMagnitude ==>
      forall q :: i <= q < n ==> r.t.output[q][i] == 0.0
  {
    var t := SwapPivotUp(t0, a, n, i, rule);
    if t.output[i][i] == 0.0 {
      r := ZeroPivot(i, t);
      return;
    }
    t := NormalisePivotRow(t, a, n, i);
    t := ClearBelow(t, a, n, i);
    r := Done(t);
  }

  /**
    The first loop of `inverse`, column by column. On success the working copy
    is unit upper-triangular; on a zero pivot the columns already done are
    reduced and the diagonal entry of the current one is 0.
   */
  method ForwardPass(a: Matrix, n: nat, rule: PivotRule) returns (r: Elimination)
    requires IsMatrix(a, n)
    ensures r == Run(rule, Tableau(a, Identity(n)), n, 0)
    ensures Tracks(r.t, a, n)
    ensures r.Done? ==> UnitUpperTriangular(r.t.output, n)
    ensures r.ZeroPivot? ==> r.step < n && ReducedColumns(r.t.output, n, r.step)
                             && r.t.output[r.step][r.step] == 0.0
    ensures r.ZeroPivot? && rule == LargestMagnitude ==>
      forall q :: r.step <= q < n ==> r.t.output[q][r.step] == 0.0
  {
    var t := Tableau(a, Identity(n));
    MatMultIdentity(a, n);
    for i := 0 to n
      invariant Tracks(t, a, n)
      invariant ReducedColumns(t.output, n, i)
      invariant Run(rule, t, n, i) == Run(rule, Tableau(a, Identity(n)), n, 0)
    {
      var step := EliminateColumn(t, a, n, i, rule);
      if step.ZeroPivot? {
        r := step;
        return;
      }
      t := step.t;
    }
    r := Done(t);
  }
  /**
    In a unit upper-triangular matrix, clearing entry (i, j) with row j, for
    j > i, keeps the matrix unit upper-triangular and extends the cleared part
    of row i to column j.
   */
  lemma SubRightKeepsUpper(m: Matrix, n: nat, i: nat, j: nat)
    requires IsMatrix(m, n) && i < j < n && UnitUpperTriangular(m, n)
    requires forall q :: i < q < j ==> m[i][q] == 0.0
    ensures var r := SubRow(m, n, i, j, m[i][j]);
      && UnitUpperTriangular(r, n)
      && forall q :: i < q <= j ==> r[i][q] == 0.0
  {
  }

  /**
    The inner loop of the second pass, run from column j on a unit
    upper-triangular working copy whose row i is already clear in columns
    i+1 .. j-1: it keeps the invariant and clears the rest of row i.
   */
  lemma {:induction false} BackRowClears(t: Tableau, a: Matrix, n: nat, i: nat, j: nat)
    requires IsMatrix(a, n) && i < j <= n && Tracks(t, a, n) && UnitUpperTriangular(t.output, n)
    requires forall q :: i < q < j ==> t.output[i][q] == 0.0
    ensures Tracks(BackRow(t, n, i, j), a, n) && UnitUpperTriangular(BackRow(t, n, i, j).output, n)
    ensures forall q :: i < q < n ==> BackRow(t, n, i, j).output[i][q] == 0.0
    decreases n - j
  {
    if j < n {
      SubKeepsTracking(t, a, n, i, j, t.output[i][j]);
      SubRightKeepsUpper(t.output, n, i, j);
      BackRowClears(SubBoth(t, n, i, j, t.output[i][j]), a, n, i, j + 1);
    }
  }

  /**
    The inner loop of the second pass for row i: subtract row j times entry
    (i, j) from row i for every j > i. No other row changes.
   */
  method ClearRight(t0: Tableau, n: nat, i: nat) returns (t: Tableau)
    requires Square(t0, n) && i < n
    ensures t == BackRow(t0, n, i, i + 1)
    ensures Square(t, n)
    ensures forall p :: 0 <= p < n && p != i ==> t.output[p] == t0.output[p] && t.inverse[p] == t0.inverse[p]
  {
    t := t0;
    for j := i + 1 to n
      invariant Square(t, n)
      invariant BackRow(t, n, i, j) == BackRow(t0, n, i, i + 1)
    {
      t := SubBoth(t, n, i, j, t.output[i][j]);
    }
  }

  /**
    The second pass from row i, on a unit upper-triangular working copy whose
    rows above i are already those of the identity, keeps the invariant and
    leaves the identity.
   */
  lemma {:induction false} BackClears(t: Tableau, a: Matrix, n: nat, i: nat)
    requires IsMatrix(a, n) && i <= n && Tracks(t, a, n) && UnitUpperTriangular(t.output, n)
    requires forall p, q :: 0 <= p < i && 0 <= q < n ==> t.output[p][q] == if p == q then 1.0 else 0.0
    ensures Tracks(Back(t, n, i), a, n) && Back(t, n, i).output == Identity(n)
    decreases n - i
  {
    if i == n {
      MatrixExt(t.output, Identity(n), n);
    } else {
      BackRowClears(t, a, n, i, i + 1);
      BackClears(BackRow(t, n, i, i + 1), a, n, i + 1);
    }
  }

  /**
    The second loop of `inverse`, row by row. Starting from a unit
    upper-triangular working copy this leaves the identity.
   */
  method BackSubstitution(t0: Tableau, ghost a: Matrix, n: nat) returns (t: Tableau)
    requires IsMatrix(a, n) && Tracks(t0, a, n) && UnitUpperTriangular(t0.output, n)
    ensures t == Back(t0, n, 0)
    ensures Tracks(t, a, n)
    ensures t.output == Identity(n)
  {
    t := t0;
    for i := 0 to n
      invariant Square(t, n)
      invariant Back(t, n, i) == Back(t0, n, 0)
    {
      t := ClearRight(t, n, i);
    }
    BackClears(t0, a, n, 0);
  }

  /**
    `inverse`. With rule `ExceedsDiagonal` this is the library's algorithm. When
    no pivot is zero the result is a left inverse of a. When one is, the
    outcome says at which step, and under `LargestMagnitude` the whole column
    at and below that diagonal entry is then zero.
   */
  method Inverse(a: Matrix, n: nat, rule: PivotRule) returns (r: Elimination)
    requires IsMatrix(a, n)
    ensures r == InverseRun(rule, a, n)
    ensures r.Done? ==> IsMatrix(r.t.inverse, n) && MatMult(r.t.inverse, a, n) == Identity(n)
    ensures r.ZeroPivot? ==> r.step < n && Tracks(r.t, a, n) && ReducedColumns(r.t.output, n, r.step)
                             && r.t.output[r.step][r.step] == 0.0
    ensures r.ZeroPivot? && rule == LargestMagnitude ==>
      forall q :: r.step <= q < n ==> r.t.output[q][r.step] == 0.0
  {
    r := ForwardPass(a, n, rule);
    if r.Done? {
      var t := BackSubstitution(r.t, a, n);
      r := Done(t);
    }
  }
}
