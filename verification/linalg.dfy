/**
  Shared representation of the library's fixed-size square matrices and vectors.

  A `Vector<N>` holds an array of N coordinates and a `Matrix<N>` an N x N array of
  entries stored row by row; both are modelled by that array, with `f64` abstracted
  as `real`. The dimension N is a compile-time parameter in the library; here it is
  the explicit `n` of `IsVector` and `IsMatrix`.

  Every product in the library (dot product, matrix-vector and matrix-matrix product)
  accumulates its sum from index 0 upward; `DotPrefix` is that accumulation.
 */
module Linalg {

  type Vector = seq<real>

  type Matrix = seq<seq<real>>

  /** An optional value, as in the per-coordinate bounds of a bounds check. */
  datatype Option<+T> = None | Some(value: T)

  predicate IsVector(v: Vector, n: nat) {
    |v| == n
  }

  predicate IsMatrix(m: Matrix, n: nat) {
    |m| == n && forall i :: 0 <= i < n ==> |m[i]| == n
  }

  function Abs(x: real): (r: real) {
    if x < 0.0 then -x else x
  }

  lemma Reciprocal(x: real)
    requires x != 0.0
    ensures x * (1.0 / x) == 1.0
  {
  }

  /** The sum a[0]*b[0] + ... + a[k-1]*b[k-1], accumulated in index order. */
  function DotPrefix(a: Vector, b: Vector, k: nat): (r: real)
    requires |a| == |b| && k <= |a|
    decreases k
  {
    if k == 0 then 0.0 else DotPrefix(a, b, k - 1) + a[k - 1] * b[k - 1]
  }

  function Dot(a: Vector, b: Vector): (r: real)
    requires |a| == |b|
  {
    DotPrefix(a, b, |a|)
  }

  /** Column j of m. */
  function Column(m: Matrix, n: nat, j: nat): (c: Vector)
    requires IsMatrix(m, n) && j < n
    ensures IsVector(c, n)
    ensures forall i :: 0 <= i < n ==> c[i] == m[i][j]
  {
    seq(n, i requires 0 <= i < n => m[i][j])
  }

  /** e is the i-th standard basis vector: 1 at index i, 0 elsewhere. */
  predicate IsUnit(e: Vector, i: nat) {
    forall k :: 0 <= k < |e| ==> e[k] == if k == i then 1.0 else 0.0
  }

  /** Two n x n matrices with equal entries are equal. */
  lemma MatrixExt(m1: Matrix, m2: Matrix, n: nat)
    requires IsMatrix(m1, n) && IsMatrix(m2, n)
    requires forall i, j :: 0 <= i < n && 0 <= j < n ==> m1[i][j] == m2[i][j]
    ensures m1 == m2
  {
    assert forall i :: 0 <= i < n ==> m1[i] == m2[i];
  }

  lemma {:induction false} DotPrefixCommutes(a: Vector, b: Vector, k: nat)
    requires |a| == |b| && k <= |a|
    ensures DotPrefix(a, b, k) == DotPrefix(b, a, k)
    decreases k
  {
    if k > 0 {
      DotPrefixCommutes(a, b, k - 1);
    }
  }

  /** The dot product is commutative. */
  lemma DotCommutes(a: Vector, b: Vector)
    requires |a| == |b|
    ensures Dot(a, b) == Dot(b, a)
  {
    DotPrefixCommutes(a, b, |a|);
  }

  lemma {:induction false} DotPrefixUnit(e: Vector, v: Vector, i: nat, k: nat)
    requires |e| == |v| && k <= |e| && IsUnit(e, i)
    ensures DotPrefix(e, v, k) == if i < k then v[i] else 0.0
    decreases k
  {
    if k > 0 {
      DotPrefixUnit(e, v, i, k - 1);
    }
  }

  /** Dotting with the i-th basis vector, on either side, selects coordinate i. */
  lemma DotUnit(e: Vector, v: Vector, i: nat)
    requires |e| == |v| && i < |v| && IsUnit(e, i)
    ensures Dot(e, v) == v[i]
    ensures Dot(v, e) == v[i]
  {
    DotPrefixUnit(e, v, i, |e|);
    DotCommutes(e, v);
  }

  lemma {:induction false} DotPrefixScaled(x: Vector, z: Vector, c: Vector, s: real, k: nat)
    requires |x| == |z| == |c| && k <= |x|
    requires forall p :: 0 <= p < |x| ==> z[p] == s * x[p]
    ensures DotPrefix(z, c, k) == s * DotPrefix(x, c, k)
    decreases k
  {
    if k > 0 {
      DotPrefixScaled(x, z, c, s, k - 1);
      assert z[k - 1] * c[k - 1] == s * (x[k - 1] * c[k - 1]);
    }
  }

  /** Scaling the left operand scales the dot product. */
  lemma DotScaled(x: Vector, z: Vector, c: Vector, s: real)
    requires |x| == |z| == |c|
    requires forall p :: 0 <= p < |x| ==> z[p] == s * x[p]
    ensures Dot(z, c) == s * Dot(x, c)
  {
    DotPrefixScaled(x, z, c, s, |x|);
  }

  lemma {:induction false} DotPrefixDifference(x: Vector, y: Vector, z: Vector, c: Vector, s: real, k: nat)
    requires |x| == |y| == |z| == |c| && k <= |x|
    requires forall p :: 0 <= p < |x| ==> z[p] == x[p] - s * y[p]
    ensures DotPrefix(z, c, k) == DotPrefix(x, c, k) - s * DotPrefix(y, c, k)
    decreases k
  {
    if k > 0 {
      DotPrefixDifference(x, y, z, c, s, k - 1);
      assert z[k - 1] * c[k - 1] == x[k - 1] * c[k - 1] - s * (y[k - 1] * c[k - 1]);
    }
  }

  /** The dot product is linear in its left operand: (x - s*y) . c == x . c - s * (y . c). */
  lemma DotDifference(x: Vector, y: Vector, z: Vector, c: Vector, s: real)
    requires |x| == |y| == |z| == |c|
    requires forall p :: 0 <= p < |x| ==> z[p] == x[p] - s * y[p]
    ensures Dot(z, c) == Dot(x, c) - s * Dot(y, c)
  {
    DotPrefixDifference(x, y, z, c, s, |x|);
  }

  /** In three dimensions the dot product is the familiar three-term sum. */
  lemma Dot3(a: Vector, b: Vector)
    requires |a| == 3 && |b| == 3
    ensures Dot(a, b) == a[0] * b[0] + a[1] * b[1] + a[2] * b[2]
  {
    assert DotPrefix(a, b, 1) == a[0] * b[0];
    assert DotPrefix(a, b, 2) == a[0] * b[0] + a[1] * b[1];
  }
}
