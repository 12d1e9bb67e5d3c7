/**
  `Vector<N>`: constructors and conversions, the standard basis, scaling, dot
  and cross products, multiplication by a matrix, and elementwise arithmetic.
 */
module Vectors {
  import opened Linalg
  import Matrices

  /** `zero`: every coordinate 0. */
  function Zero(n: nat): (v: Vector)
    ensures IsVector(v, n)
    ensures forall i :: 0 <= i < n ==> v[i] == 0.0
  {
    seq(n, i => 0.0)
  }

  /** `new`, and `From<[f64; N]>`, which calls it: the vector holding exactly the given coordinates. */
  function New(values: seq<real>): (v: Vector)
    ensures |v| == |values|
    ensures forall i :: 0 <= i < |values| ==> v[i] == values[i]
  {
    values
  }

  /** `From<Vector<N>> for [f64; N]`: the coordinates of the vector. */
  function ToArray(v: Vector): (values: seq<real>)
    ensures |values| == |v|
    ensures forall i :: 0 <= i < |v| ==> values[i] == v[i]
  {
    v
  }

  /** Converting an array to a vector and back returns the array, and the other way round. */
  lemma ArrayRoundTrip(values: seq<real>, v: Vector)
    ensures ToArray(New(values)) == values
    ensures New(ToArray(v)) == v
  {
  }

  /** `basis`: the columns of the identity matrix. */
  function Basis(n: nat): (b: seq<Vector>)
    ensures IsMatrix(b, n)
    ensures forall i, j :: 0 <= i < n && 0 <= j < n ==> b[i][j] == if i == j then 1.0 else 0.0
  {
    Matrices.Decompose(Matrices.Identity(n), n)
  }

  /** The basis is orthonormal: basis[i] . basis[j] is 1 when i == j and 0 otherwise. */
  lemma BasisOrthonormal(n: nat, i: nat, j: nat)
    requires i < n && j < n
    ensures Dot(Basis(n)[i], Basis(n)[j]) == if i == j then 1.0 else 0.0
  {
    var b := Basis(n);
    DotUnit(b[i], b[j], i);
  }

  /** `scale`: every coordinate multiplied by the scalar. */
  function Scale(v: Vector, s: real): (r: Vector)
    ensures |r| == |v|
    ensures forall i :: 0 <= i < |v| ==> r[i] == s * v[i]
  {
    seq(|v|, i requires 0 <= i < |v| => s * v[i])
  }

  /** Scaling by 1 returns the same vector, and scaling twice multiplies the factors. */
  lemma ScaleLaws(v: Vector, s: real, t: real)
    ensures Scale(v, 1.0) == v
    ensures Scale(Scale(v, t), s) == Scale(v, s * t)
  {
    assert forall i :: 0 <= i < |v| ==> Scale(Scale(v, t), s)[i] == Scale(v, s * t)[i];
  }

  /** Scaling either operand scales the dot product. */
  lemma DotScale(a: Vector, b: Vector, s: real)
    requires |a| == |b|
    ensures Dot(Scale(a, s), b) == s * Dot(a, b)
    ensures Dot(a, Scale(b, s)) == s * Dot(a, b)
  {
    DotScaled(a, Scale(a, s), b, s);
    DotScaled(b, Scale(b, s), a, s);
    DotCommutes(a, Scale(b, s));
    DotCommutes(a, b);
  }

  /**
    `Vector::mult`: entry i is the sum over j of m[i][j] * v[j], which is the
    matrix-vector product of `Matrix::mult`.
   */
  function Mult(v: Vector, m: Matrix): (r: Vector)
    requires IsMatrix(m, |v|)
    ensures r == Matrices.Mult(m, v, |v|)
  {
    seq(|v|, i requires 0 <= i < |v| => Dot(m[i], v))
  }

  /** The row-vector product v^T m: entry j is the sum over i of v[i] * m[i][j]. */
  function RowTimes(v: Vector, m: Matrix): (r: Vector)
    requires IsMatrix(m, |v|)
    ensures |r| == |v|
    ensures forall j :: 0 <= j < |v| ==> r[j] == Dot(v, Column(m, |v|, j))
  {
    seq(|v|, j requires 0 <= j < |v| => Dot(v, Column(m, |v|, j)))
  }

  /**
    `Vector::mult` is not the row-vector product its doc comment describes:
    for v = (1, 0) and m = [[0, 1], [0, 0]] it gives (0, 0), while v^T m is (0, 1).
   */
  lemma MultIsNotRowTimes()
    ensures Mult([1.0, 0.0], [[0.0, 1.0], [0.0, 0.0]]) == [0.0, 0.0]
    ensures RowTimes([1.0, 0.0], [[0.0, 1.0], [0.0, 0.0]]) == [0.0, 1.0]
  {
    var v := [1.0, 0.0];
    var m := [[0.0, 1.0], [0.0, 0.0]];
    assert IsMatrix(m, 2);
    assert Dot(m[0], v) == 0.0 by { assert DotPrefix(m[0], v, 1) == 0.0; }
    assert Dot(m[1], v) == 0.0 by { assert DotPrefix(m[1], v, 1) == 0.0; }
    assert Dot(v, Column(m, 2, 0)) == 0.0 by { assert DotPrefix(v, Column(m, 2, 0), 1) == 0.0; }
    assert Dot(v, Column(m, 2, 1)) == 1.0 by { assert DotPrefix(v, Column(m, 2, 1), 1) == 1.0; }
  }

  /** `cross`, defined for three dimensions only. */
  function Cross(a: Vector, b: Vector): (r: Vector)
    requires |a| == 3 && |b| == 3
    ensures |r| == 3
  {
    [a[1] * b[2] - a[2] * b[1],
     a[2] * b[0] - a[0] * b[2],
     a[0] * b[1] - a[1] * b[0]]
  }

  /** The cross product is anti-commutative, and a x a is the zero vector. */
  lemma CrossAntiCommutes(a: Vector, b: Vector)
    requires |a| == 3 && |b| == 3
    ensures Cross(a, b) == Scale(Cross(b, a), -1.0)
    ensures Cross(a, a) == Zero(3)
  {
    assert forall i :: 0 <= i < 3 ==> Cross(a, b)[i] == Scale(Cross(b, a), -1.0)[i];
    assert forall i :: 0 <= i < 3 ==> Cross(a, a)[i] == Zero(3)[i];
  }

  /** a x b is orthogonal to both a and b. */
  lemma CrossOrthogonal(a: Vector, b: Vector)
    requires |a| == 3 && |b| == 3
    ensures Dot(a, Cross(a, b)) == 0.0
    ensures Dot(b, Cross(a, b)) == 0.0
  {
    Dot3(a, Cross(a, b));
    Dot3(b, Cross(a, b));
  }

  /**
    On the standard basis the cross product is right-handed: e0 x e1 == e2,
    e1 x e2 == e0 and e2 x e0 == e1. With anti-commutation and bilinearity
    these products fix the formula, and they rule out its negation.
   */
  lemma CrossBasis()
    ensures Cross(Basis(3)[0], Basis(3)[1]) == Basis(3)[2]
    ensures Cross(Basis(3)[1], Basis(3)[2]) == Basis(3)[0]
    ensures Cross(Basis(3)[2], Basis(3)[0]) == Basis(3)[1]
  {
    var b := Basis(3);
    assert b[0] == [1.0, 0.0, 0.0] && b[1] == [0.0, 1.0, 0.0] && b[2] == [0.0, 0.0, 1.0];
  }

  /** `Add`: coordinatewise sum. */
  function Add(a: Vector, b: Vector): (r: Vector)
    requires |a| == |b|
    ensures |r| == |a|
    ensures forall i :: 0 <= i < |a| ==> r[i] == a[i] + b[i]
  {
    seq(|a|, i requires 0 <= i < |a| => a[i] + b[i])
  }

  /** `Sub`: coordinatewise difference. */
  function Sub(a: Vector, b: Vector): (r: Vector)
    requires |a| == |b|
    ensures |r| == |a|
    ensures forall i :: 0 <= i < |a| ==> r[i] == a[i] - b[i]
  {
    seq(|a|, i requires 0 <= i < |a| => a[i] - b[i])
  }

  /** Subtraction undoes addition, a - a is zero, and addition commutes. */
  lemma AddSubLaws(a: Vector, b: Vector)
    requires |a| == |b|
    ensures Sub(Add(a, b), b) == a
    ensures Sub(a, a) == Zero(|a|)
    ensures Add(a, b) == Add(b, a)
  {
    assert forall i :: 0 <= i < |a| ==> Sub(Add(a, b), b)[i] == a[i];
    assert forall i :: 0 <= i < |a| ==> Sub(a, a)[i] == Zero(|a|)[i];
    assert forall i :: 0 <= i < |a| ==> Add(a, b)[i] == Add(b, a)[i];
  }

  /** The dot product distributes over addition. */
  lemma {:induction false} DotAddPrefix(a: Vector, b: Vector, c: Vector, k: nat)
    requires |a| == |b| == |c| && k <= |a|
    ensures DotPrefix(Add(a, b), c, k) == DotPrefix(a, c, k) + DotPrefix(b, c, k)
    decreases k
  {
    if k > 0 {
      DotAddPrefix(a, b, c, k - 1);
      assert Add(a, b)[k - 1] * c[k - 1] == a[k - 1] * c[k - 1] + b[k - 1] * c[k - 1];
    }
  }

  lemma DotAdd(a: Vector, b: Vector, c: Vector)
    requires |a| == |b| == |c|
    ensures Dot(Add(a, b), c) == Dot(a, c) + Dot(b, c)
  {
    DotAddPrefix(a, b, c, |a|);
  }
}
