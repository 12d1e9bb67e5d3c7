/**
  The search-oriented operations on `Vector<N>`: the per-coordinate bounds check
  and discrete crossover. The random numbers `child_discrete` draws from the
  thread-local generator are inputs here, one `GeneDraws` per coordinate.
 */
module Genetic {
  import opened Linalg

  /** x satisfies the optional lower and upper bound of its coordinate. */
  predicate WithinBounds(x: real, lower: Option<real>, upper: Option<real>) {
    (lower.Some? ==> x >= lower.value) && (upper.Some? ==> x <= upper.value)
  }

  /** The loop of `check` from coordinate i on: stop with false at the first bound that is violated. */
  function CheckFrom(v: Vector, lower: seq<Option<real>>, upper: seq<Option<real>>, i: nat): (ok: bool)
    requires |lower| == |v| && |upper| == |v| && i <= |v|
    ensures ok <==> forall k :: i <= k < |v| ==> WithinBounds(v[k], lower[k], upper[k])
    decreases |v| - i
  {
    if i == |v| then true
    else if lower[i].Some? && v[i] < lower[i].value then false
    else if upper[i].Some? && v[i] > upper[i].value then false
    else CheckFrom(v, lower, upper, i + 1)
  }

  /** `check`: true exactly when every coordinate satisfies the bounds given for it. */
  function Check(v: Vector, lower: seq<Option<real>>, upper: seq<Option<real>>): (ok: bool)
    requires |lower| == |v| && |upper| == |v|
    ensures ok <==> forall k :: 0 <= k < |v| ==> WithinBounds(v[k], lower[k], upper[k])
  {
    CheckFrom(v, lower, upper, 0)
  }

  /** A missing bound never makes the check fail, and with no bounds at all every vector passes. */
  lemma MissingBoundsNeverFail(v: Vector, lower: seq<Option<real>>, upper: seq<Option<real>>)
    requires |lower| == |v| && |upper| == |v|
    ensures (forall k :: 0 <= k < |v| ==> lower[k].None? && upper[k].None?) ==> Check(v, lower, upper)
    ensures !Check(v, lower, upper) ==>
      exists k :: 0 <= k < |v| && ((lower[k].Some? && v[k] < lower[k].value) || (upper[k].Some? && v[k] > upper[k].value))
  {
  }

  /** (3, 10, -2) exceeds the upper bound 5 of its second coordinate; (3, 4, -2) is within all bounds. */
  lemma CheckExample()
    ensures !Check([3.0, 10.0, -2.0], [Some(0.0), None, None], [None, Some(5.0), None])
    ensures Check([3.0, 4.0, -2.0], [Some(0.0), None, None], [None, Some(5.0), None])
  {
    assert !WithinBounds(10.0, None, Some(5.0));
  }

  /**
    The random numbers drawn for one coordinate: the crossover coin in [0, 1),
    the mutation draw in [0, 1), and the index `choose` would pick from the
    permitted values.
   */
  datatype GeneDraws = GeneDraws(coin: real, mutation: real, choice: nat)

  /** The mutation of a coordinate fires with probability 1/n: the draw is below 1/n. */
  predicate Mutates(d: GeneDraws, n: nat) {
    n > 0 && d.mutation < 1.0 / (n as real)
  }

  /**
    `child_discrete`: coordinate i is taken from the mother when the coin is
    below 0.5 and from the father otherwise; if its mutation fires it is
    replaced by a permitted value. A mutation with no permitted values makes
    `choose` return nothing and the `unwrap` panic, modelled as None.
   */
  method ChildDiscrete(mother: Vector, father: Vector, permitted: seq<real>, draws: seq<GeneDraws>)
    returns (child: Option<Vector>)
    requires |mother| == |draws| && |father| == |draws|
    ensures child.None? <==> |permitted| == 0 && exists i :: 0 <= i < |draws| && Mutates(draws[i], |draws|)
    ensures child.Some? ==> |child.value| == |draws|
    ensures child.Some? ==> forall i :: 0 <= i < |draws| ==>
      if Mutates(draws[i], |draws|)
      then |permitted| > 0 && child.value[i] == permitted[draws[i].choice % |permitted|]
      else child.value[i] == if draws[i].coin < 0.5 then mother[i] else father[i]
    ensures child.Some? ==> forall i :: 0 <= i < |draws| ==>
      child.value[i] == mother[i] || child.value[i] == father[i] || child.value[i] in permitted
  {
    var n := |draws|;
    var c := seq(n, i => 0.0);
    for i := 0 to n
      invariant |c| == n
      invariant forall k :: 0 <= k < i ==> !(|permitted| == 0 && Mutates(draws[k], n))
      invariant forall k :: 0 <= k < i ==>
        if Mutates(draws[k], n)
        then |permitted| > 0 && c[k] == permitted[draws[k].choice % |permitted|]
        else c[k] == if draws[k].coin < 0.5 then mother[k] else father[k]
    {
      c := c[i := if draws[i].coin < 0.5 then mother[i] else father[i]];
      if draws[i].mutation < 1.0 / (n as real) {
        if |permitted| == 0 {
          child := None;
          return;
        }
        c := c[i := permitted[draws[i].choice % |permitted|]];
      }
    }
    child := Some(c);
  }
}
