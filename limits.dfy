// Bound vectors and bound enforcement (`initLimits`, `enforceLimits` in
// src/operations.hpp).

module Limits {
  import opened Populations

  /**
   * C++ conversion of a double to `int`: truncation toward zero. The engine
   * passes the configured (double) position bounds to `initLimits`, whose
   * bound parameters are `int`.
   */
  function TruncateToInt(x: real): (r: int)
    ensures 0.0 <= x ==> r as real <= x < r as real + 1.0
    ensures x < 0.0 ==> r as real - 1.0 < x <= r as real
  {
    if x >= 0.0 then x.Floor else -((-x).Floor)
  }

  /** Velocity limits mirror the position range: vMin = xMin - xMax and vMax = -vMin. */
  ghost predicate Symmetric(xMin: seq<real>, xMax: seq<real>, vMin: seq<real>, vMax: seq<real>)
  {
    && |xMin| == |xMax| == |vMin| == |vMax|
    && forall j :: 0 <= j < |vMin| ==> vMin[j] == xMin[j] - xMax[j] && vMax[j] == -vMin[j]
  }

  /** `initLimits`: broadcasts the scalar bounds to the first `dims` entries. */
  method InitLimits(dims: nat, minValue: int, maxValue: int,
                    xMin: array<real>, xMax: array<real>, vMin: array<real>, vMax: array<real>)
    requires dims <= xMin.Length && dims <= xMax.Length && dims <= vMin.Length && dims <= vMax.Length
    requires xMin != xMax && xMin != vMin && xMin != vMax && xMax != vMin && xMax != vMax && vMin != vMax
    modifies xMin, xMax, vMin, vMax
    ensures forall j :: 0 <= j < dims ==>
              && xMin[j] == minValue as real && xMax[j] == maxValue as real
              && vMin[j] == xMin[j] - xMax[j] && vMax[j] == -vMin[j]
    ensures Symmetric(xMin[..dims], xMax[..dims], vMin[..dims], vMax[..dims])
    ensures xMin[dims..] == old(xMin[dims..]) && xMax[dims..] == old(xMax[dims..])
    ensures vMin[dims..] == old(vMin[dims..]) && vMax[dims..] == old(vMax[dims..])
  {
    for i := 0 to dims
      invariant forall j :: 0 <= j < i ==>
                  && xMin[j] == minValue as real && xMax[j] == maxValue as real
                  && vMin[j] == xMin[j] - xMax[j] && vMax[j] == -vMin[j]
      invariant xMin[i..] == old(xMin[i..]) && xMax[i..] == old(xMax[i..])
      invariant vMin[i..] == old(vMin[i..]) && vMax[i..] == old(vMax[i..])
    {
      xMin[i] := minValue as real;
      xMax[i] := maxValue as real;
      vMin[i] := xMin[i] - xMax[i];
      vMax[i] := -vMin[i];
    }
  }

  /**
   * One coordinate of `enforceLimits`: a position below `xMin` is raised to
   * it and a negative velocity turned positive; a position above `xMax` is
   * lowered to it and a positive velocity turned negative; then the velocity
   * is clamped into [vMin, vMax]. Returns (new position, new velocity).
   */
  function EnforceCoord(x: real, v: real, xMin: real, xMax: real, vMin: real, vMax: real): (r: (real, real))
    ensures xMin <= xMax ==> xMin <= r.0 <= xMax
    ensures vMin <= vMax ==> vMin <= r.1 <= vMax
    ensures xMin <= x <= xMax ==> r.0 == x
    ensures x < xMin ==> r.0 == xMin
    ensures !(x < xMin) && xMax < x ==> r.0 == xMax
    ensures vMin <= 0.0 <= vMax && x < xMin ==> r.1 >= 0.0
    ensures vMin <= 0.0 <= vMax && !(x < xMin) && xMax < x ==> r.1 <= 0.0
    ensures xMin <= x <= xMax && vMin <= v <= vMax ==> r == (x, v)
  {
    var (x1, v1) :=
      if x < xMin then (xMin, if v < 0.0 then -v else v)
      else if x > xMax then (xMax, if v > 0.0 then -v else v)
      else (x, v);
    var v2 := if v1 < vMin then vMin else if v1 > vMax then vMax else v1;
    (x1, v2)
  }

  /** `enforceLimits`: applies EnforceCoord to every coordinate of the population, in place. */
  method EnforceLimits(pop: Population, xMin: seq<real>, xMax: seq<real>, vMin: seq<real>, vMax: seq<real>)
    requires pop.Valid()
    requires pop.Dims() <= |xMin| && pop.Dims() <= |xMax| && pop.Dims() <= |vMin| && pop.Dims() <= |vMax|
    modifies pop.particles, pop.velocity
    ensures forall i, j :: 0 <= i < pop.Size() && 0 <= j < pop.Dims() ==>
              (pop.particles[i, j], pop.velocity[i, j])
                == EnforceCoord(old(pop.particles[i, j]), old(pop.velocity[i, j]), xMin[j], xMax[j], vMin[j], vMax[j])
  {
    for i := 0 to pop.Size()
      invariant forall t, j :: 0 <= t < i && 0 <= j < pop.Dims() ==>
                  (pop.particles[t, j], pop.velocity[t, j])
                    == EnforceCoord(old(pop.particles[t, j]), old(pop.velocity[t, j]), xMin[j], xMax[j], vMin[j], vMax[j])
      invariant forall t, j :: i <= t < pop.Size() && 0 <= j < pop.Dims() ==>
                  pop.particles[t, j] == old(pop.particles[t, j]) && pop.velocity[t, j] == old(pop.velocity[t, j])
    {
      for j := 0 to pop.Dims()
        invariant forall t, c :: 0 <= t < i && 0 <= c < pop.Dims() ==>
                    (pop.particles[t, c], pop.velocity[t, c])
                      == EnforceCoord(old(pop.particles[t, c]), old(pop.velocity[t, c]), xMin[c], xMax[c], vMin[c], vMax[c])
        invariant forall c :: 0 <= c < j ==>
                    (pop.particles[i, c], pop.velocity[i, c])
                      == EnforceCoord(old(pop.particles[i, c]), old(pop.velocity[i, c]), xMin[c], xMax[c], vMin[c], vMax[c])
        invariant forall t, c :: (i < t < pop.Size() && 0 <= c < pop.Dims()) || (t == i && j <= c < pop.Dims()) ==>
                    pop.particles[t, c] == old(pop.particles[t, c]) && pop.velocity[t, c] == old(pop.velocity[t, c])
      {
        if pop.particles[i, j] < xMin[j] {
          pop.particles[i, j] := xMin[j];
          if pop.velocity[i, j] < 0.0 {
            pop.velocity[i, j] := -pop.velocity[i, j];
          }
        } else if pop.particles[i, j] > xMax[j] {
          pop.particles[i, j] := xMax[j];
          if pop.velocity[i, j] > 0.0 {
            pop.velocity[i, j] := -pop.velocity[i, j];
          }
        }
        if pop.velocity[i, j] < vMin[j] {
          pop.velocity[i, j] := vMin[j];
        } else if pop.velocity[i, j] > vMax[j] {
          pop.velocity[i, j] := vMax[j];
        }
      }
    }
  }
}
