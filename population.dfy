// A population: a popSize x dims position matrix, a velocity matrix of the
// same shape and one Weight per row. The three buffers are allocated once, so
// their identity and shape never change (`const` fields); only their
// contents are updated in place.

module Populations {
  import opened Weights
  import opened Matrices

  class Population {
    const particles: array2<real>
    const velocity: array2<real>
    const weights: array<Weight>

    /** Both matrices have the same shape and one weight per row. */
    ghost predicate Valid()
    {
      && particles.Length0 == velocity.Length0 == weights.Length
      && particles.Length1 == velocity.Length1
      && particles != velocity
    }

    /** Number of particles (rows). */
    function Size(): nat
    {
      particles.Length0
    }

    /** Number of dimensions (columns). */
    function Dims(): nat
    {
      particles.Length1
    }

    /**
     * Zero positions and velocities; the weights are default-constructed
     * and left unset, so nothing is known about them.
     */
    constructor (popSize: nat, dims: nat)
      ensures Valid() && Size() == popSize && Dims() == dims
      ensures weights.Length == popSize
      ensures fresh(particles) && fresh(velocity) && fresh(weights)
      ensures forall i, j :: 0 <= i < popSize && 0 <= j < dims ==>
                particles[i, j] == 0.0 && velocity[i, j] == 0.0
    {
      particles := new real[popSize, dims]((i, j) => 0.0);
      velocity := new real[popSize, dims]((i, j) => 0.0);
      weights := new Weight[popSize];
    }

    /**
     * Copies every weight, then every position and velocity entry of the
     * first Size() rows and Dims() columns of `other` into this population.
     */
    method CloneFrom(other: Population)
      requires Valid() && other.Valid() && Separate(this, other)
      requires Size() <= other.Size() && Dims() <= other.Dims()
      modifies particles, velocity, weights
      ensures forall i :: 0 <= i < Size() ==> weights[i] == other.weights[i]
      ensures forall i, j :: 0 <= i < Size() && 0 <= j < Dims() ==>
                particles[i, j] == other.particles[i, j] && velocity[i, j] == other.velocity[i, j]
    {
      for i := 0 to Size()
        invariant forall t :: 0 <= t < i ==> weights[t] == other.weights[t]
      {
        weights[i] := other.weights[i];
      }
      for i := 0 to Size()
        invariant forall t :: 0 <= t < Size() ==> weights[t] == other.weights[t]
        invariant forall t, j :: 0 <= t < i && 0 <= j < Dims() ==>
                    particles[t, j] == other.particles[t, j] && velocity[t, j] == other.velocity[t, j]
      {
        for j := 0 to Dims()
          invariant forall t :: 0 <= t < Size() ==> weights[t] == other.weights[t]
          invariant forall t, c :: 0 <= t < i && 0 <= c < Dims() ==>
                      particles[t, c] == other.particles[t, c] && velocity[t, c] == other.velocity[t, c]
          invariant forall c :: 0 <= c < j ==>
                      particles[i, c] == other.particles[i, c] && velocity[i, c] == other.velocity[i, c]
        {
          particles[i, j] := other.particles[i, j];
          velocity[i, j] := other.velocity[i, j];
        }
      }
    }
  }

  /** Two populations own distinct buffers. */
  predicate Separate(a: Population, b: Population)
  {
    && a.particles != b.particles && a.particles != b.velocity
    && a.velocity != b.particles && a.velocity != b.velocity
    && a.weights != b.weights
  }

  /** Populations of the same shape that own distinct buffers. */
  ghost predicate Compatible(a: Population, b: Population)
  {
    a.Valid() && b.Valid() && Separate(a, b) && a.Dims() == b.Dims()
  }

  /** Slot `i` of `dst` holds the particle, velocity and weight of slot `k` of `src`. */
  ghost predicate Holds(dst: Population, i: nat, src: Population, k: nat)
    reads dst.particles, dst.velocity, dst.weights, src.particles, src.velocity, src.weights
    requires Compatible(dst, src) && i < dst.Size() && k < src.Size()
  {
    && SameRow(dst.particles, i, src.particles, k)
    && SameRow(dst.velocity, i, src.velocity, k)
    && dst.weights[i] == src.weights[k]
  }

  /**
   * Copies particle row `srcId`, velocity row `srcId` and weight `srcId` of
   * `src` into slot `dstId` of `dst` (two `importRow`s and a weight
   * assignment); every other slot of `dst` is left as it was.
   */
  method ImportSlot(dst: Population, dstId: nat, src: Population, srcId: nat)
    requires Compatible(dst, src)
    requires dstId < dst.Size() && srcId < src.Size()
    modifies dst.particles, dst.velocity, dst.weights
    ensures Holds(dst, dstId, src, srcId)
    ensures forall i, j :: 0 <= i < dst.Size() && i != dstId && 0 <= j < dst.Dims() ==>
              dst.particles[i, j] == old(dst.particles[i, j]) && dst.velocity[i, j] == old(dst.velocity[i, j])
    ensures forall i :: 0 <= i < dst.Size() && i != dstId ==> dst.weights[i] == old(dst.weights[i])
  {
    for j := 0 to dst.Dims()
      invariant forall c :: 0 <= c < j ==>
                  dst.particles[dstId, c] == src.particles[srcId, c] && dst.velocity[dstId, c] == src.velocity[srcId, c]
      invariant dst.weights[..] == old(dst.weights[..])
      invariant forall i, c :: 0 <= i < dst.Size() && i != dstId && 0 <= c < dst.Dims() ==>
                  dst.particles[i, c] == old(dst.particles[i, c]) && dst.velocity[i, c] == old(dst.velocity[i, c])
    {
      dst.particles[dstId, j] := src.particles[srcId, j];
      dst.velocity[dstId, j] := src.velocity[srcId, j];
    }
    dst.weights[dstId] := src.weights[srcId];
  }
}
