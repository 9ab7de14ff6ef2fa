// Population initialisation, weight mutation and the PSO velocity / position
// update (`initPopulation`, `computeNewWeights`, `computeNewVel`,
// `computeNewPos` in src/operations.hpp).

module Motion {
  import opened Weights
  import opened Populations
  import opened Random

  /** `lo + (hi - lo) * u`: a uniform draw in [0, 1] mapped into [lo, hi]. */
  function Lerp(lo: real, hi: real, u: real): (r: real)
    ensures lo <= hi && 0.0 <= u <= 1.0 ==> lo <= r <= hi
    ensures u == 0.0 ==> r == lo
    ensures u == 1.0 ==> r == hi
  {
    ScaledUnitDraw(u, hi - lo);
    lo + (hi - lo) * u
  }

  /**
   * `initPopulation`: every weight from six uniform draws, then every
   * position and velocity uniformly inside its bounds.
   */
  method InitPopulation(current: Population, d: Draws,
                        xMin: seq<real>, xMax: seq<real>, vMin: seq<real>, vMax: seq<real>,
                        maxVelocity: real)
    requires current.Valid()
    requires current.Dims() <= |xMin| && current.Dims() <= |xMax| && current.Dims() <= |vMin| && current.Dims() <= |vMax|
    modifies current.particles, current.velocity, current.weights
    ensures forall i :: 0 <= i < current.Size() ==> current.weights[i] == Init(d.WeightUniforms(i), maxVelocity)
    ensures forall i, j :: 0 <= i < current.Size() && 0 <= j < current.Dims() ==>
              && current.particles[i, j] == Lerp(xMin[j], xMax[j], d.uniformPosition(i, j))
              && current.velocity[i, j] == Lerp(vMin[j], vMax[j], d.uniformVelocity(i, j))
  {
    for i := 0 to current.Size()
      invariant forall t :: 0 <= t < i ==> current.weights[t] == Init(d.WeightUniforms(t), maxVelocity)
    {
      current.weights[i] := Init(d.WeightUniforms(i), maxVelocity);
    }
    for i := 0 to current.Size()
      modifies current.particles, current.velocity
      invariant forall t, j :: 0 <= t < i && 0 <= j < current.Dims() ==>
                  && current.particles[t, j] == Lerp(xMin[j], xMax[j], d.uniformPosition(t, j))
                  && current.velocity[t, j] == Lerp(vMin[j], vMax[j], d.uniformVelocity(t, j))
    {
      for j := 0 to current.Dims()
        modifies current.particles, current.velocity
        invariant forall t, c :: 0 <= t < i && 0 <= c < current.Dims() ==>
                    && current.particles[t, c] == Lerp(xMin[c], xMax[c], d.uniformPosition(t, c))
                    && current.velocity[t, c] == Lerp(vMin[c], vMax[c], d.uniformVelocity(t, c))
        invariant forall c :: 0 <= c < j ==>
                    && current.particles[i, c] == Lerp(xMin[c], xMax[c], d.uniformPosition(i, c))
                    && current.velocity[i, c] == Lerp(vMin[c], vMax[c], d.uniformVelocity(i, c))
      {
        current.particles[i, j] := xMin[j] + (xMax[j] - xMin[j]) * d.uniformPosition(i, j);
        current.velocity[i, j] := vMin[j] + (vMax[j] - vMin[j]) * d.uniformVelocity(i, j);
      }
    }
  }

  /** `computeNewWeights`: every weight of `dst` becomes a noisy, clipped copy of the matching weight of `src`. */
  method ComputeNewWeights(src: Population, dst: Population, mutationRate: real, maxVelocity: real, d: Draws)
    requires src.Valid() && dst.Valid() && src.weights != dst.weights
    requires src.Size() <= dst.Size()
    modifies dst.weights
    ensures forall i :: 0 <= i < src.Size() ==>
              dst.weights[i] == CopyWithNoise(src.weights[i], mutationRate, maxVelocity, d.WeightNoise(i))
    ensures forall i :: src.Size() <= i < dst.Size() ==> dst.weights[i] == old(dst.weights[i])
  {
    for i := 0 to src.Size()
      invariant forall t :: 0 <= t < i ==>
                  dst.weights[t] == CopyWithNoise(src.weights[t], mutationRate, maxVelocity, d.WeightNoise(t))
      invariant forall t :: i <= t < dst.Size() ==> dst.weights[t] == old(dst.weights[t])
    {
      dst.weights[i] := CopyWithNoise(src.weights[i], mutationRate, maxVelocity, d.WeightNoise(i));
    }
  }

  /** `t > hi ? hi : t < lo ? lo : t`. */
  function Saturate(t: real, lo: real, hi: real): (r: real)
    ensures lo <= hi ==> lo <= r <= hi
    ensures lo <= t <= hi ==> r == t
    ensures hi < t ==> r == hi
    ensures t <= hi && t < lo ==> r == lo
  {
    if t > hi then hi else if t < lo then lo else t
  }

  /** The factor `1 + pPerturbation * z` applied to the global best. */
  function Perturbation(w: Weight, z: real): real
  {
    1.0 + w.pPerturbation * z
  }

  /**
   * The new velocity of one coordinate: inertia plus the pull towards the
   * personal best plus, when the coin allows, the pull towards the perturbed
   * global best, clamped into [lo, hi]. A particle at rest on its attractors
   * stays at rest.
   */
  function NewVelocity(w: Weight, v: real, x: real, best: real, g: real, noise: real,
                       cooperate: bool, lo: real, hi: real): (r: real)
    ensures lo <= hi ==> lo <= r <= hi
    ensures lo <= 0.0 <= hi && v == 0.0 && x == best && (!cooperate || g * noise == x) ==> r == 0.0
  {
    Saturate(Pull(w, v, x, best, g, noise, cooperate), lo, hi)
  }

  /** The unclamped new velocity: inertia, memory and (when the coin allows) cooperation terms. */
  function Pull(w: Weight, v: real, x: real, best: real, g: real, noise: real, cooperate: bool): real
  {
    var inertia := w.pInertia * v;
    var memory := w.pMemory * (best - x);
    var cooperation := if cooperate then w.pCooperation * (g * noise - x) else 0.0;
    inertia + memory + cooperation
  }

  /** The velocity `computeNewVel` writes at (i, k) when the old velocity there is `v`. */
  ghost function UpdatedVelocity(pop: Population, d: Draws, myBest: Population, gBest: seq<real>,
                                 vMin: seq<real>, vMax: seq<real>, i: nat, k: nat, v: real): real
    reads pop.particles, pop.weights, myBest.particles
    requires Compatible(pop, myBest) && i < pop.Size() && i < myBest.Size() && k < pop.Dims()
    requires k < |gBest| && k < |vMin| && k < |vMax|
  {
    NewVelocity(pop.weights[i], v, pop.particles[i, k], myBest.particles[i, k],
                gBest[k], Perturbation(pop.weights[i], d.perturbation(i)), d.coin(i, k), vMin[k], vMax[k])
  }

  /** The inner loop of `computeNewVel`: rewrites velocity row `i`. */
  method NewVelocityRow(pop: Population, i: nat, d: Draws, myBest: Population, gBest: seq<real>,
                        vMin: seq<real>, vMax: seq<real>)
    requires Compatible(pop, myBest) && i < pop.Size() && pop.Size() <= myBest.Size()
    requires pop.Dims() <= |gBest| && pop.Dims() <= |vMin| && pop.Dims() <= |vMax|
    modifies pop.velocity
    ensures forall k :: 0 <= k < pop.Dims() ==>
              pop.velocity[i, k] == UpdatedVelocity(pop, d, myBest, gBest, vMin, vMax, i, k, old(pop.velocity[i, k]))
    ensures forall t, k :: 0 <= t < pop.Size() && t != i && 0 <= k < pop.Dims() ==>
              pop.velocity[t, k] == old(pop.velocity[t, k])
  {
    var weight := pop.weights[i];
    var noise := 1.0 + weight.pPerturbation * d.perturbation(i);
    for k := 0 to pop.Dims()
      invariant forall c :: 0 <= c < k ==>
                  pop.velocity[i, c] == UpdatedVelocity(pop, d, myBest, gBest, vMin, vMax, i, c, old(pop.velocity[i, c]))
      invariant forall t, c :: 0 <= t < pop.Size() && 0 <= c < pop.Dims() && (t != i || k <= c) ==>
                  pop.velocity[t, c] == old(pop.velocity[t, c])
    {
      var vel, pos, mbp := pop.velocity[i, k], pop.particles[i, k], myBest.particles[i, k];
      assert vel == old(pop.velocity[i, k]);
      var tmp := Pull(weight, vel, pos, mbp, gBest[k], noise, d.coin(i, k));
      assert noise == Perturbation(pop.weights[i], d.perturbation(i));
      pop.velocity[i, k] := if tmp > vMax[k] then vMax[k] else if tmp < vMin[k] then vMin[k] else tmp;
    }
  }

  /**
   * `computeNewVel`: rewrites every velocity entry of `pop` from its own
   * weight, position and velocity, the personal best and the global best.
   * Positions, weights and `myBest` are only read.
   */
  method ComputeNewVel(pop: Population, d: Draws, myBest: Population, gBest: seq<real>,
                       vMin: seq<real>, vMax: seq<real>)
    requires Compatible(pop, myBest) && pop.Size() <= myBest.Size()
    requires pop.Dims() <= |gBest| && pop.Dims() <= |vMin| && pop.Dims() <= |vMax|
    modifies pop.velocity
    ensures forall i, k :: 0 <= i < pop.Size() && 0 <= k < pop.Dims() ==>
              pop.velocity[i, k]
                == NewVelocity(pop.weights[i], old(pop.velocity[i, k]), pop.particles[i, k], myBest.particles[i, k],
                               gBest[k], Perturbation(pop.weights[i], d.perturbation(i)), d.coin(i, k), vMin[k], vMax[k])
  {
    for i := 0 to pop.Size()
      invariant forall t, k :: 0 <= t < i && 0 <= k < pop.Dims() ==>
                  pop.velocity[t, k] == UpdatedVelocity(pop, d, myBest, gBest, vMin, vMax, t, k, old(pop.velocity[t, k]))
      invariant forall t, k :: i <= t < pop.Size() && 0 <= k < pop.Dims() ==> pop.velocity[t, k] == old(pop.velocity[t, k])
    {
      NewVelocityRow(pop, i, d, myBest, gBest, vMin, vMax);
    }
  }

  /** `computeNewPos`: every position moves by its velocity; velocities are only read. */
  method ComputeNewPos(pop: Population)
    requires pop.Valid()
    modifies pop.particles
    ensures forall i, j :: 0 <= i < pop.Size() && 0 <= j < pop.Dims() ==>
              pop.particles[i, j] == old(pop.particles[i, j]) + pop.velocity[i, j]
  {
    for i := 0 to pop.Size()
      invariant forall t, j :: 0 <= t < i && 0 <= j < pop.Dims() ==>
                  pop.particles[t, j] == old(pop.particles[t, j]) + pop.velocity[t, j]
      invariant forall t, j :: i <= t < pop.Size() && 0 <= j < pop.Dims() ==> pop.particles[t, j] == old(pop.particles[t, j])
    {
      for j := 0 to pop.Dims()
        invariant forall t, c :: 0 <= t < i && 0 <= c < pop.Dims() ==>
                    pop.particles[t, c] == old(pop.particles[t, c]) + pop.velocity[t, c]
        invariant forall c :: 0 <= c < j ==> pop.particles[i, c] == old(pop.particles[i, c]) + pop.velocity[i, c]
        invariant forall t, c :: (i < t < pop.Size() && 0 <= c < pop.Dims()) || (t == i && j <= c < pop.Dims()) ==>
                    pop.particles[t, c] == old(pop.particles[t, c])
      {
        pop.particles[i, j] := pop.particles[i, j] + pop.velocity[i, j];
      }
    }
  }
}
