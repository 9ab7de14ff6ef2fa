// The six self-adaptive parameters a particle carries. In the source a
// `Weight` is a value that is copied by assignment wherever it moves
// (between populations, into the personal best and the archive), so here
// it is a datatype, and `init` / `copyWithNoise`, which overwrite all six
// fields of the receiver, are functions that give the receiver's new value.

module Weights {

  datatype Weight = Weight(
    pInertia: real,       // weight of the previous velocity
    pMemory: real,        // pull towards the personal best
    pCooperation: real,   // pull towards the global best
    pPerturbation: real,  // magnitude of the noise applied to the global best
    dThreshold: real,     // crossover probability of the recombination
    dVelocity: real)      // differential step of the recombination

  /** Number of fields of a Weight. */
  const FieldCount: nat := 6

  /** Field `k` of `w`, in declaration order. */
  function Field(w: Weight, k: nat): real
    requires k < FieldCount
  {
    match k
    case 0 => w.pInertia
    case 1 => w.pMemory
    case 2 => w.pCooperation
    case 3 => w.pPerturbation
    case 4 => w.dThreshold
    case _ => w.dVelocity
  }

  /** Upper clip bound of field `k`: 1 for the five probabilities, `maxVelocity` for `dVelocity`. */
  function Cap(k: nat, maxVelocity: real): real
  {
    if k == FieldCount - 1 then maxVelocity else 1.0
  }

  /** Every field lies in [0, its cap]. */
  predicate InRange(w: Weight, maxVelocity: real)
  {
    && 0.0 <= w.pInertia <= 1.0
    && 0.0 <= w.pMemory <= 1.0
    && 0.0 <= w.pCooperation <= 1.0
    && 0.0 <= w.pPerturbation <= 1.0
    && 0.0 <= w.dThreshold <= 1.0
    && 0.0 <= w.dVelocity <= maxVelocity
  }

  /** A uniform draw in [0, 1] scaled by a non-negative bound stays in [0, bound]. */
  lemma ScaledUnitDraw(u: real, scale: real)
    ensures 0.0 <= u <= 1.0 && 0.0 <= scale ==> 0.0 <= u * scale <= scale
  {
    if 0.0 <= u <= 1.0 && 0.0 <= scale {
      assert (1.0 - u) * scale >= 0.0;
    }
  }

  /**
   * `Weight::init`: the first five fields take the uniform draws `u[0..5]`,
   * `dVelocity` takes `u[5] * maxVelocity`. Under the generator's contract
   * (uniform draws lie in [0, 1]) the result is in range.
   */
  function Init(u: seq<real>, maxVelocity: real): (w: Weight)
    requires |u| == FieldCount
    ensures forall k :: 0 <= k < FieldCount - 1 ==> Field(w, k) == u[k]
    ensures w.dVelocity == u[5] * maxVelocity
    ensures ((forall k :: 0 <= k < FieldCount ==> 0.0 <= u[k] <= 1.0) && 0.0 <= maxVelocity)
            ==> InRange(w, maxVelocity)
  {
    var draw := u[5];
    ScaledUnitDraw(draw, maxVelocity);
    Weight(u[0], u[1], u[2], u[3], u[4], draw * maxVelocity)
  }

  /**
   * The scalar `copyWithNoise`: `s + z * mutationRate` for the normal draw
   * `z`, clipped to [0, max]. The lower clip is tested first.
   */
  function CopyScalarWithNoise(s: real, mutationRate: real, max: real, z: real): (r: real)
    ensures 0.0 <= max ==> 0.0 <= r <= max
    ensures 0.0 <= s + z * mutationRate <= max ==> r == s + z * mutationRate
    ensures s + z * mutationRate < 0.0 ==> r == 0.0
    ensures 0.0 <= s + z * mutationRate && max < s + z * mutationRate ==> r == max
  {
    var v := s + z * mutationRate;
    if v < 0.0 then 0.0
    else if v > max then max
    else v
  }

  /**
   * The field-wise `copyWithNoise`: field `k` of the result is the scalar copy
   * of field `k` of `s`, with its own cap and the `k`-th normal draw; the six
   * draws are consumed in field order. The result is always in range.
   */
  function CopyWithNoise(s: Weight, mutationRate: real, maxVelocity: real, z: seq<real>): (w: Weight)
    requires |z| == FieldCount
    ensures forall k :: 0 <= k < FieldCount ==>
              Field(w, k) == CopyScalarWithNoise(Field(s, k), mutationRate, Cap(k, maxVelocity), z[k])
    ensures 0.0 <= maxVelocity ==> InRange(w, maxVelocity)
  {
    Weight(
      CopyScalarWithNoise(s.pInertia, mutationRate, 1.0, z[0]),
      CopyScalarWithNoise(s.pMemory, mutationRate, 1.0, z[1]),
      CopyScalarWithNoise(s.pCooperation, mutationRate, 1.0, z[2]),
      CopyScalarWithNoise(s.pPerturbation, mutationRate, 1.0, z[3]),
      CopyScalarWithNoise(s.dThreshold, mutationRate, 1.0, z[4]),
      CopyScalarWithNoise(s.dVelocity, mutationRate, maxVelocity, z[5]))
  }
}
