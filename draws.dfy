// The random stream, reduced to what the engine observes of it. Every draw
// an operation makes is read from an oracle indexed by the particle (and the
// dimension or field) it is drawn for, so each property proved holds for
// every possible outcome of the generator. One `Draws` value serves one
// phase of a generation.

module Random {

  datatype Draws = Draws(
    uniform: (nat, nat) -> real,          // uniformDouble for weight field k of particle i
    uniformPosition: (nat, nat) -> real,  // uniformDouble for position (i, j)
    uniformVelocity: (nat, nat) -> real,  // uniformDouble for velocity (i, j)
    normal: (nat, nat) -> real,           // normalDouble for weight field k of particle i
    perturbation: nat -> real,            // normalDouble scaling the global best of particle i
    coin: (nat, nat) -> bool,             // unfairCoin for dimension j of particle i
    uniformInt: nat -> nat,               // uniformInt(dims): forced crossover index of particle i
    shuffle: (nat, seq<int>) -> seq<int>) // shuffle of particle i's candidate list
  {
    /** The generator's contract for `shuffle`: it permutes its argument. */
    ghost predicate ShufflePermutes()
    {
      forall i: nat, c: seq<int> :: multiset(shuffle(i, c)) == multiset(c)
    }

    /** The generator's contract for `uniformDouble`: draws lie in [0, 1]. */
    ghost predicate UniformInUnit()
    {
      && (forall i: nat, k: nat :: 0.0 <= uniform(i, k) <= 1.0)
      && (forall i: nat, j: nat :: 0.0 <= uniformPosition(i, j) <= 1.0)
      && (forall i: nat, j: nat :: 0.0 <= uniformVelocity(i, j) <= 1.0)
    }

    /** The six uniform draws `Weight::init` makes for particle `i`, in field order. */
    function WeightUniforms(i: nat): (u: seq<real>)
      ensures |u| == 6
      ensures forall k :: 0 <= k < 6 ==> u[k] == uniform(i, k)
    {
      seq(6, k requires 0 <= k => uniform(i, k))
    }

    /** The six normal draws `Weight::copyWithNoise` makes for particle `i`, in field order. */
    function WeightNoise(i: nat): (z: seq<real>)
      ensures |z| == 6
      ensures forall k :: 0 <= k < 6 ==> z[k] == normal(i, k)
    {
      seq(6, k requires 0 <= k => normal(i, k))
    }
  }
}
