// The CDEEPSO engine (class CDEEPSO in src/cdeepso.hpp): the state it owns,
// evaluation-budget accounting, the three ways a generation builds a
// population, the merge step and the generation loop.

module Optimizer {
  import opened Config
  import opened Matrices
  import opened Weights
  import opened Populations
  import opened Random
  import opened Limits
  import opened Motion
  import opened Selection
  import opened Recombination

  /** Number of true flags. */
  function CountTrue(s: seq<bool>): (r: nat)
    ensures r <= |s|
    ensures (forall i :: 0 <= i < |s| ==> s[i]) ==> r == |s|
    ensures (forall i :: 0 <= i < |s| ==> !s[i]) ==> r == 0
  {
    if |s| == 0 then 0
    else CountTrue(s[..|s| - 1]) + (if s[|s| - 1] then 1 else 0)
  }

  /**
   * One coordinate of a PSO move: the new velocity, the position advanced
   * by it, then bound enforcement. Returns (new position, new velocity).
   */
  function MoveCoord(w: Weight, x: real, v: real, best: real, g: real, noise: real, cooperate: bool,
                     xMin: real, xMax: real, vMin: real, vMax: real): (r: (real, real))
    ensures xMin <= xMax ==> xMin <= r.0 <= xMax
    ensures vMin <= vMax ==> vMin <= r.1 <= vMax
    ensures (vMin <= 0.0 <= vMax && v == 0.0 && x == best && (!cooperate || g * noise == x) && xMin <= x <= xMax)
              ==> r == (x, 0.0)
  {
    var v1 := NewVelocity(w, v, x, best, g, noise, cooperate, vMin, vMax);
    EnforceCoord(x + v1, v1, xMin, xMax, vMin, vMax)
  }

  /**
   * The objective applied through the evaluator wrappers: the fitness of
   * every row flagged for refresh is recomputed from that row; the other
   * entries are kept.
   */
  method Evaluate(particles: array2<real>, refresh: array<bool>, fitness: array<real>, f: seq<real> -> real)
    requires particles.Length0 <= refresh.Length && particles.Length0 <= fitness.Length
    modifies fitness
    ensures forall i :: 0 <= i < fitness.Length ==>
              fitness[i] == if i < particles.Length0 && refresh[i] then f(Row(particles, i)) else old(fitness[i])
  {
    for i := 0 to particles.Length0
      invariant forall t :: 0 <= t < fitness.Length ==>
                  fitness[t] == if t < i && refresh[t] then f(Row(particles, t)) else old(fitness[t])
    {
      if refresh[i] {
        fitness[i] := f(Row(particles, i));
      }
    }
  }

  /** `clearRefresh`: every flag takes the given value. */
  method ClearRefresh(refresh: array<bool>, value: bool)
    modifies refresh
    ensures forall i :: 0 <= i < refresh.Length ==> refresh[i] == value
  {
    for i := 0 to refresh.Length
      invariant forall t :: 0 <= t < i ==> refresh[t] == value
    {
      refresh[i] := value;
    }
  }

  /**
   * The evaluations `gens` full generations spend at least: 2 * popSize
   * each (recombination re-evaluates only the rows it changed, the two
   * motion phases every row).
   */
  function GenerationCost(popSize: int, gens: nat): int
  {
    if gens == 0 then 0 else GenerationCost(popSize, gens - 1) + 2 * popSize
  }

  /** The closed form of `GenerationCost`. */
  lemma {:induction false} GenerationCostClosed(popSize: int, gens: nat)
    ensures GenerationCost(popSize, gens) == 2 * popSize * gens
  {
    if gens > 0 {
      GenerationCostClosed(popSize, gens - 1);
    }
  }
  /**
   * The bests as values: the global best fitness is the least personal-best
   * fitness, and, on a run that started with an empty archive, every filled
   * archive slot is no better than the global best and one of them holds it.
   */
  ghost predicate Tracked(myBestFitness: seq<real>, memFitness: seq<real>, memIndex: int, gBestFit: real,
                          archiveFromStart: bool)
  {
    && 0 < |myBestFitness|
    && gBestFit == MinOf(myBestFitness)
    && (archiveFromStart ==>
          && ArchiveAbove(memFitness, memIndex, gBestFit)
          && (memIndex > 0 ==> ArchiveHoldsBest(memFitness, memIndex, gBestFit)))
  }

  /**
   * One update of the bests keeps them `Tracked`: every personal best takes
   * the smaller of itself and the new fitness, the global best the smaller of
   * itself and the least new fitness, and the archive keeps its invariants
   * and, when the global best improved, holds it.
   */
  lemma TrackedAfterUpdate(oldBest: seq<real>, pf: seq<real>, newBest: seq<real>,
                           oldMem: seq<real>, newMem: seq<real>, oldIdx: int, newIdx: int,
                           oldG: real, newG: real, archiveFromStart: bool)
    requires Tracked(oldBest, oldMem, oldIdx, oldG, archiveFromStart)
    requires |pf| == |oldBest| && newBest == PointwiseMin(oldBest, pf)
    requires newG == if MinOf(pf) < oldG then MinOf(pf) else oldG
    requires ArchiveAbove(oldMem, oldIdx, oldG) ==> ArchiveAbove(newMem, newIdx, newG)
    requires ArchiveHoldsBest(oldMem, oldIdx, oldG) ==> ArchiveHoldsBest(newMem, newIdx, newG)
    requires newG < oldG ==> ArchiveHoldsBest(newMem, newIdx, newG)
    requires newG == oldG ==> newIdx == oldIdx
    ensures Tracked(newBest, newMem, newIdx, newG, archiveFromStart)
  {
    MinOfPointwiseMin(oldBest, pf);
  }

  class Cdeepso {
    const p: Params

    const xMin: array<real>
    const xMax: array<real>
    const vMin: array<real>
    const vMax: array<real>

    const pop1: Population
    const myBest: Population
    const pop2: Population
    const memGBest: Population
    const myBestFitness: array<real>
    const memGBestFitness: array<real>

    var gBestFit: real
    const gBest: array<real>

    var memGBestIndex: int
    var fitEval: int

    /** The real-valued vectors the engine owns are pairwise distinct. */
    ghost predicate DistinctVectors()
    {
      && gBest != myBestFitness && gBest != memGBestFitness && myBestFitness != memGBestFitness
    }

    /** `a` is a scratch vector of `optimize`: none of the real vectors the engine owns. */
    ghost predicate Scratch(a: array<real>)
    {
      && a != myBestFitness && a != memGBestFitness && a != gBest
      && a != xMin && a != xMax && a != vMin && a != vMax
    }

    /**
     * Every population is popSize x dims with its own buffers, every bound
     * vector and the global best have dims entries, and every fitness vector
     * (the archive's included) has popSize entries. Only `const` fields are
     * involved, so no method can break it.
     */
    ghost predicate Shaped()
    {
      && 0 <= p.dims && 0 <= p.popSize
      && xMin.Length == p.dims && xMax.Length == p.dims && vMin.Length == p.dims && vMax.Length == p.dims
      && gBest.Length == p.dims
      && myBestFitness.Length == p.popSize && memGBestFitness.Length == p.popSize
      && pop1.Valid() && myBest.Valid() && pop2.Valid() && memGBest.Valid()
      && pop1.Size() == myBest.Size() == pop2.Size() == memGBest.Size() == p.popSize
      && pop1.Dims() == myBest.Dims() == pop2.Dims() == memGBest.Dims() == p.dims
      && Separate(pop1, myBest) && Separate(pop1, pop2) && Separate(pop1, memGBest)
      && Separate(myBest, pop2) && Separate(myBest, memGBest) && Separate(pop2, memGBest)
      && DistinctVectors()
    }

    /** `Shaped`, and the archive fill index lies in [0, popSize]. */
    ghost predicate Valid()
      reads this`memGBestIndex
    {
      Shaped() && 0 <= memGBestIndex <= p.popSize
    }

    /**
     * The constructor: zeroed popSize x dims populations (the archive has
     * popSize slots, not memGBestSize), gBestFit = -1, an empty archive, no
     * evaluations yet, and the bound vectors from `initLimits`, whose `int`
     * parameters truncate the configured real bounds toward zero.
     */
    constructor (params: Params)
      requires 0 <= params.dims && 0 <= params.popSize
      ensures Valid() && p == params
      ensures fitEval == 0 && memGBestIndex == 0 && gBestFit == -1.0
      ensures memGBest.Size() == params.popSize && memGBestFitness.Length == params.popSize
      ensures forall j :: 0 <= j < params.dims ==>
                && xMin[j] == TruncateToInt(params.xMin) as real && xMax[j] == TruncateToInt(params.xMax) as real
                && vMin[j] == xMin[j] - xMax[j] && vMax[j] == -vMin[j]
      ensures TruncateToInt(params.xMin) <= TruncateToInt(params.xMax) ==>
                forall j :: 0 <= j < params.dims ==> vMin[j] <= 0.0 <= vMax[j]
      ensures forall j :: 0 <= j < params.dims ==> gBest[j] == 0.0
      ensures forall i :: 0 <= i < params.popSize ==> myBestFitness[i] == 0.0 && memGBestFitness[i] == 0.0
      ensures forall i, j :: 0 <= i < params.popSize && 0 <= j < params.dims ==>
                && pop1.particles[i, j] == 0.0 && pop1.velocity[i, j] == 0.0
                && myBest.particles[i, j] == 0.0 && myBest.velocity[i, j] == 0.0
                && pop2.particles[i, j] == 0.0 && pop2.velocity[i, j] == 0.0
                && memGBest.particles[i, j] == 0.0 && memGBest.velocity[i, j] == 0.0
    {
      p := params;
      xMin := new real[params.dims];
      xMax := new real[params.dims];
      vMin := new real[params.dims];
      vMax := new real[params.dims];
      pop1 := new Population(params.popSize, params.dims);
      myBest := new Population(params.popSize, params.dims);
      pop2 := new Population(params.popSize, params.dims);
      memGBest := new Population(params.popSize, params.dims);
      myBestFitness := new real[params.popSize](_ => 0.0);
      memGBestFitness := new real[params.popSize](_ => 0.0);
      gBestFit := -1.0;
      gBest := new real[params.dims](_ => 0.0);
      memGBestIndex := 0;
      fitEval := 0;
      new;
      InitLimits(params.dims, TruncateToInt(params.xMin), TruncateToInt(params.xMax), xMin, xMax, vMin, vMax);
    }

    /**
     * `computeFitness`: evaluates the flagged rows of `pop`, then counts one
     * evaluation per flag that was set and clears every flag.
     */
    method ComputeFitness(pop: Population, refresh: array<bool>, fitness: array<real>, f: seq<real> -> real)
      requires pop.Valid() && refresh.Length == pop.Size() && fitness.Length == pop.Size()
      modifies this`fitEval, refresh, fitness
      ensures fitEval == old(fitEval) + CountTrue(old(refresh[..]))
      ensures forall i :: 0 <= i < refresh.Length ==> !refresh[i]
      ensures forall i :: 0 <= i < fitness.Length ==>
                fitness[i] == if old(refresh[i]) then f(Row(pop.particles, i)) else old(fitness[i])
    {
      Evaluate(pop.particles, refresh, fitness, f);
      ghost var flags := refresh[..];
      for i := 0 to pop.Size()
        modifies this`fitEval, refresh
        invariant fitEval == old(fitEval) + CountTrue(flags[..i])
        invariant forall t :: 0 <= t < i ==> !refresh[t]
        invariant forall t :: i <= t < refresh.Length ==> refresh[t] == flags[t]
      {
        assert flags[..i + 1][..i] == flags[..i];
        if refresh[i] {
          fitEval := fitEval + 1;
          refresh[i] := false;
        }
      }
      assert flags[..pop.Size()] == flags;
    }

    /** Every row of `pop` flagged and evaluated: popSize evaluations are spent. */
    method ComputeAllFitness(pop: Population, refresh: array<bool>, fitness: array<real>, f: seq<real> -> real)
      requires pop.Valid() && refresh.Length == pop.Size() && fitness.Length == pop.Size()
      modifies this`fitEval, refresh, fitness
      ensures fitEval == old(fitEval) + pop.Size()
      ensures forall i :: 0 <= i < fitness.Length ==> fitness[i] == f(Row(pop.particles, i)) && !refresh[i]
    {
      ClearRefresh(refresh, true);
      ComputeFitness(pop, refresh, fitness, f);
    }

    /**
     * `createPop2FromHeuristic`: RAND builds pop2 with heuristicRand, BEST
     * with heuristicBest, and bounds are then enforced on pop2. Any other
     * variant is an error that stops the run: `ok` is false and nothing is
     * changed.
     */
    method CreatePop2FromHeuristic(pop1Fitness: array<real>, pop2Refresh: array<bool>, d: Draws) returns (ok: bool)
      requires Valid() && pop1Fitness.Length == p.popSize && pop2Refresh.Length == p.popSize
      requires d.ShufflePermutes()
      modifies pop2.particles, pop2.velocity, pop2.weights, pop2Refresh
      ensures ok <==> p.deType == Rand || p.deType == Best
      ensures !ok ==> unchanged(pop2.particles, pop2.velocity, pop2.weights, pop2Refresh)
      ensures ok && p.deType == Rand ==>
                forall i, j :: 0 <= i < p.popSize && 0 <= j < p.dims ==>
                  (pop2.particles[i, j], pop2.velocity[i, j])
                    == EnforceCoord(
                         old(RandParticle(pop1, pop1Fitness[..], myBest, memGBest, memGBestFitness[..], memGBestIndex,
                                          p.memStrategy, d, i, j)),
                         if |Candidates(i, pop1Fitness[..], p.popSize, memGBestFitness[..], memGBestIndex, p.memStrategy)| < 3
                         then pop1.velocity[i, j] else old(pop2.velocity[i, j]),
                         xMin[j], xMax[j], vMin[j], vMax[j])
      ensures ok && p.deType == Best ==>
                forall i, j :: 0 <= i < p.popSize && 0 <= j < p.dims ==>
                  (pop2.particles[i, j], pop2.velocity[i, j])
                    == EnforceCoord(
                         old(BestParticle(pop1, pop1Fitness[..], gBest[..], memGBest, memGBestFitness[..], memGBestIndex,
                                          p.memStrategy, d, i, j)),
                         if |Candidates(i, pop1Fitness[..], p.popSize, memGBestFitness[..], memGBestIndex, p.memStrategy)| < 2
                         then pop1.velocity[i, j] else old(pop2.velocity[i, j]),
                         xMin[j], xMax[j], vMin[j], vMax[j])
      ensures ok ==> forall i :: 0 <= i < p.popSize ==> pop2.weights[i] == pop1.weights[i]
      ensures ok ==> forall i :: 0 <= i < p.popSize ==>
                pop2Refresh[i]
                  == (old(pop2Refresh[i])
                      || (if p.deType == Rand then 3 else 2)
                           <= |Candidates(i, pop1Fitness[..], p.popSize, memGBestFitness[..], memGBestIndex, p.memStrategy)|)
    {
      if p.deType == Rand {
        HeuristicRand(pop1, pop1Fitness[..], pop2, myBest, memGBest, memGBestFitness[..], memGBestIndex,
                      p.memStrategy, pop2Refresh, d);
      } else if p.deType == Best {
        HeuristicBest(pop1, pop1Fitness[..], pop2, gBest[..], memGBest, memGBestFitness[..], memGBestIndex,
                      p.memStrategy, pop2Refresh, d);
      } else {
        return false;
      }
      EnforceLimits(pop2, xMin[..], xMax[..], vMin[..], vMax[..]);
      ok := true;
    }

    /**
     * The PSO move both create steps end with: `computeNewVel`, then
     * `computeNewPos`, then `enforceLimits`, on pop1 or pop2.
     */
    method Move(pop: Population, d: Draws)
      requires Valid() && (pop == pop1 || pop == pop2)
      modifies pop.particles, pop.velocity
      ensures forall i, j :: 0 <= i < p.popSize && 0 <= j < p.dims ==>
                (pop.particles[i, j], pop.velocity[i, j])
                  == MoveCoord(pop.weights[i], old(pop.particles[i, j]), old(pop.velocity[i, j]), myBest.particles[i, j],
                               gBest[j], Perturbation(pop.weights[i], d.perturbation(i)), d.coin(i, j),
                               xMin[j], xMax[j], vMin[j], vMax[j])
    {
      ComputeNewVel(pop, d, myBest, gBest[..], vMin[..], vMax[..]);
      ComputeNewPos(pop);
      EnforceLimits(pop, xMin[..], xMax[..], vMin[..], vMax[..]);
    }

    /**
     * `createPop2FromMutatedWeight`: pop2 becomes pop1 with mutated weights,
     * moved once by the PSO rule under those weights, within bounds.
     */
    method CreatePop2FromMutatedWeight(d: Draws)
      requires Valid()
      modifies pop2.particles, pop2.velocity, pop2.weights
      ensures forall i :: 0 <= i < p.popSize ==>
                pop2.weights[i] == CopyWithNoise(pop1.weights[i], p.mutationRate, p.maxVelocity, d.WeightNoise(i))
      ensures forall i, j :: 0 <= i < p.popSize && 0 <= j < p.dims ==>
                (pop2.particles[i, j], pop2.velocity[i, j])
                  == MoveCoord(pop2.weights[i], pop1.particles[i, j], pop1.velocity[i, j], myBest.particles[i, j],
                               gBest[j], Perturbation(pop2.weights[i], d.perturbation(i)), d.coin(i, j),
                               xMin[j], xMax[j], vMin[j], vMax[j])
    {
      pop2.CloneFrom(pop1);
      ComputeNewWeights(pop1, pop2, p.mutationRate, p.maxVelocity, d);
      Move(pop2, d);
    }

    /** `createPop1FromVelocity`: pop1 is moved once by the PSO rule under its own weights, within bounds. */
    method CreatePop1FromVelocity(d: Draws)
      requires Valid()
      modifies pop1.particles, pop1.velocity
      ensures forall i, j :: 0 <= i < p.popSize && 0 <= j < p.dims ==>
                (pop1.particles[i, j], pop1.velocity[i, j])
                  == MoveCoord(pop1.weights[i], old(pop1.particles[i, j]), old(pop1.velocity[i, j]), myBest.particles[i, j],
                               gBest[j], Perturbation(pop1.weights[i], d.perturbation(i)), d.coin(i, j),
                               xMin[j], xMax[j], vMin[j], vMax[j])
    {
      Move(pop1, d);
    }

    /**
     * `updateMyBestPos` on pop1: every slot where pop1 is strictly better
     * than its personal best takes pop1's row, velocity, weight and fitness;
     * so each personal best fitness becomes the smaller of itself and pop1's.
     */
    method UpdatePersonalBests(pop1Fitness: array<real>)
      requires Valid() && pop1Fitness.Length == p.popSize && pop1Fitness != myBestFitness
      modifies myBest.particles, myBest.velocity, myBest.weights, myBestFitness
      ensures myBestFitness[..] == PointwiseMin(old(myBestFitness[..]), pop1Fitness[..])
      ensures var take := Improved(pop1Fitness[..], old(myBestFitness[..]));
              && Rows(myBest.particles) == Choose(take, old(Rows(myBest.particles)), Rows(pop1.particles))
              && Rows(myBest.velocity) == Choose(take, old(Rows(myBest.velocity)), Rows(pop1.velocity))
              && myBest.weights[..] == Choose(take, old(myBest.weights[..]), pop1.weights[..])
      ensures Rows(memGBest.particles) == old(Rows(memGBest.particles)) && Rows(memGBest.velocity) == old(Rows(memGBest.velocity))
      ensures memGBest.weights[..] == old(memGBest.weights[..]) && memGBestFitness[..] == old(memGBestFitness[..])
      ensures gBest[..] == old(gBest[..]) && pop1Fitness[..] == old(pop1Fitness[..])
      ensures Rows(pop1.particles) == old(Rows(pop1.particles)) && Rows(pop1.velocity) == old(Rows(pop1.velocity))
      ensures pop1.weights[..] == old(pop1.weights[..])
    {
      ghost var take := Improved(pop1Fitness[..], myBestFitness[..]);
      ghost var particles, velocity := Rows(myBest.particles), Rows(myBest.velocity);
      UpdateMyBestPos(pop1, pop1Fitness, myBest, myBestFitness);
      RowsFromEntries(myBest.particles, Choose(take, particles, Rows(pop1.particles)));
      RowsFromEntries(myBest.velocity, Choose(take, velocity, Rows(pop1.velocity)));
    }

    /**
     * `updateGBest` on pop1: the global best becomes the smaller of itself
     * and pop1's least fitness, and the archive keeps its invariants. When
     * the global best improved, gBest is pop1's fittest row and the archive
     * slot ArchiveSlot picks holds that row, velocity, weight and fitness;
     * otherwise gBest and the archive are unchanged.
     */
    method UpdateGlobalBest(pop1Fitness: array<real>)
      requires Valid() && pop1Fitness.Length == p.popSize && 0 < p.popSize
      requires pop1Fitness != memGBestFitness && pop1Fitness != gBest
      modifies this`gBestFit, this`memGBestIndex
      modifies memGBest.particles, memGBest.velocity, memGBest.weights, memGBestFitness, gBest
      ensures Valid()
      ensures gBestFit == if MinOf(pop1Fitness[..]) < old(gBestFit) then MinOf(pop1Fitness[..]) else old(gBestFit)
      ensures ArchiveAbove(old(memGBestFitness[..]), old(memGBestIndex), old(gBestFit)) ==>
                ArchiveAbove(memGBestFitness[..], memGBestIndex, gBestFit)
      ensures ArchiveHoldsBest(old(memGBestFitness[..]), old(memGBestIndex), old(gBestFit)) ==>
                ArchiveHoldsBest(memGBestFitness[..], memGBestIndex, gBestFit)
      ensures gBestFit < old(gBestFit) ==> ArchiveHoldsBest(memGBestFitness[..], memGBestIndex, gBestFit)
      ensures gBestFit == old(gBestFit) ==> memGBestIndex == old(memGBestIndex)
      ensures var s := IndexOfMin(pop1Fitness[..]);
              pop1Fitness[s] < old(gBestFit) ==>
                var slot := ArchiveSlot(old(memGBestFitness[..]), old(memGBestIndex));
                && gBest[..] == Row(pop1.particles, s)
                && memGBestIndex == NextIndex(old(memGBestIndex), p.popSize)
                && memGBestFitness[..] == old(memGBestFitness[..])[slot := pop1Fitness[s]]
                && Rows(memGBest.particles) == old(Rows(memGBest.particles))[slot := Row(pop1.particles, s)]
                && Rows(memGBest.velocity) == old(Rows(memGBest.velocity))[slot := Row(pop1.velocity, s)]
                && memGBest.weights[..] == old(memGBest.weights[..])[slot := pop1.weights[s]]
      ensures old(gBestFit) <= MinOf(pop1Fitness[..]) ==>
                && gBest[..] == old(gBest[..]) && memGBestFitness[..] == old(memGBestFitness[..])
                && Rows(memGBest.particles) == old(Rows(memGBest.particles))
                && Rows(memGBest.velocity) == old(Rows(memGBest.velocity))
                && memGBest.weights[..] == old(memGBest.weights[..])
      ensures Rows(myBest.particles) == old(Rows(myBest.particles)) && Rows(myBest.velocity) == old(Rows(myBest.velocity))
      ensures myBest.weights[..] == old(myBest.weights[..]) && myBestFitness[..] == old(myBestFitness[..])
      ensures pop1Fitness[..] == old(pop1Fitness[..])
      ensures Rows(pop1.particles) == old(Rows(pop1.particles)) && Rows(pop1.velocity) == old(Rows(pop1.velocity))
      ensures pop1.weights[..] == old(pop1.weights[..])
    {
      memGBestIndex, gBestFit := UpdateGBest(pop1, pop1Fitness, memGBest, memGBestFitness, memGBestIndex, gBest, gBestFit);
    }

    /**
     * The second half of `mergeIntoPop1`: the personal bests and then the
     * global best are updated from pop1Fitness. Each personal best becomes
     * the smaller of itself and pop1's fitness, the global best the smaller
     * of itself and pop1's least fitness; so the global best stays the least
     * personal best, and the archive invariants are kept.
     */
    method UpdateBests(pop1Fitness: array<real>, ghost archiveFromStart: bool)
      requires Valid() && pop1Fitness.Length == p.popSize && 0 < p.popSize
      requires Scratch(pop1Fitness)
      modifies this`gBestFit, this`memGBestIndex
      modifies myBest.particles, myBest.velocity, myBest.weights, myBestFitness
      modifies memGBest.particles, memGBest.velocity, memGBest.weights, memGBestFitness, gBest
      ensures Valid()
      ensures myBestFitness[..] == PointwiseMin(old(myBestFitness[..]), pop1Fitness[..])
      ensures gBestFit == if MinOf(pop1Fitness[..]) < old(gBestFit) then MinOf(pop1Fitness[..]) else old(gBestFit)
      ensures old(BestsTracked(archiveFromStart)) ==> BestsTracked(archiveFromStart)
      ensures var take := Improved(pop1Fitness[..], old(myBestFitness[..]));
              && Rows(myBest.particles) == Choose(take, old(Rows(myBest.particles)), Rows(pop1.particles))
              && Rows(myBest.velocity) == Choose(take, old(Rows(myBest.velocity)), Rows(pop1.velocity))
              && myBest.weights[..] == Choose(take, old(myBest.weights[..]), pop1.weights[..])
      ensures var s := IndexOfMin(pop1Fitness[..]);
              pop1Fitness[s] < old(gBestFit) ==>
                var slot := ArchiveSlot(old(memGBestFitness[..]), old(memGBestIndex));
                && gBest[..] == Row(pop1.particles, s)
                && memGBestIndex == NextIndex(old(memGBestIndex), p.popSize)
                && memGBestFitness[..] == old(memGBestFitness[..])[slot := pop1Fitness[s]]
                && Rows(memGBest.particles) == old(Rows(memGBest.particles))[slot := Row(pop1.particles, s)]
                && Rows(memGBest.velocity) == old(Rows(memGBest.velocity))[slot := Row(pop1.velocity, s)]
                && memGBest.weights[..] == old(memGBest.weights[..])[slot := pop1.weights[s]]
      ensures old(gBestFit) <= MinOf(pop1Fitness[..]) ==>
                && gBest[..] == old(gBest[..]) && memGBestFitness[..] == old(memGBestFitness[..])
                && Rows(memGBest.particles) == old(Rows(memGBest.particles))
                && Rows(memGBest.velocity) == old(Rows(memGBest.velocity))
                && memGBest.weights[..] == old(memGBest.weights[..])
      ensures Rows(pop1.particles) == old(Rows(pop1.particles)) && Rows(pop1.velocity) == old(Rows(pop1.velocity))
      ensures pop1.weights[..] == old(pop1.weights[..]) && pop1Fitness[..] == old(pop1Fitness[..])
    {
      ghost var oldBest, pf, oldMem := myBestFitness[..], pop1Fitness[..], memGBestFitness[..];
      UpdatePersonalBests(pop1Fitness);
      ghost var newBest := myBestFitness[..];
      assert memGBestFitness[..] == oldMem && pop1Fitness[..] == pf;
      ghost var oldG, oldIdx := gBestFit, memGBestIndex;
      UpdateGlobalBest(pop1Fitness);
      ghost var newMem := memGBestFitness[..];
      assert myBestFitness[..] == newBest;
      if Tracked(oldBest, oldMem, oldIdx, oldG, archiveFromStart) {
        TrackedAfterUpdate(oldBest, pf, newBest, oldMem, newMem, oldIdx, memGBestIndex, oldG, gBestFit,
                           archiveFromStart);
      }
    }

    /**
     * The `mergePopulations` call of `mergeIntoPop1`: pop1 takes the row,
     * velocity and weight of every slot where pop2 is strictly better;
     * pop2, the personal bests and both fitness arrays are left as they were.
     */
    method TakeBetterTrials(pop1Fitness: array<real>, pop2Fitness: array<real>)
      requires Valid() && pop1Fitness.Length == p.popSize && pop2Fitness.Length == p.popSize
      modifies pop1.particles, pop1.velocity, pop1.weights
      ensures var take := Improved(pop2Fitness[..], pop1Fitness[..]);
              && Rows(pop1.particles) == Choose(take, old(Rows(pop1.particles)), Rows(pop2.particles))
              && Rows(pop1.velocity) == Choose(take, old(Rows(pop1.velocity)), Rows(pop2.velocity))
              && pop1.weights[..] == Choose(take, old(pop1.weights[..]), pop2.weights[..])
      ensures pop1Fitness[..] == old(pop1Fitness[..]) && pop2Fitness[..] == old(pop2Fitness[..])
      ensures Rows(pop2.particles) == old(Rows(pop2.particles)) && Rows(pop2.velocity) == old(Rows(pop2.velocity))
      ensures pop2.weights[..] == old(pop2.weights[..])
      ensures Rows(myBest.particles) == old(Rows(myBest.particles)) && Rows(myBest.velocity) == old(Rows(myBest.velocity))
      ensures myBest.weights[..] == old(myBest.weights[..]) && myBestFitness[..] == old(myBestFitness[..])
      ensures memGBestFitness[..] == old(memGBestFitness[..])
    {
      ghost var take := Improved(pop2Fitness[..], pop1Fitness[..]);
      ghost var particles, velocity := Rows(pop1.particles), Rows(pop1.velocity);
      MergePopulations(pop2, pop1, pop2Fitness, pop1Fitness);
      RowsFromEntries(pop1.particles, Choose(take, particles, Rows(pop2.particles)));
      RowsFromEntries(pop1.velocity, Choose(take, velocity, Rows(pop2.velocity)));
    }

    /**
     * `mergeIntoPop1`: pop1 takes the row, velocity and weight of every slot
     * where pop2 is strictly better, then UpdateBests runs on pop1Fitness,
     * which the merge did not touch. So a row taken from pop2 is credited
     * with the fitness of the row it replaced: where that fitness beats the
     * personal best, the personal best becomes pop2's row with pop1's old
     * fitness.
     */
    method MergeIntoPop1(pop1Fitness: array<real>, pop2Fitness: array<real>, ghost archiveFromStart: bool)
      requires Valid() && pop1Fitness.Length == p.popSize && pop2Fitness.Length == p.popSize && 0 < p.popSize
      requires Scratch(pop1Fitness) && Scratch(pop2Fitness)
      modifies this`gBestFit, this`memGBestIndex
      modifies pop1.particles, pop1.velocity, pop1.weights
      modifies myBest.particles, myBest.velocity, myBest.weights, myBestFitness
      modifies memGBest.particles, memGBest.velocity, memGBest.weights, memGBestFitness, gBest
      ensures Valid()
      ensures var take := Improved(pop2Fitness[..], pop1Fitness[..]);
              && Rows(pop1.particles) == Choose(take, old(Rows(pop1.particles)), Rows(pop2.particles))
              && Rows(pop1.velocity) == Choose(take, old(Rows(pop1.velocity)), Rows(pop2.velocity))
              && pop1.weights[..] == Choose(take, old(pop1.weights[..]), pop2.weights[..])
      ensures myBestFitness[..] == PointwiseMin(old(myBestFitness[..]), pop1Fitness[..])
      ensures var take := Improved(pop1Fitness[..], old(myBestFitness[..]));
              && Rows(myBest.particles) == Choose(take, old(Rows(myBest.particles)), Rows(pop1.particles))
              && Rows(myBest.velocity) == Choose(take, old(Rows(myBest.velocity)), Rows(pop1.velocity))
              && myBest.weights[..] == Choose(take, old(myBest.weights[..]), pop1.weights[..])
      ensures gBestFit == if MinOf(pop1Fitness[..]) < old(gBestFit) then MinOf(pop1Fitness[..]) else old(gBestFit)
      ensures old(BestsTracked(archiveFromStart)) ==> BestsTracked(archiveFromStart)
    {
      ghost var best, bestP, bestV, bestW := myBestFitness[..], Rows(myBest.particles), Rows(myBest.velocity), myBest.weights[..];
      TakeBetterTrials(pop1Fitness, pop2Fitness);
      ghost var p1, v1, w1, f1 := Rows(pop1.particles), Rows(pop1.velocity), pop1.weights[..], pop1Fitness[..];
      ghost var p2, v2, w2, f2 := Rows(pop2.particles), Rows(pop2.velocity), pop2.weights[..], pop2Fitness[..];
      UpdateBests(pop1Fitness, archiveFromStart);
      assert Rows(pop1.particles) == p1 && Rows(pop1.velocity) == v1 && pop1.weights[..] == w1 && pop1Fitness[..] == f1;
      assert Rows(pop2.particles) == p2 && Rows(pop2.velocity) == v2 && pop2.weights[..] == w2 && pop2Fitness[..] == f2;
    }

    /**
     * What the generation loop maintains: the object is well formed and its
     * bests are `Tracked`.
     */
    ghost predicate BestsTracked(archiveFromStart: bool)
      reads this`gBestFit, this`memGBestIndex, myBestFitness, memGBestFitness
    {
      && Valid()
      && Tracked(myBestFitness[..], memGBestFitness[..], memGBestIndex, gBestFit, archiveFromStart)
    }

    /**
     * pop2 starts from pop1's fitness with no refresh flag set and is then
     * built by the configured heuristic; the flags mark the rows that got a
     * new particle.
     */
    method RecombinePop2(pop1Fitness: array<real>, pop2Fitness: array<real>, pop2Refresh: array<bool>, d: Draws)
      returns (ok: bool)
      requires Valid() && d.ShufflePermutes()
      requires pop1Fitness.Length == p.popSize && pop2Fitness.Length == p.popSize && pop2Refresh.Length == p.popSize
      requires pop1Fitness != pop2Fitness
      modifies pop2.particles, pop2.velocity, pop2.weights, pop2Fitness, pop2Refresh
      ensures ok <==> p.deType == Rand || p.deType == Best
      ensures pop2Fitness[..] == pop1Fitness[..]
      ensures ok ==> forall i :: 0 <= i < p.popSize ==>
                pop2Refresh[i]
                  == ((if p.deType == Rand then 3 else 2)
                        <= |Candidates(i, pop1Fitness[..], p.popSize, memGBestFitness[..], memGBestIndex, p.memStrategy)|)
    {
      ghost var fitness := pop1Fitness[..];
      forall k | 0 <= k < p.popSize {
        pop2Fitness[k] := pop1Fitness[k];
      }
      ClearRefresh(pop2Refresh, false);
      assert pop1Fitness[..] == fitness;
      ok := CreatePop2FromHeuristic(pop1Fitness, pop2Refresh, d);
    }

    /**
     * The first half of a generation: pop2Fitness := pop1Fitness, no pop2
     * flag set, pop2 from recombination, pop2 evaluated, merged into pop1.
     * `ok` is false, and nothing the loop tracks has changed, when the
     * variant is unknown. At most popSize evaluations are spent.
     */
    method RecombinationStep(pop1Fitness: array<real>, pop2Fitness: array<real>, pop2Refresh: array<bool>,
                             f: seq<real> -> real, d: Draws, ghost archiveFromStart: bool) returns (ok: bool)
      requires BestsTracked(archiveFromStart) && d.ShufflePermutes()
      requires pop1Fitness.Length == p.popSize && pop2Fitness.Length == p.popSize && pop2Refresh.Length == p.popSize
      requires pop1Fitness != pop2Fitness
      requires Scratch(pop1Fitness) && Scratch(pop2Fitness)
      modifies this`fitEval, this`gBestFit, this`memGBestIndex
      modifies pop1.particles, pop1.velocity, pop1.weights, pop2.particles, pop2.velocity, pop2.weights
      modifies myBest.particles, myBest.velocity, myBest.weights, myBestFitness
      modifies memGBest.particles, memGBest.velocity, memGBest.weights, memGBestFitness, gBest
      modifies pop2Fitness, pop2Refresh
      ensures BestsTracked(archiveFromStart)
      ensures ok <==> p.deType == Rand || p.deType == Best
      ensures old(fitEval) <= fitEval <= old(fitEval) + p.popSize
      ensures !ok ==> fitEval == old(fitEval)
      ensures gBestFit <= old(gBestFit)
      ensures NoWorse(myBestFitness[..], old(myBestFitness[..]))
    {
      ghost var best, mem := myBestFitness[..], memGBestFitness[..];
      ok := RecombinePop2(pop1Fitness, pop2Fitness, pop2Refresh, d);
      assert myBestFitness[..] == best && memGBestFitness[..] == mem;
      if !ok {
        return;
      }
      ComputeFitness(pop2, pop2Refresh, pop2Fitness, f);
      assert myBestFitness[..] == best && memGBestFitness[..] == mem;
      assert BestsTracked(archiveFromStart);
      MergeIntoPop1(pop1Fitness, pop2Fitness, archiveFromStart);
    }

    /** pop2 from mutated weights, then evaluated in full; the bests are untouched. */
    method MoveTrial(pop2Fitness: array<real>, pop2Refresh: array<bool>, f: seq<real> -> real, d: Draws)
      requires Valid() && pop2Fitness.Length == p.popSize && pop2Refresh.Length == p.popSize
      requires Scratch(pop2Fitness)
      modifies this`fitEval, pop2.particles, pop2.velocity, pop2.weights, pop2Fitness, pop2Refresh
      ensures fitEval == old(fitEval) + p.popSize
      ensures forall i :: 0 <= i < p.popSize ==> pop2Fitness[i] == f(Row(pop2.particles, i))
      ensures myBestFitness[..] == old(myBestFitness[..]) && memGBestFitness[..] == old(memGBestFitness[..])
      ensures forall i :: 0 <= i < p.popSize ==>
                pop2.weights[i] == CopyWithNoise(pop1.weights[i], p.mutationRate, p.maxVelocity, d.WeightNoise(i))
      ensures forall i, j :: 0 <= i < p.popSize && 0 <= j < p.dims ==>
                (pop2.particles[i, j], pop2.velocity[i, j])
                  == MoveCoord(pop2.weights[i], pop1.particles[i, j], pop1.velocity[i, j], myBest.particles[i, j],
                               gBest[j], Perturbation(pop2.weights[i], d.perturbation(i)), d.coin(i, j),
                               xMin[j], xMax[j], vMin[j], vMax[j])
    {
      CreatePop2FromMutatedWeight(d);
      ComputeAllFitness(pop2, pop2Refresh, pop2Fitness, f);
    }

    /** pop1 from velocity, then evaluated in full; pop2 and the bests are untouched. */
    method MoveCurrent(pop1Fitness: array<real>, pop1Refresh: array<bool>, f: seq<real> -> real, d: Draws)
      requires Valid() && pop1Fitness.Length == p.popSize && pop1Refresh.Length == p.popSize
      requires Scratch(pop1Fitness)
      modifies this`fitEval, pop1.particles, pop1.velocity, pop1Fitness, pop1Refresh
      ensures fitEval == old(fitEval) + p.popSize
      ensures forall i :: 0 <= i < p.popSize ==> pop1Fitness[i] == f(Row(pop1.particles, i))
      ensures myBestFitness[..] == old(myBestFitness[..]) && memGBestFitness[..] == old(memGBestFitness[..])
      ensures forall i, j :: 0 <= i < p.popSize && 0 <= j < p.dims ==>
                (pop1.particles[i, j], pop1.velocity[i, j])
                  == MoveCoord(pop1.weights[i], old(pop1.particles[i, j]), old(pop1.velocity[i, j]), myBest.particles[i, j],
                               gBest[j], Perturbation(pop1.weights[i], d.perturbation(i)), d.coin(i, j),
                               xMin[j], xMax[j], vMin[j], vMax[j])
    {
      CreatePop1FromVelocity(d);
      ComputeAllFitness(pop1, pop1Refresh, pop1Fitness, f);
    }

    /**
     * pop2 from mutated weights and pop1 from velocity, each then evaluated
     * in full: popSize evaluations apiece.
     */
    method MovePopulations(pop1Fitness: array<real>, pop2Fitness: array<real>, pop1Refresh: array<bool>,
                           pop2Refresh: array<bool>, f: seq<real> -> real, dWeights: Draws, dVelocity: Draws,
                           ghost archiveFromStart: bool)
      requires BestsTracked(archiveFromStart)
      requires pop1Fitness.Length == p.popSize && pop2Fitness.Length == p.popSize
      requires pop1Refresh.Length == p.popSize && pop2Refresh.Length == p.popSize
      requires pop1Fitness != pop2Fitness
      requires Scratch(pop1Fitness) && Scratch(pop2Fitness)
      modifies this`fitEval
      modifies pop1.particles, pop1.velocity, pop2.particles, pop2.velocity, pop2.weights
      modifies pop1Fitness, pop2Fitness, pop1Refresh, pop2Refresh
      ensures BestsTracked(archiveFromStart) && myBestFitness[..] == old(myBestFitness[..])
      ensures fitEval == old(fitEval) + 2 * p.popSize
      ensures forall i :: 0 <= i < p.popSize ==>
                pop1Fitness[i] == f(Row(pop1.particles, i)) && pop2Fitness[i] == f(Row(pop2.particles, i))
    {
      MoveTrial(pop2Fitness, pop2Refresh, f, dWeights);
      ghost var fit2 := pop2Fitness[..];
      MoveCurrent(pop1Fitness, pop1Refresh, f, dVelocity);
      assert pop2Fitness[..] == fit2;
    }

    /**
     * The second half of a generation: pop2 from mutated weights and pop1
     * from velocity, both fully evaluated, then merged. Exactly 2 * popSize
     * evaluations are spent.
     */
    method MotionStep(pop1Fitness: array<real>, pop2Fitness: array<real>, pop1Refresh: array<bool>,
                      pop2Refresh: array<bool>, f: seq<real> -> real, dWeights: Draws, dVelocity: Draws,
                      ghost archiveFromStart: bool)
      requires BestsTracked(archiveFromStart)
      requires pop1Fitness.Length == p.popSize && pop2Fitness.Length == p.popSize
      requires pop1Refresh.Length == p.popSize && pop2Refresh.Length == p.popSize
      requires pop1Fitness != pop2Fitness
      requires Scratch(pop1Fitness) && Scratch(pop2Fitness)
      modifies this`fitEval, this`gBestFit, this`memGBestIndex
      modifies pop1.particles, pop1.velocity, pop1.weights, pop2.particles, pop2.velocity, pop2.weights
      modifies myBest.particles, myBest.velocity, myBest.weights, myBestFitness
      modifies memGBest.particles, memGBest.velocity, memGBest.weights, memGBestFitness, gBest
      modifies pop1Fitness, pop2Fitness, pop1Refresh, pop2Refresh
      ensures BestsTracked(archiveFromStart)
      ensures fitEval == old(fitEval) + 2 * p.popSize
      ensures gBestFit <= old(gBestFit)
      ensures NoWorse(myBestFitness[..], old(myBestFitness[..]))
    {
      MovePopulations(pop1Fitness, pop2Fitness, pop1Refresh, pop2Refresh, f, dWeights, dVelocity, archiveFromStart);
      MergeIntoPop1(pop1Fitness, pop2Fitness, archiveFromStart);
    }

    /**
     * One generation of `optimize`, fed by `draws(3 * gen + 1)` to
     * `draws(3 * gen + 3)`: recombination, then, unless the variant is
     * unknown, motion. A full generation spends between 2 * popSize and
     * 3 * popSize evaluations; the bests never get worse.
     */
    method Generation(pop1Fitness: array<real>, pop2Fitness: array<real>, pop1Refresh: array<bool>,
                      pop2Refresh: array<bool>, f: seq<real> -> real, draws: nat -> Draws, gen: nat,
                      ghost archiveFromStart: bool) returns (ok: bool)
      requires BestsTracked(archiveFromStart) && draws(3 * gen + 1).ShufflePermutes()
      requires pop1Fitness.Length == p.popSize && pop2Fitness.Length == p.popSize
      requires pop1Refresh.Length == p.popSize && pop2Refresh.Length == p.popSize
      requires pop1Fitness != pop2Fitness
      requires Scratch(pop1Fitness) && Scratch(pop2Fitness)
      modifies this`fitEval, this`gBestFit, this`memGBestIndex
      modifies pop1.particles, pop1.velocity, pop1.weights, pop2.particles, pop2.velocity, pop2.weights
      modifies myBest.particles, myBest.velocity, myBest.weights, myBestFitness
      modifies memGBest.particles, memGBest.velocity, memGBest.weights, memGBestFitness, gBest
      modifies pop1Fitness, pop2Fitness, pop1Refresh, pop2Refresh
      ensures BestsTracked(archiveFromStart)
      ensures ok <==> p.deType == Rand || p.deType == Best
      ensures !ok ==> fitEval == old(fitEval)
      ensures ok ==> old(fitEval) + 2 * p.popSize <= fitEval <= old(fitEval) + 3 * p.popSize
      ensures gBestFit <= old(gBestFit)
      ensures NoWorse(myBestFitness[..], old(myBestFitness[..]))
    {
      ok := RecombinationStep(pop1Fitness, pop2Fitness, pop2Refresh, f, draws(3 * gen + 1), archiveFromStart);
      if ok {
        MotionStep(pop1Fitness, pop2Fitness, pop1Refresh, pop2Refresh, f, draws(3 * gen + 2), draws(3 * gen + 3),
                   archiveFromStart);
      }
    }

    /**
     * The `initPopulation` call at the start of `optimize`, made only when
     * `initPop` is set: pop1's weights from their uniform draws, its
     * positions and velocities uniformly inside the bounds. Otherwise pop1
     * is left as it was.
     */
    method SeedPop1(initPop: bool, d: Draws)
      requires Valid()
      modifies pop1.particles, pop1.velocity, pop1.weights
      ensures initPop ==> forall i :: 0 <= i < p.popSize ==> pop1.weights[i] == Init(d.WeightUniforms(i), p.maxVelocity)
      ensures initPop ==> forall i, j :: 0 <= i < p.popSize && 0 <= j < p.dims ==>
                && pop1.particles[i, j] == Lerp(xMin[j], xMax[j], d.uniformPosition(i, j))
                && pop1.velocity[i, j] == Lerp(vMin[j], vMax[j], d.uniformVelocity(i, j))
      ensures !initPop ==>
                && Rows(pop1.particles) == old(Rows(pop1.particles)) && Rows(pop1.velocity) == old(Rows(pop1.velocity))
                && pop1.weights[..] == old(pop1.weights[..])
    {
      if initPop {
        InitPopulation(pop1, d, xMin[..], xMax[..], vMin[..], vMax[..], p.maxVelocity);
      }
    }

    /**
     * The start of `optimize`: pop1 optionally initialised, then evaluated
     * in full; the personal bests become pop1 and the global best its
     * fittest member.
     */
    method StartRun(f: seq<real> -> real, initPop: bool, d: Draws, pop1Fitness: array<real>, pop1Refresh: array<bool>)
      requires Valid() && 0 < p.popSize
      requires pop1Fitness.Length == p.popSize && pop1Refresh.Length == p.popSize
      requires Scratch(pop1Fitness)
      modifies this`fitEval, this`gBestFit, pop1.particles, pop1.velocity, pop1.weights
      modifies myBest.particles, myBest.velocity, myBest.weights, myBestFitness, gBest, pop1Fitness, pop1Refresh
      ensures fitEval == old(fitEval) + p.popSize
      ensures forall i :: 0 <= i < p.popSize ==> pop1Fitness[i] == f(Row(pop1.particles, i))
      ensures myBestFitness[..] == pop1Fitness[..]
      ensures gBestFit == MinOf(pop1Fitness[..])
      ensures gBest[..] == Row(pop1.particles, IndexOfMin(pop1Fitness[..]))
      ensures forall i :: 0 <= i < p.popSize ==> Holds(myBest, i, pop1, i)
    {
      SeedPop1(initPop, d);
      ComputeAllFitness(pop1, pop1Refresh, pop1Fitness, f);
      gBestFit := InitBests(pop1, pop1Fitness, myBest, myBestFitness, gBest);
    }

    /**
     * The generation loop of `optimize`: generations run while fewer than
     * maxGen have run and fitEval <= maxFitEval; `draws(3 * g + 1)` to
     * `draws(3 * g + 3)` feed generation g. Returns the number of
     * generations run and false when the variant is unknown. The bests
     * stay tracked throughout, and never get worse. The evaluation lower
     * bound `GenerationCost(popSize, gens)` is `2 * popSize * gens` by
     * GenerationCostClosed.
     */
    method RunGenerations(pop1Fitness: array<real>, pop2Fitness: array<real>, pop1Refresh: array<bool>,
                          pop2Refresh: array<bool>, f: seq<real> -> real, draws: nat -> Draws,
                          ghost archiveFromStart: bool)
      returns (gens: nat, ok: bool)
      requires BestsTracked(archiveFromStart)
      requires forall k :: draws(k).ShufflePermutes()
      requires pop1Fitness.Length == p.popSize && pop2Fitness.Length == p.popSize
      requires pop1Refresh.Length == p.popSize && pop2Refresh.Length == p.popSize
      requires pop1Fitness != pop2Fitness
      requires Scratch(pop1Fitness) && Scratch(pop2Fitness)
      modifies this`fitEval, this`gBestFit, this`memGBestIndex
      modifies pop1.particles, pop1.velocity, pop1.weights, pop2.particles, pop2.velocity, pop2.weights
      modifies myBest.particles, myBest.velocity, myBest.weights, myBestFitness
      modifies memGBest.particles, memGBest.velocity, memGBest.weights, memGBestFitness, gBest
      modifies pop1Fitness, pop2Fitness, pop1Refresh, pop2Refresh
      ensures BestsTracked(archiveFromStart)
      ensures ok ==> gens == p.maxGen || p.maxFitEval < fitEval
      ensures !ok ==> p.deType != Rand && p.deType != Best
      ensures fitEval >= old(fitEval) + GenerationCost(p.popSize, gens)
      ensures gens == 0 || fitEval <= p.maxFitEval + 3 * p.popSize
      ensures gBestFit <= old(gBestFit) && NoWorse(myBestFitness[..], old(myBestFitness[..]))
    {
      gens := 0;
      ok := true;
      while ok && gens != p.maxGen && fitEval <= p.maxFitEval
        invariant BestsTracked(archiveFromStart)
        invariant !ok ==> p.deType != Rand && p.deType != Best
        invariant fitEval >= old(fitEval) + GenerationCost(p.popSize, gens)
        invariant gens == 0 || fitEval <= p.maxFitEval + 3 * p.popSize
        invariant gBestFit <= old(gBestFit) && NoWorse(myBestFitness[..], old(myBestFitness[..]))
        decreases ok, p.maxFitEval - fitEval
      {
        ok := Generation(pop1Fitness, pop2Fitness, pop1Refresh, pop2Refresh, f, draws, gens, archiveFromStart);
        if ok {
          gens := gens + 1;
        }
      }
    }

    /** The local fitness and refresh-flag vectors of `optimize`, one pair per population. */
    static method NewScratch(n: nat) returns (fit1: array<real>, fit2: array<real>, ref1: array<bool>, ref2: array<bool>)
      ensures fresh(fit1) && fresh(fit2) && fresh(ref1) && fresh(ref2) && fit1 != fit2
      ensures fit1.Length == fit2.Length == ref1.Length == ref2.Length == n
    {
      fit1 := new real[n];
      fit2 := new real[n];
      ref1 := new bool[n];
      ref2 := new bool[n];
    }

    /**
     * `optimize`: `StartRun` fed by `draws(0)`, then `RunGenerations`.
     * Returns the number of generations run and false when the variant is
     * unknown. At least `popSize + 2 * popSize * gens` evaluations are spent
     * (GenerationCostClosed gives the closed form of GenerationCost).
     */
    method Optimize(f: seq<real> -> real, initPop: bool, draws: nat -> Draws) returns (gens: nat, ok: bool)
      requires Valid() && 0 < p.popSize
      requires forall k :: draws(k).ShufflePermutes()
      modifies this, pop1.particles, pop1.velocity, pop1.weights, pop2.particles, pop2.velocity, pop2.weights
      modifies myBest.particles, myBest.velocity, myBest.weights, myBestFitness
      modifies memGBest.particles, memGBest.velocity, memGBest.weights, memGBestFitness, gBest
      ensures ok ==> gens == p.maxGen || p.maxFitEval < fitEval
      ensures !ok ==> p.deType != Rand && p.deType != Best
      ensures fitEval >= old(fitEval) + p.popSize + GenerationCost(p.popSize, gens)
      ensures gens == 0 || fitEval <= p.maxFitEval + 3 * p.popSize
      ensures gBestFit == MinOf(myBestFitness[..])
      ensures old(memGBestIndex) == 0 ==>
                ArchiveAbove(memGBestFitness[..], memGBestIndex, gBestFit)
                && (memGBestIndex > 0 ==> ArchiveHoldsBest(memGBestFitness[..], memGBestIndex, gBestFit))
    {
      var pop1Fitness, pop2Fitness, pop1Refresh, pop2Refresh := NewScratch(p.popSize);
      ghost var archiveFromStart := memGBestIndex == 0;

      ghost var mem := memGBestFitness[..];
      StartRun(f, initPop, draws(0), pop1Fitness, pop1Refresh);
      assert memGBestFitness[..] == mem;
      gens, ok := RunGenerations(pop1Fitness, pop2Fitness, pop1Refresh, pop2Refresh, f, draws, archiveFromStart);
    }
  }
}
