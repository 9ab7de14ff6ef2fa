# CDEEPSO generation engine in Dafny

This project models the core of cdeepso-cpp, a hybrid optimiser that
combines differential evolution (DE) with particle swarm optimisation (PSO).
The model covers:

- **The run driver.** The `CDEEPSO` class is `Optimizer.Cdeepso`. It owns:
  - four populations: the current one (`pop1`), the trial one (`pop2`), the
    personal bests (`myBest`) and the archive of global bests (`memGBest`);
  - their fitness vectors;
  - the global best;
  - the archive fill index;
  - the evaluation counter `fitEval`.

  Its methods follow the source's call structure:
  - evaluation-budget accounting and refresh flags;
  - dispatch on the DE variant;
  - the two motion steps;
  - `mergeIntoPop1`;
  - the `optimize` loop, which stops on a generation count or on the
    evaluation budget.
- **The operations of `src/operations.hpp`:**
  - bound construction and enforcement (`Limits`);
  - initialisation, weight mutation and the PSO move (`Motion`);
  - merge and best tracking with the bounded archive (`Selection`);
  - candidate lists and the DE/rand/1 and DE/best/1 children (`Recombination`).
- **The self-adaptive `Weight`** (`Weights`). It is a value with six fields.
  `init` and both `copyWithNoise` overloads are functions.
- **The `Population` container** (`Populations`). It is a class with fixed
  `array2` buffers, `cloneFrom` and slot import.
- **The in-place squaring and tree-sum reductions** of `src/utils.hpp`
  (`Utils`).

Precision is `real`. Every random draw is read from the oracle datatype
`Random.Draws`, indexed by the particle and the dimension or field it is
drawn for. Every property therefore holds for all possible draws. Three
things are assumed of the generator, each only where a contract names it:
- `shuffle` permutes its argument (`Draws.ShufflePermutes`, needed by the
  candidate and recombination contracts);
- `uniformInt(dims)` lies in [0, dims), needed by
  `RandChildForcedCoordinate` and `BestChildForcedCoordinate`;
- uniform draws lie in [0, 1], needed by the range claims of `Weights.Init`,
  `Motion.InitPopulation` and `Motion.Lerp`.

`Optimize` takes `draws: nat -> Draws`:
- `draws(0)` feeds initialisation;
- `draws(3g + 1)`, `draws(3g + 2)` and `draws(3g + 3)` feed the
  recombination, trial-motion and current-motion phases of generation `g`.

Three behaviours of the code are reproduced exactly:
- The archive has `popSize` slots, not `memGBestSize`. It fills in order,
  then overwrites its first worst slot.
- `mergeIntoPop1` updates the bests from the `pop1Fitness` that the merge
  did not update. A row taken from pop2 is credited with the fitness of the
  row it replaced, and the next generation copies that stale vector.
- Candidate codes are `-i` for archive slot `i` and `i + 1` for population
  slot `i`. A code is resolved through `code > 0`, so archive slot 0 is the
  code 0.

The constructor passes the configured real bounds to the `int` parameters
of `initLimits`, so they are truncated toward zero (`Limits.TruncateToInt`).

## Model

| member | source | states |
|---|---|---|
| Utils.SquaredCollapse | src/utils.hpp:8-13 | The first n elements become their squares; every element from n on is unchanged. |
| Utils.FoldHalves | src/utils.hpp:31-32 | One pairwise fold `data[k] += data[k+h]` for k < h leaves in `data[..h]` the same sum the first 2h elements had, and touches nothing from 2h on. |
| Utils.SumBumpFirst | src/utils.hpp:23-27 | Folding the odd last element into `data[0]` preserves the sum of the prefix. |
| Utils.SumCollapse | src/utils.hpp:16-38 | For n >= 1 the result is the exact sum of the original first n elements. For n == 0 it is the untouched `data[0]`, which is always read, so the array must be non-empty. Elements from n on are never written. The loop terminates because n decreases. |
| Utils.SquaredCollapseVector | src/utils.hpp:47-52 | The vector overload squares the whole array. |
| Utils.SumCollapseVector | src/utils.hpp:40-45 | The vector overload returns the sum of the whole (non-empty) array. |
| Weights.ScaledUnitDraw | src/weight.hpp:39 | A draw in [0, 1] times a non-negative bound lies in [0, bound]. |
| Weights.Init | src/weight.hpp:30-40 | The first five fields are the five uniform draws, in field order, and `dVelocity` is the sixth draw times maxVelocity. With draws in [0, 1] and maxVelocity >= 0 every field is in range. |
| Weights.CopyScalarWithNoise | src/weight.hpp:56-65 | A clamp of s + z * rate: the value itself when it is in [0, max], 0 below, max above. The result is in [0, max] for every draw when max >= 0. |
| Weights.CopyWithNoise | src/weight.hpp:42-54 | Field k of the result depends only on field k of the source, the rate, the field's cap (1, or maxVelocity for dVelocity) and the k-th of six draws taken in field order. The result is always in range. |
| Limits.TruncateToInt | src/cdeepso.hpp:64 | Converting a double to `int` truncates toward zero: the result is within one of x, on the side of zero. |
| Limits.InitLimits | src/operations.hpp:46-62 | The first dims entries of xMin and xMax are the two bounds, vMin = xMin - xMax and vMax = -vMin, so the limits are symmetric; other entries are unchanged. |
| Limits.EnforceCoord | src/operations.hpp:139-157 | With ordered bounds, the position ends in [xMin, xMax] and the velocity in [vMin, vMax]. An in-range position is kept. A position clamped up from below ends with velocity >= 0, and one clamped down from above with velocity <= 0, when vMin <= 0 <= vMax. An in-range coordinate is a fixed point. |
| Limits.EnforceLimits | src/operations.hpp:128-160 | Every (position, velocity) pair of the population becomes EnforceCoord of its old value with that dimension's bounds. |
| Matrices.IndexOfMin | src/operations.hpp:41 | The index is the first position of the smallest fitness. |
| Matrices.IndexOfMax | src/operations.hpp:196-198 | The index is the first position of the largest fitness. |
| Matrices.ExportRow | src/operations.hpp:42 | The destination vector becomes the chosen row of the matrix. |
| Motion.Lerp | src/operations.hpp:25-26 | lo + (hi - lo) * u lies in [lo, hi] for u in [0, 1], and hits the ends at u = 0 and u = 1. |
| Motion.InitPopulation | src/operations.hpp:9-29 | Every weight is Init of its particle's six uniform draws. Every position and velocity is its draw mapped into that dimension's bounds. |
| Motion.ComputeNewWeights | src/operations.hpp:65-73 | Every weight of dst is CopyWithNoise of the matching weight of src under that particle's six normal draws; rows beyond src are kept. |
| Motion.Saturate | src/operations.hpp:105 | The clamp keeps a value in [lo, hi], passes an in-range value unchanged, and maps above to hi and below to lo. |
| Motion.NewVelocity | src/operations.hpp:92-105 | The new velocity lies in [vMin, vMax]. A particle at rest on its attractors stays at rest. |
| Motion.NewVelocityRow | src/operations.hpp:86-106 | Velocity row i is recomputed coordinate by coordinate from the old velocity, position, personal best, perturbed global best and coin; other rows are kept. |
| Motion.ComputeNewVel | src/operations.hpp:75-108 | Every velocity entry becomes NewVelocity of its old value, so it lies in [vMin, vMax]. Positions, weights and myBest are not written. |
| Motion.ComputeNewPos | src/operations.hpp:110-126 | Every position becomes old position plus velocity; velocities are not written. |
| Populations.Population.constructor | src/population.hpp:22-28 | size() == popSize and dims() == dims; all positions and velocities are 0; there are popSize weights; the buffers are fresh. |
| Populations.Population.CloneFrom | src/population.hpp:30-47 | Every weight, position and velocity entry of this population equals the other's. The shape is unchanged, and the other must have at least as many rows and columns. |
| Populations.ImportSlot | src/operations.hpp:172-174 | Slot dstId takes the position row, velocity row and weight of slot srcId; every other slot is unchanged. |
| Selection.InitBests | src/operations.hpp:31-44 | The personal bests become a copy of the population and its fitness. The global best is the row of the first least fitness, and gBestFit is that least fitness. |
| Selection.MergePopulations | src/operations.hpp:162-178 | Slot i of dst takes src's position row, velocity row and weight exactly when srcFitness[i] < dstFitness[i]; every other slot is unchanged; neither fitness array is written. |
| Selection.PointwiseMin | src/operations.hpp:215-220 | Each entry is one of the two inputs and no larger than either, so personal-best fitness never increases. |
| Selection.MinOfPointwiseMin | src/cdeepso.hpp:125-126 | The least pointwise minimum is the smaller of the two least values, so the global best stays the least personal best. |
| Selection.UpdateMyBestPos | src/operations.hpp:207-223 | A slot takes the row, velocity, weight and fitness of pop exactly on strict improvement, so every personal-best fitness becomes min(old, new). |
| Selection.ArchiveSlot | src/operations.hpp:196-198 | While the archive fills, the slot is the fill index. Once the archive is full, the slot is one of largest fitness. |
| Selection.NextIndex | src/operations.hpp:196-198 | The fill index grows by one per insertion until it equals the archive size, and never exceeds it. |
| Selection.UpdateGBest | src/operations.hpp:180-205 | gBestFit never increases and, when it changes, equals min(popFitness). On strict improvement, the global best becomes the first fittest row; the ArchiveSlot slot of the archive takes that row's position, velocity, weight and fitness; every other archive row is unchanged; and the index advances by NextIndex. Otherwise nothing changes. The archive invariants (no filled slot better than the global best, one slot holding it) are preserved. |
| Recombination.Encode | src/operations.hpp:240-245 | Archive slot i is coded -i <= 0, population slot i as i + 1 > 0. |
| Recombination.Decode | src/operations.hpp:269-271 | Resolution through `code > 0` inverts the encoding for every code, archive slot 0 (code 0) included. |
| Recombination.DecodeEncode | src/operations.hpp:269-279 | Decoding an encoded slot gives the slot back. |
| Recombination.ArchiveCandidates | src/operations.hpp:237-240 | Exactly the codes -i of archive slots i < memGBestIndex with fitness strictly below the bar, in order of i. |
| Recombination.MemberCandidates | src/operations.hpp:242-245 | Exactly the codes i + 1 of population slots with fitness strictly below the bar, in order of i. |
| Recombination.CandidatesExact | src/operations.hpp:234-245 | A code is a candidate of slot k if and only if it encodes a filled archive slot (MEM bit) or a population slot (POS bit) strictly better than slot k. |
| Recombination.CandidatesValid | src/operations.hpp:237-245 | Every candidate resolves to a real slot, and slot k is never its own candidate. |
| Recombination.AppendArchiveCandidates | src/operations.hpp:238-240 | The MEM loop appends exactly ArchiveCandidates to the list. |
| Recombination.AppendMemberCandidates | src/operations.hpp:243-245 | The POS loop appends exactly MemberCandidates to the list. |
| Recombination.UpdateCandidates | src/operations.hpp:225-246 | The cleared list becomes the archive candidates (MEM bit) followed by the population candidates (POS bit). |
| Recombination.ShuffleKeepsCandidates | src/operations.hpp:267 | A permuting shuffle keeps the list's length and draws only candidates. |
| Recombination.Resolve | src/operations.hpp:269-279 | A positive code points at population row code - 1, any other at archive row -code. |
| Recombination.Mutant | src/operations.hpp:288 | The mutant equals the base when the difference vanishes or the scale is 0. |
| Recombination.ChildCoord | src/operations.hpp:292-294 | The forced coordinate is always the donor's. Every coordinate is the donor's or the mutant's, and the mutant's when neither the coin nor the forced index selects the donor. |
| Recombination.WriteChild | src/operations.hpp:287-294 | Particle row i becomes the crossover of the mutant with the donor under the particle's coins and forced index; other rows are unchanged. |
| Recombination.RandChild | src/operations.hpp:265-295 | With at least three candidates, particle row i is the DE/rand/1 child crossed with the personal best. The weight is src's, the flag is set, the velocity is not written, and other slots are unchanged. |
| Recombination.RandSlot | src/operations.hpp:263-301 | Slot i: with fewer than three candidates, the row, velocity and weight are copied verbatim and the flag is left alone; otherwise it is RandChild. Other slots are unchanged. |
| Recombination.BestSlot | src/operations.hpp:320-353 | Slot i: with fewer than two candidates it is copied verbatim and the flag is left alone. Otherwise row i is the DE/best/1 child crossed with the global best; the weight is src's, the flag is set and the velocity is not written. Other slots are unchanged. |
| Recombination.HeuristicRand | src/operations.hpp:248-303 | Every slot of src is as RandSlot says; rows and flags beyond src are unchanged. |
| Recombination.HeuristicBest | src/operations.hpp:305-355 | Every slot of src is as BestSlot says; rows and flags beyond src are unchanged. |
| Recombination.RandChildForcedCoordinate | src/operations.hpp:290-294 | In a DE/rand child, the coordinate tmpIndexD equals the personal best's. |
| Recombination.BestChildForcedCoordinate | src/operations.hpp:342-346 | In a DE/best child, the coordinate tmpIndexD equals the global best's. |
| Optimizer.MoveCoord | src/cdeepso.hpp:107-109 | One coordinate after computeNewVel, computeNewPos and enforceLimits is within the position and velocity bounds. A particle at rest on its attractors inside the bounds stays put. |
| Optimizer.Evaluate | src/functions.hpp:59-67 | The evaluator rewrites the fitness of exactly the flagged rows from their particle rows. |
| Optimizer.ClearRefresh | src/cdeepso.hpp:152-158 | Every flag takes the given value. |
| Optimizer.GenerationCostClosed | src/cdeepso.hpp:179 | The evaluation lower bound of g generations is 2 * popSize * g. |
| Optimizer.TrackedAfterUpdate | src/cdeepso.hpp:124-126 | Updating the personal bests and then the global best from the same fitness vector keeps the global best equal to the least personal best, and keeps the archive invariants. |
| Optimizer.Cdeepso.constructor | src/cdeepso.hpp:41-66 | Four zeroed popSize x dims populations; the archive has popSize slots; fitEval = 0, memGBestIndex = 0, gBestFit = -1. The limits are symmetric and built from the bounds truncated to int, so when the truncated bounds are ordered every velocity range satisfies vMin <= 0 <= vMax. |
| Optimizer.Cdeepso.ComputeFitness | src/cdeepso.hpp:129-150 | fitEval grows by exactly the number of flags that were set, exactly the flagged rows are re-evaluated, and every flag is false afterwards. |
| Optimizer.Cdeepso.ComputeAllFitness | src/cdeepso.hpp:188-189 | Setting every flag and then evaluating re-evaluates every row and spends exactly popSize evaluations. |
| Optimizer.Cdeepso.CreatePop2FromHeuristic | src/cdeepso.hpp:86-100 | It succeeds exactly for RAND and BEST. RAND builds pop2 by HeuristicRand and BEST by HeuristicBest, then bounds are enforced on every coordinate. The weights are pop1's and the flags mark the rows with enough candidates. Any other variant changes nothing. |
| Optimizer.Cdeepso.Move | src/cdeepso.hpp:107-109 | Every coordinate of the moved population is MoveCoord of its old position and velocity. |
| Optimizer.Cdeepso.CreatePop2FromMutatedWeight | src/cdeepso.hpp:102-110 | pop2's weights are noisy copies of pop1's, and every coordinate of pop2 is pop1's moved once under those weights. |
| Optimizer.Cdeepso.CreatePop1FromVelocity | src/cdeepso.hpp:112-118 | Every coordinate of pop1 is moved once under its own weight. |
| Optimizer.Cdeepso.UpdatePersonalBests | src/cdeepso.hpp:125 | The personal-best fitness becomes the pointwise minimum with pop1Fitness. Exactly the slots where pop1 is strictly better take pop1's position row, velocity row and weight. pop1, its fitness, the global best and the archive are unchanged. |
| Optimizer.Cdeepso.UpdateGlobalBest | src/cdeepso.hpp:126 | gBestFit becomes min(gBestFit, min pop1Fitness), and the archive invariants are kept. On strict improvement, gBest is pop1's first fittest row, and the ArchiveSlot slot takes that row, velocity, weight and fitness while the index advances by NextIndex; otherwise gBest and the archive are unchanged. The personal bests and pop1 are not written. |
| Optimizer.Cdeepso.UpdateBests | src/cdeepso.hpp:125-126 | Both best updates read the same pop1Fitness. The personal bests take pop1's rows, velocities, weights and fitness exactly where pop1 is strictly better. The global best and the archive change as UpdateGlobalBest says. Tracking is preserved, and pop1 is unchanged. |
| Optimizer.Cdeepso.TakeBetterTrials | src/cdeepso.hpp:124 | pop1 takes pop2's position row, velocity row and weight exactly where pop2Fitness is strictly below pop1Fitness. pop2, both fitness vectors and the personal bests are unchanged. |
| Optimizer.Cdeepso.MergeIntoPop1 | src/cdeepso.hpp:120-127 | pop1's rows, velocities and weights follow pop2 exactly where pop2 is strictly better. The bests are then updated from the unmodified pop1Fitness. Where pop1Fitness[i] beats the old personal best, the personal best takes pop1's merged row, velocity and weight, which may be pop2's, with fitness pop1Fitness[i]: a replaced row is credited with the old fitness. gBestFit becomes min(gBestFit, min pop1Fitness), and tracking is preserved. |
| Optimizer.Cdeepso.RecombinePop2 | src/cdeepso.hpp:181-183 | pop2Fitness starts as a copy of pop1Fitness. The flags end set exactly on the rows with enough candidates. It succeeds exactly for RAND and BEST. |
| Optimizer.Cdeepso.RecombinationStep | src/cdeepso.hpp:181-185 | The first half of a generation spends at most popSize evaluations (none for an unknown variant), never worsens any best, and keeps tracking. |
| Optimizer.Cdeepso.MoveTrial | src/cdeepso.hpp:187-189 | pop2's weights are noisy copies of pop1's, and every coordinate of pop2 is MoveCoord of pop1's under the new weight. pop2 is then fully evaluated: exactly popSize evaluations, fitness matching the rows, and the bests are untouched. |
| Optimizer.Cdeepso.MoveCurrent | src/cdeepso.hpp:191-193 | Every coordinate of pop1 becomes MoveCoord of its old position and velocity under its own weight. pop1 is then fully evaluated: exactly popSize evaluations, fitness matching the rows, and the bests are untouched. |
| Optimizer.Cdeepso.MovePopulations | src/cdeepso.hpp:187-193 | Both populations are moved and fully evaluated, with fitness matching their rows; exactly 2 * popSize evaluations. |
| Optimizer.Cdeepso.MotionStep | src/cdeepso.hpp:187-195 | The second half of a generation spends exactly 2 * popSize evaluations, never worsens any best, and keeps tracking. |
| Optimizer.Cdeepso.Generation | src/cdeepso.hpp:181-201 | A generation succeeds exactly for RAND and BEST. A successful one spends between 2 * popSize and 3 * popSize evaluations; a failed one spends none. gBestFit and every personal best never increase. |
| Optimizer.Cdeepso.SeedPop1 | src/cdeepso.hpp:172-173 | With initPop set, every weight of pop1 is Init of its uniform draws and every position and velocity is its draw mapped into that dimension's bounds. Without it, pop1 is unchanged. |
| Optimizer.Cdeepso.StartRun | src/cdeepso.hpp:172-177 | After optional initialisation, pop1 is fully evaluated (popSize evaluations). Every personal best holds pop1's row, velocity and weight, with pop1's fitness. gBestFit is the minimum fitness, and gBest the first fittest row. |
| Optimizer.Cdeepso.RunGenerations | src/cdeepso.hpp:179-202 | The loop ends because maxGen generations ran or fitEval exceeded maxFitEval, or because the variant is unknown. It spends at least 2 * popSize per generation and overshoots the budget by at most 3 * popSize. The bests stay tracked, gBestFit never increases and no personal best gets worse. |
| Optimizer.Cdeepso.NewScratch | src/cdeepso.hpp:164-168 | The fitness and refresh vectors of optimize are fresh, distinct and popSize long. |
| Optimizer.Cdeepso.Optimize | src/cdeepso.hpp:160-206 | At the end, gBestFit is the least personal-best fitness. On an object whose archive starts empty, no filled archive slot is better than gBestFit and, when at least one archive slot is filled, one of them holds it. The stopping reasons and evaluation bounds are those of RunGenerations, plus the popSize evaluations of the start. |

## Left out

- Console output is not modelled: the `show*` methods, the progress and end-of-run prints, and the `onLoopListener` callback, which is a no-op here.
- The internals of the random generator are not modelled. Draws are arbitrary oracle values, and statistical properties are out of scope. The model relies only on the three assumptions listed above, each stated as a hypothesis of the contracts that need it.
- Floating-point rounding, NaN comparisons and the exactness of the tree sum are out of scope, because values are `real`.
- The objective functions (Rastrigin, Griewank, Rosenbrock) are not modelled. The evaluator is an arbitrary function `f` of a particle row, applied where the refresh flag is set.
- Command-line parsing, configuration decoding and the runs across threads are not modelled. `Config.Params` keeps only the fields the engine reads, and the enumerations keep their integer values.
- Optimizer.Cdeepso.Optimize: `fitEval` and `memGBestIndex` are unbounded integers, so a 32-bit overflow of the counter is not modelled.
- Optimizer.Cdeepso.CreatePop2FromHeuristic: the source's `error()` for an unknown variant is modelled as a failure result that changes nothing and stops the run; what `error()` itself does is not modelled.
- Matrices.IndexOfMin: the library `arr::indexOfMin` and `arr::indexOfMax` are not part of this model; they are taken to return the first index of the extreme value.
- Populations.Population.constructor: the default-constructed weights are left unspecified.
- The `candidates` member vector is not modelled. It is a scratch buffer whose capacity is reserved from `popSize + memGBestSize`. The model returns each slot's candidate list as a sequence instead.
- Motion.ComputeNewVel: the communication coin is drawn once per dimension, as the code does. `communicationProbability` and `dThreshold` only bias the coins, so they are absorbed into the coin oracle.
- Recombination.WriteChild: `uniformInt(dims)` is an arbitrary natural number per particle. A value outside [0, dims) leaves no coordinate forced.
- Optimizer.Cdeepso.NewScratch: the local fitness vectors of `optimize` are zero-initialised in the source. The model leaves them arbitrary, because every entry is written before it is read.
- Optimizer.Cdeepso.RecombinePop2: states the fitness copy, the refresh flags and the variant dispatch; the contents of pop2 are stated by `CreatePop2FromHeuristic`, which it calls, and are not repeated here because the lifted quantified facts push its callers past the verifier's resource limit.
- Optimizer.Cdeepso.MergeIntoPop1: states pop1's merged rows, the personal-best rows and fitness, gBestFit and the preserved tracking, but not the new `gBest` row, `memGBestIndex` or the archive slot write of `updateGBest`. Those are stated by `UpdateBests` and `UpdateGlobalBest`, which it calls, and are not repeated here because they push `MotionStep` past the verifier's resource limit.
- Optimizer.Cdeepso.MovePopulations: states the evaluation count and the fitness of both populations; the contents of pop2 and pop1 are stated by `MoveTrial` and `MoveCurrent`, and are not repeated here for the same cost reason.
- Optimizer.Cdeepso.StartRun: does not restate the initial contents of pop1; they are stated by `SeedPop1` and `Motion.InitPopulation`.
- Optimizer.Cdeepso.Optimize: the final gBestFit is not bounded by the first evaluation, because that fitness lives in a local vector of `optimize`; `RunGenerations` states that gBestFit never increases across the generations.
- Weights: the `Weight::generator` pointer is not modelled; the normal and uniform draws are passed in explicitly.
