// The configuration the engine reads, and the two enumerations it
// dispatches on, with the integer values the source gives them.

module Config {

  /**
   * MemStrategy is a bit mask: bit 0 (POS) scans the population, bit 1
   * (MEM) the archive; POSMEM (3) sets both.
   */
  const Pos: int := 1
  const Mem: int := 2

  /** DEType values. Any other value is rejected when the recombination is dispatched. */
  const Rand: int := 2
  const Best: int := 3

  /** `memStrategy & POS`: bit 0 of the (two's complement) mask. */
  predicate UsesPos(memStrategy: int)
  {
    (memStrategy / Pos) % 2 == 1
  }

  /** `memStrategy & MEM`: bit 1 of the (two's complement) mask. */
  predicate UsesMem(memStrategy: int)
  {
    (memStrategy / Mem) % 2 == 1
  }

  /** The configuration fields the core reads. */
  datatype Params = Params(
    dims: int,
    popSize: int,
    memGBestSize: int,
    memStrategy: int,
    deType: int,
    mutationRate: real,
    communicationProbability: real,
    maxVelocity: real,
    xMin: real,
    xMax: real,
    maxFitEval: int,
    maxGen: int)
}
