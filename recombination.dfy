// Differential-evolution recombination (`updateCandidates`, `heuristicRand`,
// `heuristicBest` in src/operations.hpp). A candidate is an `int` code: the
// archive slot i is pushed as -i (so archive slot 0 is the code 0) and the
// population slot i as i + 1; a code is resolved through `code > 0`.

module Recombination {
  import opened Config
  import opened Matrices
  import opened Weights
  import opened Populations
  import opened Random

  /** Where a candidate code points. */
  datatype Slot = Archive(index: nat) | Member(index: nat)

  /** The code `updateCandidates` pushes for a slot. */
  function Encode(s: Slot): (c: int)
    ensures s.Archive? ==> c <= 0
    ensures s.Member? ==> c > 0
  {
    match s
    case Archive(i) => -(i as int)
    case Member(i) => i + 1
  }

  /** How a code is resolved: a positive code is a population slot, any other an archive slot. */
  function Decode(c: int): (s: Slot)
    ensures Encode(s) == c
  {
    if c > 0 then Member(c - 1) else Archive(-c)
  }

  /** Decoding undoes encoding; together with Decode's contract the two are inverse bijections. */
  lemma DecodeEncode(s: Slot)
    ensures Decode(Encode(s)) == s
  {
  }

  /** A code that points at a filled archive slot or at a population slot. */
  predicate ValidCode(c: int, popSize: nat, memIndex: nat)
  {
    if c > 0 then c - 1 < popSize else -c < memIndex
  }

  /**
   * Codes -i, in increasing i, of the archive slots i < n whose fitness is
   * strictly below `bar`.
   */
  function ArchiveCandidates(memFitness: seq<real>, n: nat, bar: real): (r: seq<int>)
    requires n <= |memFitness|
    ensures |r| <= n
    ensures forall x :: x in r ==> x <= 0 && -x < n && memFitness[-x] < bar
    ensures forall i :: 0 <= i < n && memFitness[i] < bar ==> -i in r
    ensures forall p, q :: 0 <= p < q < |r| ==> r[q] < r[p]
  {
    if n == 0 then []
    else
      var prev := ArchiveCandidates(memFitness, n - 1, bar);
      if memFitness[n - 1] < bar then
        assert forall p :: 0 <= p < |prev| ==> prev[p] in prev;
        prev + [-(n - 1)]
      else prev
  }

  /**
   * Codes i + 1, in increasing i, of the population slots i < n whose
   * fitness is strictly below `bar`.
   */
  function MemberCandidates(popFitness: seq<real>, n: nat, bar: real): (r: seq<int>)
    requires n <= |popFitness|
    ensures |r| <= n
    ensures forall x :: x in r ==> 0 < x <= n && popFitness[x - 1] < bar
    ensures forall i :: 0 <= i < n && popFitness[i] < bar ==> i + 1 in r
    ensures forall p, q :: 0 <= p < q < |r| ==> r[p] < r[q]
  {
    if n == 0 then []
    else
      var prev := MemberCandidates(popFitness, n - 1, bar);
      if popFitness[n - 1] < bar then
        assert forall p :: 0 <= p < |prev| ==> prev[p] in prev;
        prev + [n]
      else prev
  }

  /**
   * The candidate list of slot `k`: with the MEM bit, the archive slots
   * strictly better than slot k; then, with the POS bit, the population
   * slots strictly better than slot k. Slot k itself never qualifies.
   */
  function Candidates(k: nat, popFitness: seq<real>, popSize: nat, memFitness: seq<real>, memIndex: nat,
                      memStrategy: int): (r: seq<int>)
    requires k < popSize <= |popFitness| && memIndex <= |memFitness|
    ensures |r| <= memIndex + popSize
  {
    (if UsesMem(memStrategy) then ArchiveCandidates(memFitness, memIndex, popFitness[k]) else [])
    + (if UsesPos(memStrategy) then MemberCandidates(popFitness, popSize, popFitness[k]) else [])
  }

  /**
   * A code is a candidate of slot k exactly when it encodes a filled
   * archive slot (MEM bit) or a population slot (POS bit) whose fitness is
   * strictly below slot k's.
   */
  lemma CandidatesExact(k: nat, popFitness: seq<real>, popSize: nat, memFitness: seq<real>, memIndex: nat,
                        memStrategy: int, x: int)
    requires k < popSize <= |popFitness| && memIndex <= |memFitness|
    ensures x in Candidates(k, popFitness, popSize, memFitness, memIndex, memStrategy) <==>
              || (UsesMem(memStrategy) && x <= 0 && -x < memIndex && memFitness[-x] < popFitness[k])
              || (UsesPos(memStrategy) && 0 < x <= popSize && popFitness[x - 1] < popFitness[k])
  {
    var bar := popFitness[k];
    var fromMem := if UsesMem(memStrategy) then ArchiveCandidates(memFitness, memIndex, bar) else [];
    var fromPos := if UsesPos(memStrategy) then MemberCandidates(popFitness, popSize, bar) else [];
    assert x in fromMem + fromPos <==> x in fromMem || x in fromPos;
    if UsesMem(memStrategy) && x <= 0 && -x < memIndex && memFitness[-x] < bar {
      assert -(-x) in fromMem;
    }
    if UsesPos(memStrategy) && 0 < x <= popSize && popFitness[x - 1] < bar {
      assert (x - 1) + 1 in fromPos;
    }
  }

  /** Every candidate code resolves to a real slot, and slot k is never its own candidate. */
  lemma CandidatesValid(k: nat, popFitness: seq<real>, popSize: nat, memFitness: seq<real>, memIndex: nat,
                        memStrategy: int)
    requires k < popSize <= |popFitness| && memIndex <= |memFitness|
    ensures forall x :: x in Candidates(k, popFitness, popSize, memFitness, memIndex, memStrategy) ==>
              ValidCode(x, popSize, memIndex)
    ensures k + 1 !in Candidates(k, popFitness, popSize, memFitness, memIndex, memStrategy)
  {
    forall x | x in Candidates(k, popFitness, popSize, memFitness, memIndex, memStrategy)
      ensures ValidCode(x, popSize, memIndex)
    {
      CandidatesExact(k, popFitness, popSize, memFitness, memIndex, memStrategy, x);
    }
    CandidatesExact(k, popFitness, popSize, memFitness, memIndex, memStrategy, k + 1);
  }

  /** The MEM loop of `updateCandidates`: appends -i for every better archive slot i < memIndex. */
  method AppendArchiveCandidates(candidates: seq<int>, memFitness: seq<real>, memIndex: nat, particleFit: real)
    returns (r: seq<int>)
    requires memIndex <= |memFitness|
    ensures r == candidates + ArchiveCandidates(memFitness, memIndex, particleFit)
  {
    r := candidates;
    for i := 0 to memIndex
      invariant r == candidates + ArchiveCandidates(memFitness, i, particleFit)
    {
      ghost var before := ArchiveCandidates(memFitness, i, particleFit);
      if memFitness[i] < particleFit {
        assert ArchiveCandidates(memFitness, i + 1, particleFit) == before + [-i];
        r := r + [-i];
        assert r == candidates + (before + [-i]);
      }
    }
  }

  /** The POS loop of `updateCandidates`: appends i + 1 for every better population slot i < popSize. */
  method AppendMemberCandidates(candidates: seq<int>, popFitness: seq<real>, popSize: nat, particleFit: real)
    returns (r: seq<int>)
    requires popSize <= |popFitness|
    ensures r == candidates + MemberCandidates(popFitness, popSize, particleFit)
  {
    r := candidates;
    for i := 0 to popSize
      invariant r == candidates + MemberCandidates(popFitness, i, particleFit)
    {
      ghost var before := MemberCandidates(popFitness, i, particleFit);
      if popFitness[i] < particleFit {
        assert MemberCandidates(popFitness, i + 1, particleFit) == before + [i + 1];
        r := r + [i + 1];
        assert r == candidates + (before + [i + 1]);
      }
    }
  }

  /**
   * `updateCandidates`: clears the candidate list of slot `k`, then runs
   * the MEM loop and the POS loop as the strategy bits say.
   */
  method UpdateCandidates(k: nat, popFitness: seq<real>, popSize: nat, memFitness: seq<real>, memIndex: nat,
                          memStrategy: int) returns (candidates: seq<int>)
    requires k < popSize <= |popFitness| && memIndex <= |memFitness|
    ensures candidates == Candidates(k, popFitness, popSize, memFitness, memIndex, memStrategy)
  {
    var particleFit := popFitness[k];
    candidates := [];
    if UsesMem(memStrategy) {
      candidates := AppendArchiveCandidates(candidates, memFitness, memIndex, particleFit);
    }
    if UsesPos(memStrategy) {
      candidates := AppendMemberCandidates(candidates, popFitness, popSize, particleFit);
    }
  }

  /** A shuffle that permutes its argument keeps its length and its elements. */
  lemma ShuffleKeepsCandidates(d: Draws, i: nat, candidates: seq<int>)
    requires d.ShufflePermutes()
    ensures |d.shuffle(i, candidates)| == |candidates|
    ensures forall x :: x in d.shuffle(i, candidates) ==> x in candidates
  {
    var shuffled := d.shuffle(i, candidates);
    assert multiset(shuffled) == multiset(candidates);
    assert |multiset(shuffled)| == |shuffled| && |multiset(candidates)| == |candidates|;
    forall x | x in shuffled
      ensures x in candidates
    {
      assert x in multiset(shuffled);
    }
  }

  /** The row a candidate code points at: `c > 0 ? src row c-1 : memGBest row -c`. */
  function Resolve(c: int, src: Population, memGBest: Population, memIndex: nat): (r: seq<real>)
    reads src.particles, memGBest.particles
    requires src.Valid() && memGBest.Valid() && src.Dims() == memGBest.Dims()
    requires ValidCode(c, src.Size(), memIndex) && memIndex <= memGBest.Size()
    ensures |r| == src.Dims()
    ensures c > 0 ==> r == Row(src.particles, c - 1)
    ensures c <= 0 ==> r == Row(memGBest.particles, -c)
  {
    match Decode(c)
    case Member(m) => Row(src.particles, m)
    case Archive(a) => Row(memGBest.particles, a)
  }

  /** The DE mutant coordinate `base + f * (a - b)`; equal difference coordinates leave the base. */
  function Mutant(base: real, a: real, b: real, f: real): (r: real)
    ensures a == b ==> r == base
    ensures f == 0.0 ==> r == base
  {
    base + f * (a - b)
  }

  /**
   * Binomial crossover of one coordinate: the donor coordinate when the
   * coin says so or the coordinate is the forced one, the mutant otherwise.
   */
  function ChildCoord(mutant: real, donor: real, crossover: bool, forced: bool): (r: real)
    ensures forced ==> r == donor
    ensures r == donor || r == mutant
    ensures r == mutant <== !crossover && !forced
  {
    if crossover || forced then donor else mutant
  }

  /**
   * Writes the DE child into particle row `i` of `dst`: first the mutant of
   * every coordinate, then the crossover with `donor`, the coordinate
   * `d.uniformInt(i)` always taken from the donor.
   */
  method WriteChild(dst: Population, i: nat, base: seq<real>, a: seq<real>, b: seq<real>, donor: seq<real>,
                    f: real, d: Draws)
    requires dst.Valid() && i < dst.Size()
    requires |base| == |a| == |b| == |donor| == dst.Dims()
    modifies dst.particles
    ensures forall j :: 0 <= j < dst.Dims() ==>
              dst.particles[i, j] == ChildCoord(Mutant(base[j], a[j], b[j], f), donor[j], d.coin(i, j), j == d.uniformInt(i))
    ensures forall t, j :: 0 <= t < dst.Size() && t != i && 0 <= j < dst.Dims() ==>
              dst.particles[t, j] == old(dst.particles[t, j])
  {
    for j := 0 to dst.Dims()
      invariant forall c :: 0 <= c < j ==> dst.particles[i, c] == Mutant(base[c], a[c], b[c], f)
      invariant forall t, c :: 0 <= t < dst.Size() && t != i && 0 <= c < dst.Dims() ==>
                  dst.particles[t, c] == old(dst.particles[t, c])
    {
      dst.particles[i, j] := base[j] + f * (a[j] - b[j]);
    }
    var forced := d.uniformInt(i);
    for j := 0 to dst.Dims()
      invariant forall c :: 0 <= c < j ==>
                  dst.particles[i, c] == ChildCoord(Mutant(base[c], a[c], b[c], f), donor[c], d.coin(i, c), c == forced)
      invariant forall c :: j <= c < dst.Dims() ==> dst.particles[i, c] == Mutant(base[c], a[c], b[c], f)
      invariant forall t, c :: 0 <= t < dst.Size() && t != i && 0 <= c < dst.Dims() ==>
                  dst.particles[t, c] == old(dst.particles[t, c])
    {
      if d.coin(i, j) || j == forced {
        dst.particles[i, j] := donor[j];
      }
    }
  }

  /** The populations a heuristic reads (`src`, `myBest`, the archive) all share `dst`'s shape and none shares a buffer with `dst`. */
  ghost predicate Sources(src: Population, dst: Population, myBest: Population, memGBest: Population)
  {
    Compatible(dst, src) && Compatible(dst, myBest) && Compatible(dst, memGBest)
  }

  /** Position `heuristicRand` gives to coordinate (i, j) of the trial population. */
  ghost function RandParticle(src: Population, srcFitness: seq<real>, myBest: Population, memGBest: Population,
                              memFitness: seq<real>, memIndex: nat, memStrategy: int, d: Draws, i: nat, j: nat): real
    reads src.particles, src.weights, myBest.particles, memGBest.particles
    requires src.Valid() && myBest.Valid() && memGBest.Valid()
    requires src.Dims() == myBest.Dims() == memGBest.Dims()
    requires i < src.Size() <= |srcFitness| && i < myBest.Size() && j < src.Dims()
    requires memIndex <= |memFitness| && memIndex <= memGBest.Size()
    requires d.ShufflePermutes()
  {
    var candidates := Candidates(i, srcFitness, src.Size(), memFitness, memIndex, memStrategy);
    if |candidates| < 3 then src.particles[i, j]
    else
      var shuffled := d.shuffle(i, candidates);
      CandidatesValid(i, srcFitness, src.Size(), memFitness, memIndex, memStrategy);
      ShuffleKeepsCandidates(d, i, candidates);
      ChildCoord(Mutant(Resolve(shuffled[0], src, memGBest, memIndex)[j],
                        Resolve(shuffled[1], src, memGBest, memIndex)[j],
                        Resolve(shuffled[2], src, memGBest, memIndex)[j],
                        src.weights[i].dVelocity),
                 myBest.particles[i, j], d.coin(i, j), j == d.uniformInt(i))
  }

  /** Position `heuristicBest` gives to coordinate (i, j) of the trial population. */
  ghost function BestParticle(src: Population, srcFitness: seq<real>, gBest: seq<real>, memGBest: Population,
                              memFitness: seq<real>, memIndex: nat, memStrategy: int, d: Draws, i: nat, j: nat): real
    reads src.particles, src.weights, memGBest.particles
    requires src.Valid() && memGBest.Valid() && src.Dims() == memGBest.Dims()
    requires i < src.Size() <= |srcFitness| && j < src.Dims() && |gBest| == src.Dims()
    requires memIndex <= |memFitness| && memIndex <= memGBest.Size()
    requires d.ShufflePermutes()
  {
    var candidates := Candidates(i, srcFitness, src.Size(), memFitness, memIndex, memStrategy);
    if |candidates| < 2 then src.particles[i, j]
    else
      var shuffled := d.shuffle(i, candidates);
      CandidatesValid(i, srcFitness, src.Size(), memFitness, memIndex, memStrategy);
      ShuffleKeepsCandidates(d, i, candidates);
      ChildCoord(Mutant(gBest[j],
                        Resolve(shuffled[0], src, memGBest, memIndex)[j],
                        Resolve(shuffled[1], src, memGBest, memIndex)[j],
                        src.weights[i].dVelocity),
                 gBest[j], d.coin(i, j), j == d.uniformInt(i))
  }

  /** One iteration of `heuristicRand`'s loop: slot i of `dst`. */
  method RandSlot(src: Population, srcFitness: seq<real>, dst: Population, myBest: Population, memGBest: Population,
                  memFitness: seq<real>, memIndex: nat, memStrategy: int, dstRefresh: array<bool>, d: Draws, i: nat)
    requires Sources(src, dst, myBest, memGBest)
    requires i < src.Size() <= |srcFitness| && src.Size() <= dst.Size() && src.Size() <= myBest.Size()
    requires src.Size() <= dstRefresh.Length
    requires memIndex <= |memFitness| && memIndex <= memGBest.Size()
    requires d.ShufflePermutes()
    modifies dst.particles, dst.velocity, dst.weights, dstRefresh
    ensures var few := |Candidates(i, srcFitness, src.Size(), memFitness, memIndex, memStrategy)| < 3;
            && (forall j :: 0 <= j < dst.Dims() ==>
                  && dst.particles[i, j] == old(RandParticle(src, srcFitness, myBest, memGBest, memFitness, memIndex, memStrategy, d, i, j))
                  && dst.velocity[i, j] == (if few then src.velocity[i, j] else old(dst.velocity[i, j])))
            && dst.weights[i] == src.weights[i]
            && dstRefresh[i] == (!few || old(dstRefresh[i]))
    ensures forall t, j :: 0 <= t < dst.Size() && t != i && 0 <= j < dst.Dims() ==>
              dst.particles[t, j] == old(dst.particles[t, j]) && dst.velocity[t, j] == old(dst.velocity[t, j])
    ensures forall t :: 0 <= t < dst.Size() && t != i ==> dst.weights[t] == old(dst.weights[t])
    ensures forall t :: 0 <= t < dstRefresh.Length && t != i ==> dstRefresh[t] == old(dstRefresh[t])
  {
    var candidates := UpdateCandidates(i, srcFitness, src.Size(), memFitness, memIndex, memStrategy);
    if |candidates| >= 3 {
      RandChild(src, srcFitness, dst, myBest, memGBest, memFitness, memIndex, memStrategy, dstRefresh, d, i, candidates);
    } else {
      ImportSlot(dst, i, src, i);
    }
  }

  /**
   * The body of `heuristicRand`'s loop for a slot i with at least three
   * candidates: three distinct candidates, the DE/rand/1 child crossed
   * with the personal best, `src`'s weight, and the evaluation flag set.
   */
  method RandChild(src: Population, srcFitness: seq<real>, dst: Population, myBest: Population, memGBest: Population,
                   memFitness: seq<real>, memIndex: nat, memStrategy: int, dstRefresh: array<bool>, d: Draws, i: nat,
                   candidates: seq<int>)
    requires Sources(src, dst, myBest, memGBest)
    requires i < src.Size() <= |srcFitness| && src.Size() <= dst.Size() && src.Size() <= myBest.Size()
    requires src.Size() <= dstRefresh.Length
    requires memIndex <= |memFitness| && memIndex <= memGBest.Size()
    requires d.ShufflePermutes()
    requires candidates == Candidates(i, srcFitness, src.Size(), memFitness, memIndex, memStrategy) && 3 <= |candidates|
    modifies dst.particles, dst.weights, dstRefresh
    ensures forall j :: 0 <= j < dst.Dims() ==>
              dst.particles[i, j] == old(RandParticle(src, srcFitness, myBest, memGBest, memFitness, memIndex, memStrategy, d, i, j))
    ensures dst.weights[i] == src.weights[i] && dstRefresh[i]
    ensures forall t, j :: 0 <= t < dst.Size() && t != i && 0 <= j < dst.Dims() ==>
              dst.particles[t, j] == old(dst.particles[t, j])
    ensures forall t :: 0 <= t < dst.Size() && t != i ==> dst.weights[t] == old(dst.weights[t])
    ensures forall t :: 0 <= t < dstRefresh.Length && t != i ==> dstRefresh[t] == old(dstRefresh[t])
  {
    var shuffled := d.shuffle(i, candidates);
    CandidatesValid(i, srcFitness, src.Size(), memFitness, memIndex, memStrategy);
    ShuffleKeepsCandidates(d, i, candidates);
    var mgb1 := Resolve(shuffled[0], src, memGBest, memIndex);
    var mgb2 := Resolve(shuffled[1], src, memGBest, memIndex);
    var mgb3 := Resolve(shuffled[2], src, memGBest, memIndex);
    var mbp := Row(myBest.particles, i);
    var w := src.weights[i];
    dstRefresh[i] := true;
    dst.weights[i] := w;
    WriteChild(dst, i, mgb1, mgb2, mgb3, mbp, w.dVelocity, d);
  }

  /** One iteration of `heuristicBest`'s loop: slot i of `dst`. */
  method BestSlot(src: Population, srcFitness: seq<real>, dst: Population, gBest: seq<real>, memGBest: Population,
                  memFitness: seq<real>, memIndex: nat, memStrategy: int, dstRefresh: array<bool>, d: Draws, i: nat)
    requires Compatible(dst, src) && Compatible(dst, memGBest) && |gBest| == dst.Dims()
    requires i < src.Size() <= |srcFitness| && src.Size() <= dst.Size() && src.Size() <= dstRefresh.Length
    requires memIndex <= |memFitness| && memIndex <= memGBest.Size()
    requires d.ShufflePermutes()
    modifies dst.particles, dst.velocity, dst.weights, dstRefresh
    ensures var few := |Candidates(i, srcFitness, src.Size(), memFitness, memIndex, memStrategy)| < 2;
            && (forall j :: 0 <= j < dst.Dims() ==>
                  && dst.particles[i, j] == old(BestParticle(src, srcFitness, gBest, memGBest, memFitness, memIndex, memStrategy, d, i, j))
                  && dst.velocity[i, j] == (if few then src.velocity[i, j] else old(dst.velocity[i, j])))
            && dst.weights[i] == src.weights[i]
            && dstRefresh[i] == (!few || old(dstRefresh[i]))
    ensures forall t, j :: 0 <= t < dst.Size() && t != i && 0 <= j < dst.Dims() ==>
              dst.particles[t, j] == old(dst.particles[t, j]) && dst.velocity[t, j] == old(dst.velocity[t, j])
    ensures forall t :: 0 <= t < dst.Size() && t != i ==> dst.weights[t] == old(dst.weights[t])
    ensures forall t :: 0 <= t < dstRefresh.Length && t != i ==> dstRefresh[t] == old(dstRefresh[t])
  {
    var candidates := UpdateCandidates(i, srcFitness, src.Size(), memFitness, memIndex, memStrategy);
    if |candidates| >= 2 {
      var shuffled := d.shuffle(i, candidates);
      CandidatesValid(i, srcFitness, src.Size(), memFitness, memIndex, memStrategy);
      ShuffleKeepsCandidates(d, i, candidates);
      var mgb1 := Resolve(shuffled[0], src, memGBest, memIndex);
      var mgb2 := Resolve(shuffled[1], src, memGBest, memIndex);
      var w := src.weights[i];
      dstRefresh[i] := true;
      dst.weights[i] := w;
      WriteChild(dst, i, gBest, mgb1, mgb2, gBest, w.dVelocity, d);
    } else {
      ImportSlot(dst, i, src, i);
    }
  }

  /**
   * `heuristicRand`: every slot i of `src` with at least three candidates
   * gets a DE/rand/1 child crossed with its personal best, keeps its old
   * velocity, takes `src`'s weight and is flagged for evaluation; any other
   * slot is copied verbatim from `src` and its flag is left alone.
   */
  method HeuristicRand(src: Population, srcFitness: seq<real>, dst: Population, myBest: Population,
                       memGBest: Population, memFitness: seq<real>, memIndex: nat, memStrategy: int,
                       dstRefresh: array<bool>, d: Draws)
    requires Sources(src, dst, myBest, memGBest)
    requires src.Size() <= |srcFitness| && src.Size() <= dst.Size() && src.Size() <= myBest.Size()
    requires src.Size() <= dstRefresh.Length
    requires memIndex <= |memFitness| && memIndex <= memGBest.Size()
    requires d.ShufflePermutes()
    modifies dst.particles, dst.velocity, dst.weights, dstRefresh
    ensures forall i, j :: 0 <= i < src.Size() && 0 <= j < dst.Dims() ==>
              dst.particles[i, j] == old(RandParticle(src, srcFitness, myBest, memGBest, memFitness, memIndex, memStrategy, d, i, j))
    ensures forall i, j :: 0 <= i < src.Size() && 0 <= j < dst.Dims() ==>
              dst.velocity[i, j]
                == if |Candidates(i, srcFitness, src.Size(), memFitness, memIndex, memStrategy)| < 3
                   then src.velocity[i, j] else old(dst.velocity[i, j])
    ensures forall i :: 0 <= i < src.Size() ==> dst.weights[i] == src.weights[i]
    ensures forall i :: 0 <= i < src.Size() ==>
              dstRefresh[i] == (3 <= |Candidates(i, srcFitness, src.Size(), memFitness, memIndex, memStrategy)| || old(dstRefresh[i]))
    ensures forall i, j :: src.Size() <= i < dst.Size() && 0 <= j < dst.Dims() ==>
              dst.particles[i, j] == old(dst.particles[i, j]) && dst.velocity[i, j] == old(dst.velocity[i, j])
    ensures forall i :: src.Size() <= i < dst.Size() ==> dst.weights[i] == old(dst.weights[i])
    ensures forall i :: src.Size() <= i < dstRefresh.Length ==> dstRefresh[i] == old(dstRefresh[i])
  {
    for i := 0 to src.Size()
      invariant forall t, j :: 0 <= t < i && 0 <= j < dst.Dims() ==>
                  dst.particles[t, j] == old(RandParticle(src, srcFitness, myBest, memGBest, memFitness, memIndex, memStrategy, d, t, j))
      invariant forall t, j :: 0 <= t < i && 0 <= j < dst.Dims() ==>
                  dst.velocity[t, j]
                    == if |Candidates(t, srcFitness, src.Size(), memFitness, memIndex, memStrategy)| < 3
                       then src.velocity[t, j] else old(dst.velocity[t, j])
      invariant forall t :: 0 <= t < i ==> dst.weights[t] == src.weights[t]
      invariant forall t :: 0 <= t < i ==>
                  dstRefresh[t] == (3 <= |Candidates(t, srcFitness, src.Size(), memFitness, memIndex, memStrategy)| || old(dstRefresh[t]))
      invariant forall t, j :: i <= t < dst.Size() && 0 <= j < dst.Dims() ==>
                  dst.particles[t, j] == old(dst.particles[t, j]) && dst.velocity[t, j] == old(dst.velocity[t, j])
      invariant forall t :: i <= t < dst.Size() ==> dst.weights[t] == old(dst.weights[t])
      invariant forall t :: i <= t < dstRefresh.Length ==> dstRefresh[t] == old(dstRefresh[t])
    {
      // The slot about to be written reads only buffers the loop leaves alone.
      assert forall j :: 0 <= j < dst.Dims() ==>
               RandParticle(src, srcFitness, myBest, memGBest, memFitness, memIndex, memStrategy, d, i, j)
                 == old(RandParticle(src, srcFitness, myBest, memGBest, memFitness, memIndex, memStrategy, d, i, j));
      RandSlot(src, srcFitness, dst, myBest, memGBest, memFitness, memIndex, memStrategy, dstRefresh, d, i);
    }
  }

  /**
   * `heuristicBest`: every slot i of `src` with at least two candidates
   * gets a DE/best/1 child around the global best, crossed with the global
   * best itself, keeps its old velocity, takes `src`'s weight and is flagged
   * for evaluation; any other slot is copied verbatim and its flag is left alone.
   */
  method HeuristicBest(src: Population, srcFitness: seq<real>, dst: Population, gBest: seq<real>,
                       memGBest: Population, memFitness: seq<real>, memIndex: nat, memStrategy: int,
                       dstRefresh: array<bool>, d: Draws)
    requires Compatible(dst, src) && Compatible(dst, memGBest) && |gBest| == dst.Dims()
    requires src.Size() <= |srcFitness| && src.Size() <= dst.Size() && src.Size() <= dstRefresh.Length
    requires memIndex <= |memFitness| && memIndex <= memGBest.Size()
    requires d.ShufflePermutes()
    modifies dst.particles, dst.velocity, dst.weights, dstRefresh
    ensures forall i, j :: 0 <= i < src.Size() && 0 <= j < dst.Dims() ==>
              dst.particles[i, j] == old(BestParticle(src, srcFitness, gBest, memGBest, memFitness, memIndex, memStrategy, d, i, j))
    ensures forall i, j :: 0 <= i < src.Size() && 0 <= j < dst.Dims() ==>
              dst.velocity[i, j]
                == if |Candidates(i, srcFitness, src.Size(), memFitness, memIndex, memStrategy)| < 2
                   then src.velocity[i, j] else old(dst.velocity[i, j])
    ensures forall i :: 0 <= i < src.Size() ==> dst.weights[i] == src.weights[i]
    ensures forall i :: 0 <= i < src.Size() ==>
              dstRefresh[i] == (2 <= |Candidates(i, srcFitness, src.Size(), memFitness, memIndex, memStrategy)| || old(dstRefresh[i]))
    ensures forall i, j :: src.Size() <= i < dst.Size() && 0 <= j < dst.Dims() ==>
              dst.particles[i, j] == old(dst.particles[i, j]) && dst.velocity[i, j] == old(dst.velocity[i, j])
    ensures forall i :: src.Size() <= i < dst.Size() ==> dst.weights[i] == old(dst.weights[i])
    ensures forall i :: src.Size() <= i < dstRefresh.Length ==> dstRefresh[i] == old(dstRefresh[i])
  {
    for i := 0 to src.Size()
      invariant forall t, j :: 0 <= t < i && 0 <= j < dst.Dims() ==>
                  dst.particles[t, j] == old(BestParticle(src, srcFitness, gBest, memGBest, memFitness, memIndex, memStrategy, d, t, j))
      invariant forall t, j :: 0 <= t < i && 0 <= j < dst.Dims() ==>
                  dst.velocity[t, j]
                    == if |Candidates(t, srcFitness, src.Size(), memFitness, memIndex, memStrategy)| < 2
                       then src.velocity[t, j] else old(dst.velocity[t, j])
      invariant forall t :: 0 <= t < i ==> dst.weights[t] == src.weights[t]
      invariant forall t :: 0 <= t < i ==>
                  dstRefresh[t] == (2 <= |Candidates(t, srcFitness, src.Size(), memFitness, memIndex, memStrategy)| || old(dstRefresh[t]))
      invariant forall t, j :: i <= t < dst.Size() && 0 <= j < dst.Dims() ==>
                  dst.particles[t, j] == old(dst.particles[t, j]) && dst.velocity[t, j] == old(dst.velocity[t, j])
      invariant forall t :: i <= t < dst.Size() ==> dst.weights[t] == old(dst.weights[t])
      invariant forall t :: i <= t < dstRefresh.Length ==> dstRefresh[t] == old(dstRefresh[t])
    {
      // The slot about to be written reads only buffers the loop leaves alone.
      assert forall j :: 0 <= j < dst.Dims() ==>
               BestParticle(src, srcFitness, gBest, memGBest, memFitness, memIndex, memStrategy, d, i, j)
                 == old(BestParticle(src, srcFitness, gBest, memGBest, memFitness, memIndex, memStrategy, d, i, j));
      BestSlot(src, srcFitness, dst, gBest, memGBest, memFitness, memIndex, memStrategy, dstRefresh, d, i);
    }
  }

  /**
   * The DE/rand child always takes its forced coordinate from the personal
   * best, whatever the crossover coins say.
   */
  lemma RandChildForcedCoordinate(src: Population, srcFitness: seq<real>, myBest: Population, memGBest: Population,
                                  memFitness: seq<real>, memIndex: nat, memStrategy: int, d: Draws, i: nat)
    requires src.Valid() && myBest.Valid() && memGBest.Valid()
    requires src.Dims() == myBest.Dims() == memGBest.Dims()
    requires i < src.Size() <= |srcFitness| && i < myBest.Size()
    requires memIndex <= |memFitness| && memIndex <= memGBest.Size()
    requires d.ShufflePermutes()
    requires 3 <= |Candidates(i, srcFitness, src.Size(), memFitness, memIndex, memStrategy)|
    requires d.uniformInt(i) < src.Dims()
    ensures RandParticle(src, srcFitness, myBest, memGBest, memFitness, memIndex, memStrategy, d, i, d.uniformInt(i))
              == myBest.particles[i, d.uniformInt(i)]
  {
  }

  /** The DE/best child always takes its forced coordinate from the global best. */
  lemma BestChildForcedCoordinate(src: Population, srcFitness: seq<real>, gBest: seq<real>, memGBest: Population,
                                  memFitness: seq<real>, memIndex: nat, memStrategy: int, d: Draws, i: nat)
    requires src.Valid() && memGBest.Valid() && src.Dims() == memGBest.Dims()
    requires i < src.Size() <= |srcFitness| && |gBest| == src.Dims()
    requires memIndex <= |memFitness| && memIndex <= memGBest.Size()
    requires d.ShufflePermutes()
    requires 2 <= |Candidates(i, srcFitness, src.Size(), memFitness, memIndex, memStrategy)|
    requires d.uniformInt(i) < src.Dims()
    ensures BestParticle(src, srcFitness, gBest, memGBest, memFitness, memIndex, memStrategy, d, i, d.uniformInt(i))
              == gBest[d.uniformInt(i)]
  {
  }
}
