// Selection and best tracking (`initBests`, `mergePopulations`,
// `updateMyBestPos`, `updateGBest` in src/operations.hpp). Fitness vectors
// are arrays of reals; lower fitness is better.

module Selection {
  import opened Matrices
  import opened Populations

  /**
   * `initBests`: the personal bests start as a copy of `current` and its
   * fitness, and the global best is the first row of least fitness.
   */
  method InitBests(current: Population, fitness: array<real>, myBest: Population, myBestFitness: array<real>,
                   gBest: array<real>) returns (gBestFit: real)
    requires Compatible(myBest, current) && myBest.Size() == current.Size()
    requires 0 < fitness.Length == current.Size() && myBestFitness.Length == fitness.Length
    requires fitness != myBestFitness && fitness != gBest && myBestFitness != gBest
    requires gBest.Length == current.Dims()
    modifies myBest.particles, myBest.velocity, myBest.weights, myBestFitness, gBest
    ensures forall i :: 0 <= i < current.Size() ==> Holds(myBest, i, current, i)
    ensures myBestFitness[..] == fitness[..]
    ensures gBestFit == MinOf(fitness[..])
    ensures gBest[..] == Row(current.particles, IndexOfMin(fitness[..]))
  {
    myBest.CloneFrom(current);
    forall i | 0 <= i < fitness.Length {
      myBestFitness[i] := fitness[i];
    }
    var srcId := IndexOfMin(fitness[..]);
    ExportRow(current.particles, srcId, gBest);
    gBestFit := fitness[srcId];
  }

  /**
   * `mergePopulations`: slot i of `dst` takes the position row, velocity
   * row and weight of slot i of `src` exactly when srcFitness[i] <
   * dstFitness[i]. Neither fitness array is written, so `dstFitness`
   * still holds the fitness of the rows that were replaced.
   */
  method MergePopulations(src: Population, dst: Population, srcFitness: array<real>, dstFitness: array<real>)
    requires Compatible(dst, src) && src.Size() <= dst.Size()
    requires src.Size() <= srcFitness.Length && src.Size() <= dstFitness.Length
    modifies dst.particles, dst.velocity, dst.weights
    ensures forall i, j :: 0 <= i < dst.Size() && 0 <= j < dst.Dims() ==>
              && dst.particles[i, j]
                   == (if i < src.Size() && srcFitness[i] < dstFitness[i] then src.particles[i, j] else old(dst.particles[i, j]))
              && dst.velocity[i, j]
                   == (if i < src.Size() && srcFitness[i] < dstFitness[i] then src.velocity[i, j] else old(dst.velocity[i, j]))
    ensures forall i :: 0 <= i < dst.Size() ==>
              dst.weights[i] == (if i < src.Size() && srcFitness[i] < dstFitness[i] then src.weights[i] else old(dst.weights[i]))
  {
    for i := 0 to src.Size()
      invariant forall t, j :: 0 <= t < dst.Size() && 0 <= j < dst.Dims() ==>
                  && dst.particles[t, j]
                       == (if t < i && srcFitness[t] < dstFitness[t] then src.particles[t, j] else old(dst.particles[t, j]))
                  && dst.velocity[t, j]
                       == (if t < i && srcFitness[t] < dstFitness[t] then src.velocity[t, j] else old(dst.velocity[t, j]))
      invariant forall t :: 0 <= t < dst.Size() ==>
                  dst.weights[t] == (if t < i && srcFitness[t] < dstFitness[t] then src.weights[t] else old(dst.weights[t]))
    {
      if srcFitness[i] < dstFitness[i] {
        ImportSlot(dst, i, src, i);
      }
    }
  }

  /** No entry of `now` is larger than the matching entry of `before`. */
  ghost predicate NoWorse(now: seq<real>, before: seq<real>)
  {
    |now| == |before| && forall k :: 0 <= k < |now| ==> now[k] <= before[k]
  }

  /**
   * The personal-best fitnesses after `updateMyBestPos`: entry i becomes
   * `offered[i]` where that is strictly smaller, and stays `kept[i]` otherwise.
   */
  function PointwiseMin(kept: seq<real>, offered: seq<real>): (r: seq<real>)
    requires |kept| == |offered|
    ensures |r| == |kept|
    ensures NoWorse(r, kept) && NoWorse(r, offered)
    ensures forall i :: 0 <= i < |r| ==> r[i] == kept[i] || r[i] == offered[i]
  {
    seq(|kept|, i requires 0 <= i < |kept| => if offered[i] < kept[i] then offered[i] else kept[i])
  }

  /** Which entries of `offered` are strictly smaller than the matching entry of `kept`. */
  function Improved(offered: seq<real>, kept: seq<real>): (r: seq<bool>)
    requires |offered| == |kept|
    ensures |r| == |kept|
    ensures forall i :: 0 <= i < |r| ==> (r[i] <==> offered[i] < kept[i])
  {
    seq(|kept|, i requires 0 <= i < |kept| => offered[i] < kept[i])
  }

  /**
   * The least of the pointwise minima is the smaller of the two least
   * values: taking personal bests then their minimum agrees with taking the
   * global best directly.
   */
  lemma MinOfPointwiseMin(kept: seq<real>, offered: seq<real>)
    requires 0 < |kept| == |offered|
    ensures MinOf(PointwiseMin(kept, offered))
              == (if MinOf(offered) < MinOf(kept) then MinOf(offered) else MinOf(kept))
  {
    var c := PointwiseMin(kept, offered);
    var ia, ib, ic := IndexOfMin(kept), IndexOfMin(offered), IndexOfMin(c);
    assert MinOf(c) <= c[ia] <= kept[ia];
    assert MinOf(c) <= c[ib] <= offered[ib];
    assert c[ic] == kept[ic] || c[ic] == offered[ic];
  }

  /**
   * `updateMyBestPos`: every slot whose new fitness is strictly better than
   * its personal best takes the population's row, velocity, weight and
   * fitness; the others keep theirs. So each personal-best fitness becomes
   * the smaller of the old value and the new fitness.
   */
  method UpdateMyBestPos(pop: Population, popFitness: array<real>, myBest: Population, myBestFitness: array<real>)
    requires Compatible(myBest, pop) && pop.Size() <= myBest.Size()
    requires pop.Size() <= popFitness.Length && pop.Size() <= myBestFitness.Length
    requires popFitness != myBestFitness
    modifies myBest.particles, myBest.velocity, myBest.weights, myBestFitness
    ensures forall i, j :: 0 <= i < myBest.Size() && 0 <= j < myBest.Dims() ==>
              && myBest.particles[i, j]
                   == (if i < pop.Size() && popFitness[i] < old(myBestFitness[i]) then pop.particles[i, j] else old(myBest.particles[i, j]))
              && myBest.velocity[i, j]
                   == (if i < pop.Size() && popFitness[i] < old(myBestFitness[i]) then pop.velocity[i, j] else old(myBest.velocity[i, j]))
    ensures forall i :: 0 <= i < myBest.Size() ==>
              myBest.weights[i]
                == (if i < pop.Size() && popFitness[i] < old(myBestFitness[i]) then pop.weights[i] else old(myBest.weights[i]))
    ensures forall i :: 0 <= i < myBestFitness.Length ==>
              myBestFitness[i] == (if i < pop.Size() && popFitness[i] < old(myBestFitness[i]) then popFitness[i] else old(myBestFitness[i]))
    ensures forall i :: 0 <= i < pop.Size() ==>
              myBestFitness[i] <= old(myBestFitness[i]) && myBestFitness[i] <= popFitness[i]
  {
    for i := 0 to pop.Size()
      invariant forall t, j :: 0 <= t < myBest.Size() && 0 <= j < myBest.Dims() ==>
                  && myBest.particles[t, j]
                       == (if t < i && popFitness[t] < old(myBestFitness[t]) then pop.particles[t, j] else old(myBest.particles[t, j]))
                  && myBest.velocity[t, j]
                       == (if t < i && popFitness[t] < old(myBestFitness[t]) then pop.velocity[t, j] else old(myBest.velocity[t, j]))
      invariant forall t :: 0 <= t < myBest.Size() ==>
                  myBest.weights[t] == (if t < i && popFitness[t] < old(myBestFitness[t]) then pop.weights[t] else old(myBest.weights[t]))
      invariant forall t :: 0 <= t < myBestFitness.Length ==>
                  myBestFitness[t] == (if t < i && popFitness[t] < old(myBestFitness[t]) then popFitness[t] else old(myBestFitness[t]))
    {
      if popFitness[i] < myBestFitness[i] {
        ImportSlot(myBest, i, pop, i);
        myBestFitness[i] := popFitness[i];
      }
    }
  }

  /**
   * The archive slot `updateGBest` writes: the next free slot while the
   * archive is filling, the first slot of largest fitness once it is full.
   */
  function ArchiveSlot(memFitness: seq<real>, index: int): (r: nat)
    requires 0 <= index <= |memFitness| && 0 < |memFitness|
    ensures r < |memFitness|
    ensures index < |memFitness| ==> r == index
    ensures index == |memFitness| ==> forall k :: 0 <= k < |memFitness| ==> memFitness[k] <= memFitness[r]
  {
    if index == |memFitness| then IndexOfMax(memFitness) else index
  }

  /** The archive fill index after an insertion: it grows by one until the archive is full. */
  function NextIndex(index: int, size: nat): (r: int)
    requires 0 <= index <= size
    ensures 0 <= r <= size
    ensures index < size ==> r == index + 1
    ensures index == size ==> r == size
  {
    if index == size then index else index + 1
  }

  /** Every filled archive slot is no better than the global best. */
  ghost predicate ArchiveAbove(memFitness: seq<real>, index: int, gBestFit: real)
  {
    forall k :: 0 <= k < index && k < |memFitness| ==> gBestFit <= memFitness[k]
  }

  /** Some filled archive slot holds the global best fitness. */
  ghost predicate ArchiveHoldsBest(memFitness: seq<real>, index: int, gBestFit: real)
  {
    exists k :: 0 <= k < index && k < |memFitness| && memFitness[k] == gBestFit
  }

  /**
   * `updateGBest`: when the best row of `pop` beats the global best, it
   * becomes the global best and is written into the archive slot
   * ArchiveSlot picks, with its fitness; the fill index advances as
   * NextIndex says. Otherwise nothing changes.
   */
  method UpdateGBest(pop: Population, popFitness: array<real>, memGBest: Population, memGBestFitness: array<real>,
                     memGBestIndex: int, gBest: array<real>, gBestFit: real)
    returns (newIndex: int, newFit: real)
    requires Compatible(memGBest, pop) && 0 < popFitness.Length == pop.Size()
    requires 0 < memGBestFitness.Length == memGBest.Size()
    requires 0 <= memGBestIndex <= memGBest.Size()
    requires gBest.Length == pop.Dims()
    requires popFitness != memGBestFitness && popFitness != gBest && memGBestFitness != gBest
    modifies memGBest.particles, memGBest.velocity, memGBest.weights, memGBestFitness, gBest
    ensures 0 <= newIndex <= memGBest.Size()
    ensures newFit <= gBestFit
    ensures newFit < gBestFit ==> newFit == MinOf(popFitness[..])
    ensures var s := IndexOfMin(popFitness[..]);
            popFitness[s] < gBestFit ==>
              var slot := ArchiveSlot(old(memGBestFitness[..]), memGBestIndex);
              && newFit == popFitness[s]
              && gBest[..] == Row(pop.particles, s)
              && newIndex == NextIndex(memGBestIndex, memGBest.Size())
              && memGBestFitness[..] == old(memGBestFitness[..])[slot := popFitness[s]]
              && Rows(memGBest.particles) == old(Rows(memGBest.particles))[slot := Row(pop.particles, s)]
              && Rows(memGBest.velocity) == old(Rows(memGBest.velocity))[slot := Row(pop.velocity, s)]
              && memGBest.weights[..] == old(memGBest.weights[..])[slot := pop.weights[s]]
    ensures gBestFit <= MinOf(popFitness[..]) ==>
              && newFit == gBestFit && newIndex == memGBestIndex
              && gBest[..] == old(gBest[..]) && memGBestFitness[..] == old(memGBestFitness[..])
              && Rows(memGBest.particles) == old(Rows(memGBest.particles))
              && Rows(memGBest.velocity) == old(Rows(memGBest.velocity))
              && memGBest.weights[..] == old(memGBest.weights[..])
    ensures ArchiveAbove(old(memGBestFitness[..]), memGBestIndex, gBestFit) ==>
              ArchiveAbove(memGBestFitness[..], newIndex, newFit)
    ensures ArchiveHoldsBest(old(memGBestFitness[..]), memGBestIndex, gBestFit) ==>
              ArchiveHoldsBest(memGBestFitness[..], newIndex, newFit)
    ensures newFit < gBestFit ==> ArchiveHoldsBest(memGBestFitness[..], newIndex, newFit)
    ensures newFit == gBestFit ==> newIndex == memGBestIndex && memGBestFitness[..] == old(memGBestFitness[..])
  {
    ghost var oldMem, particles, velocity := memGBestFitness[..], Rows(memGBest.particles), Rows(memGBest.velocity);
    var srcId := IndexOfMin(popFitness[..]);
    newIndex, newFit := memGBestIndex, gBestFit;
    if popFitness[srcId] < gBestFit {
      ExportRow(pop.particles, srcId, gBest);
      newFit := popFitness[srcId];
      var dstId;
      if memGBestIndex == memGBest.Size() {
        dstId := IndexOfMax(memGBestFitness[..]);
      } else {
        dstId := memGBestIndex;
        newIndex := memGBestIndex + 1;
      }
      ImportSlot(memGBest, dstId, pop, srcId);
      memGBestFitness[dstId] := popFitness[srcId];
      assert memGBestFitness[..] == oldMem[dstId := newFit];
      assert memGBestFitness[dstId] == newFit;
      RowsFromEntries(memGBest.particles, particles[dstId := Row(pop.particles, srcId)]);
      RowsFromEntries(memGBest.velocity, velocity[dstId := Row(pop.velocity, srcId)]);
    }
  }
}
