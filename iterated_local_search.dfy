/** The iterated local search: perturb the incumbent by random swaps whose
    number grows with the count of rounds without improvement, descend
    again, and accept only a strictly cheaper result. The random source is
    an input: the shuffled start and the stream of drawn position pairs. */
module IteratedLocalSearch {
  import opened Jobs
  import opened Evaluator
  import opened Neighbourhood
  import opened LocalSearch

  /** A draw of two distinct positions of a sequence of length `len`. */
  predicate ValidPair(p: (nat, nat), len: nat) {
    p.0 < len && p.1 < len && p.0 != p.1
  }

  predicate ValidDraws(draws: seq<(nat, nat)>, len: nat) {
    forall t :: 0 <= t < |draws| ==> ValidPair(draws[t], len)
  }

  /** `s` after exchanging the two positions of each draw, first draw first. */
  function SwapAll(s: seq<nat>, draws: seq<(nat, nat)>): (r: seq<nat>)
    requires ValidDraws(draws, |s|)
    ensures |r| == |s| && multiset(r) == multiset(s)
    decreases |draws|
  {
    if draws == [] then s
    else
      var last := draws[|draws| - 1];
      Swap(SwapAll(s, draws[..|draws| - 1]), last.0, last.1)
  }

  /** Copies `s` and exchanges the positions of `strength` draws in turn. */
  method Perturb(s: seq<nat>, strength: nat, draws: seq<(nat, nat)>) returns (r: seq<nat>)
    requires |draws| == strength && ValidDraws(draws, |s|)
    ensures r == SwapAll(s, draws)
    ensures |r| == |s| && multiset(r) == multiset(s)
  {
    r := s;
    for t := 0 to strength
      invariant ValidDraws(draws[..t], |s|)
      invariant r == SwapAll(s, draws[..t])
    {
      var (i, j) := draws[t];
      assert draws[..t + 1][..t] == draws[..t];
      r := r[i := r[j]][j := r[i]];
    }
    assert draws[..strength] == draws;
  }

  /** One round of the search from the incumbent `sBest`, `iter` rounds
      after the last improvement: perturb with `iter + 1` swaps, descend,
      and accept the result only when its cost is strictly lower, which
      resets the counter; otherwise keep the incumbent and count the round. */
  method Round(inst: Instance, sBest: seq<nat>, fBest: Cost, iter: nat, draws: seq<(nat, nat)>)
    returns (sNext: seq<nat>, fNext: Cost, iterNext: nat)
    requires inst.Valid() && IsPermutation(sBest, inst.JobCount()) && fBest == CostOf(inst, sBest)
    requires |draws| == iter + 1 && ValidDraws(draws, inst.JobCount())
    ensures IsPermutation(sNext, inst.JobCount()) && inst.InRange(sNext)
    ensures fNext == CostOf(inst, sNext) && LessEq(fNext, fBest)
    ensures iterNext == 0 <==> Less(fNext, fBest)
    ensures iterNext == 0 ==> LocalOptimum(inst, sNext)
    ensures iterNext != 0 ==> sNext == sBest && fNext == fBest && iterNext == iter + 1
  {
    PermutationLength(sBest, inst.JobCount());
    var sPrime := Perturb(sBest, iter + 1, draws);
    PermutationOfReordering(sBest, sPrime, inst.JobCount());
    var sDouble, fDouble := Vns(inst, sPrime);
    if Less(fDouble, fBest) {
      sNext, fNext, iterNext := sDouble, fDouble, 0;
    } else {
      sNext, fNext, iterNext := sBest, fBest, iter + 1;
    }
  }

  /** The search from the shuffled start: one descent, then rounds of
      perturbation (strength = rounds without improvement + 1, drawn in
      order from `draw`) and descent, accepting only strictly cheaper
      results, until `maxIter` rounds in a row bring no improvement. */
  method Ils(inst: Instance, maxIter: nat, shuffled: seq<nat>, draw: nat -> (nat, nat))
    returns (sBest: seq<nat>, fBest: Cost)
    requires inst.Valid() && IsPermutation(shuffled, inst.JobCount())
    requires maxIter > 0 ==> forall t :: ValidPair(draw(t), inst.JobCount())
    ensures IsPermutation(sBest, inst.JobCount()) && inst.InRange(sBest)
    ensures fBest == CostOf(inst, sBest)
    ensures LessEq(fBest, CostOf(inst, shuffled))
    ensures LocalOptimum(inst, sBest)
  {
    var n := inst.JobCount();
    sBest, fBest := Vns(inst, shuffled);
    FeasibleCostBounded(inst, sBest);
    ghost var seedCost := fBest;
    var iter: nat := 0;
    var drawn: nat := 0;
    while iter < maxIter
      invariant iter <= maxIter
      invariant IsPermutation(sBest, n) && inst.InRange(sBest)
      invariant fBest == CostOf(inst, sBest) && Bounded(inst, fBest)
      invariant LessEq(fBest, seedCost) && LessEq(seedCost, CostOf(inst, shuffled))
      invariant LocalOptimum(inst, sBest)
      decreases Measure(inst, fBest), maxIter - iter
    {
      var strength := iter + 1;
      var draws := seq(strength, k requires 0 <= k < strength => draw(drawn + k));
      drawn := drawn + strength;
      ghost var before := fBest;
      sBest, fBest, iter := Round(inst, sBest, fBest, iter, draws);
      FeasibleCostBounded(inst, sBest);
      if iter == 0 {
        MeasureDecreases(inst, fBest, before);
      }
    }
  }
}
