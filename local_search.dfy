/** The local search: a first-improvement descent over the swap and the
    insert neighbourhoods, repeated until a whole round improves nothing. */
module LocalSearch {
  import opened Jobs
  import opened Evaluator
  import opened Neighbourhood

  /** A cost the search can reach: finite costs never exceed the latest
      deadline (see FeasibleCostBounded). */
  predicate Bounded(inst: Instance, c: Cost) {
    c.Fin? ==> c.value <= MaxDeadline(inst)
  }

  /** The termination measure: the sentinel ranks just above every
      reachable finite cost. */
  function Measure(inst: Instance, c: Cost): nat {
    match c
    case Inf => MaxDeadline(inst) + 1
    case Fin(v) => v
  }

  /** A strict improvement between reachable costs lowers the measure. */
  lemma MeasureDecreases(inst: Instance, a: Cost, b: Cost)
    requires Bounded(inst, a) && Less(a, b)
    ensures Measure(inst, a) < Measure(inst, b)
  {
  }

  /** Swapping positions `a` and `b` of `s` does not lower its cost. */
  predicate SwapFails(inst: Instance, s: seq<nat>, a: nat, b: nat)
    requires inst.Valid() && inst.InRange(s) && a < |s| && b < |s|
  {
    !Less(CostOf(inst, Swap(s, a, b)), CostOf(inst, s))
  }

  /** Moving the job at position `a` of `s` to position `b` does not lower its cost. */
  predicate InsertFails(inst: Instance, s: seq<nat>, a: nat, b: nat)
    requires inst.Valid() && inst.InRange(s) && a < |s| && b < |s|
  {
    !Less(CostOf(inst, Insert(s, a, b)), CostOf(inst, s))
  }

  /** No swap of positions `a < b` with `a < rows` lowers the cost of `s`. */
  predicate SwapsDoNotImprove(inst: Instance, s: seq<nat>, rows: nat)
    requires inst.Valid() && inst.InRange(s)
  {
    forall a, b :: 0 <= a < rows && a < b < |s| ==> SwapFails(inst, s, a, b)
  }

  /** No move of the job at position `a < rows` to another position `b`
      lowers the cost of `s`. */
  predicate InsertsDoNotImprove(inst: Instance, s: seq<nat>, rows: nat)
    requires inst.Valid() && inst.InRange(s)
  {
    forall a, b :: 0 <= a < rows && a < |s| && 0 <= b < |s| && a != b ==> InsertFails(inst, s, a, b)
  }

  /** The moves of the job at position `i` to positions below `upTo` have
      been tried on `s` and none lowers its cost. */
  predicate InsertRowTried(inst: Instance, s: seq<nat>, i: nat, upTo: nat)
    requires inst.Valid() && inst.InRange(s) && i < |s| && upTo <= |s|
  {
    forall b :: 0 <= b < upTo && i != b ==> InsertFails(inst, s, i, b)
  }

  lemma InsertRowStep(inst: Instance, s: seq<nat>, i: nat, j: nat)
    requires inst.Valid() && inst.InRange(s) && i < |s| && j < |s|
    requires InsertRowTried(inst, s, i, j)
    requires i != j ==> InsertFails(inst, s, i, j)
    ensures InsertRowTried(inst, s, i, j + 1)
  {
  }

  /** A finished row of swaps extends the rows already tried. */
  lemma SwapRowDone(inst: Instance, s: seq<nat>, i: nat)
    requires inst.Valid() && inst.InRange(s) && i < |s|
    requires SwapsDoNotImprove(inst, s, i)
    requires forall b :: i < b < |s| ==> SwapFails(inst, s, i, b)
    ensures SwapsDoNotImprove(inst, s, i + 1)
  {
  }

  /** A finished row of moves extends the rows already tried. */
  lemma InsertRowDone(inst: Instance, s: seq<nat>, i: nat)
    requires inst.Valid() && inst.InRange(s) && i < |s|
    requires InsertsDoNotImprove(inst, s, i)
    requires InsertRowTried(inst, s, i, |s|)
    ensures InsertsDoNotImprove(inst, s, i + 1)
  {
  }

  /** No single swap (i < j) and no single move of a job (i != j) gives a
      strictly lower cost than `s` itself. */
  predicate LocalOptimum(inst: Instance, s: seq<nat>)
    requires inst.Valid() && inst.InRange(s)
  {
    SwapsDoNotImprove(inst, s, |s|) && InsertsDoNotImprove(inst, s, |s|)
  }

  /** The swap neighbourhood of one round: every pair of positions i < j
      of the current best, in order, adopting a strictly cheaper candidate
      at once so that later pairs are tried on it. */
  method SwapPass(inst: Instance, start: seq<nat>, startCost: Cost)
    returns (best: seq<nat>, bestCost: Cost, adopted: bool)
    requires inst.Valid() && IsPermutation(start, inst.JobCount())
    requires startCost == CostOf(inst, start) && Bounded(inst, startCost)
    ensures IsPermutation(best, inst.JobCount()) && inst.InRange(best)
    ensures bestCost == CostOf(inst, best) && Bounded(inst, bestCost)
    ensures adopted == Less(bestCost, startCost) && LessEq(bestCost, startCost)
    ensures !adopted ==> best == start && SwapsDoNotImprove(inst, best, |best|)
  {
    var n := inst.JobCount();
    PermutationLength(start, n);
    best, bestCost, adopted := start, startCost, false;
    for i := 0 to n
      invariant IsPermutation(best, n) && |best| == n
      invariant bestCost == CostOf(inst, best) && Bounded(inst, bestCost)
      invariant adopted == Less(bestCost, startCost) && LessEq(bestCost, startCost)
      invariant !adopted ==> best == start && SwapsDoNotImprove(inst, best, i)
    {
      for j := i + 1 to n
        invariant IsPermutation(best, n) && |best| == n
        invariant bestCost == CostOf(inst, best) && Bounded(inst, bestCost)
        invariant adopted == Less(bestCost, startCost) && LessEq(bestCost, startCost)
        invariant !adopted ==> best == start && SwapsDoNotImprove(inst, best, i)
        invariant !adopted ==> forall b :: i < b < j ==> SwapFails(inst, best, i, b)
      {
        var cand := Swap(best, i, j);
        PermutationOfReordering(best, cand, n);
        var cost, schedule := Evaluate(inst, cand);
        if Less(cost, bestCost) {
          FeasibleCostBounded(inst, cand);
          best, bestCost := cand, cost;
          adopted := true;
        } else {
          assert SwapFails(inst, best, i, j);
        }
      }
      if !adopted {
        SwapRowDone(inst, best, i);
      }
    }
  }

  /** The insert neighbourhood of one round: every move of the job at
      position i to a position j != i of the current best, in order,
      adopting a strictly cheaper candidate at once. */
  method InsertPass(inst: Instance, start: seq<nat>, startCost: Cost)
    returns (best: seq<nat>, bestCost: Cost, adopted: bool)
    requires inst.Valid() && IsPermutation(start, inst.JobCount())
    requires startCost == CostOf(inst, start) && Bounded(inst, startCost)
    ensures IsPermutation(best, inst.JobCount()) && inst.InRange(best)
    ensures bestCost == CostOf(inst, best) && Bounded(inst, bestCost)
    ensures adopted == Less(bestCost, startCost) && LessEq(bestCost, startCost)
    ensures !adopted ==> best == start && InsertsDoNotImprove(inst, best, |best|)
  {
    var n := inst.JobCount();
    PermutationLength(start, n);
    best, bestCost, adopted := start, startCost, false;
    for i := 0 to n
      invariant IsPermutation(best, n) && |best| == n
      invariant bestCost == CostOf(inst, best) && Bounded(inst, bestCost)
      invariant adopted == Less(bestCost, startCost) && LessEq(bestCost, startCost)
      invariant !adopted ==> best == start && InsertsDoNotImprove(inst, best, i)
    {
      for j := 0 to n
        invariant IsPermutation(best, n) && |best| == n
        invariant bestCost == CostOf(inst, best) && Bounded(inst, bestCost)
        invariant adopted == Less(bestCost, startCost) && LessEq(bestCost, startCost)
        invariant !adopted ==> best == start && InsertsDoNotImprove(inst, best, i)
        invariant !adopted ==> InsertRowTried(inst, best, i, j)
      {
        if i != j {
          var cand := Insert(best, i, j);
          PermutationOfReordering(best, cand, n);
          var cost, schedule := Evaluate(inst, cand);
          if Less(cost, bestCost) {
            FeasibleCostBounded(inst, cand);
            best, bestCost := cand, cost;
            adopted := true;
          }
        }
        if !adopted {
          InsertRowStep(inst, best, i, j);
        }
      }
      if !adopted {
        InsertRowDone(inst, best, i);
      }
    }
  }

  /** One descent from `initial`: each round runs the swap pass and then
      the insert pass on the current best, and the descent stops after a
      round in which neither pass adopted a candidate. */
  method Vns(inst: Instance, initial: seq<nat>) returns (best: seq<nat>, bestCost: Cost)
    requires inst.Valid() && IsPermutation(initial, inst.JobCount())
    ensures IsPermutation(best, inst.JobCount()) && inst.InRange(best)
    ensures bestCost == CostOf(inst, best)
    ensures LessEq(bestCost, CostOf(inst, initial))
    ensures LocalOptimum(inst, best)
  {
    var n := inst.JobCount();
    best := initial;
    var schedule;
    bestCost, schedule := Evaluate(inst, best);
    FeasibleCostBounded(inst, best);
    var improved := true;
    while improved
      invariant IsPermutation(best, n) && inst.InRange(best)
      invariant bestCost == CostOf(inst, best) && Bounded(inst, bestCost)
      invariant LessEq(bestCost, CostOf(inst, initial))
      invariant !improved ==> LocalOptimum(inst, best)
      decreases Measure(inst, bestCost) + (if improved then 1 else 0)
    {
      ghost var roundCost := bestCost;
      var swapAdopted, insertAdopted;
      best, bestCost, swapAdopted := SwapPass(inst, best, bestCost);
      best, bestCost, insertAdopted := InsertPass(inst, best, bestCost);
      improved := swapAdopted || insertAdopted;
      if improved {
        MeasureDecreases(inst, bestCost, roundCost);
      }
    }
  }
}
