# Single-machine job sequencing by VNS and ILS — a Dafny model

This project models `Exercicio1.py`, a heuristic for sequencing jobs on one
machine. Each job has a processing time, a release date and a deadline. A
setup time, which depends on the pair of jobs, separates consecutive jobs.
The cost of a job sequence is its makespan, or infinity when some job would
finish after its deadline.

- `jobs.dfy` (module `Jobs`) holds the instance (setup matrix, processing
  times, release dates, deadlines), the cost scale `Inf | Fin(n)` with the
  `<` it is compared by, and job permutations.
- `evaluator.dfy` (module `Evaluator`) holds `evaluate` as a loop method
  with an early return. That method is proved equal to a specification
  function `EvaluationOf`, which is built on `Timing`, the earliest timing
  of a sequence. Beside it are lemmas tying `Timing` to a declarative
  characterisation (unique, and a lower bound for every schedule the
  machine could follow). Further lemmas cover the feasible schedule that
  is returned, the first late job, the cost bound and a worked example.
- `neighbourhood.dfy` (module `Neighbourhood`) holds the swap and insert
  operators, with their inverse and symmetry lemmas.
- `local_search.dfy` (module `LocalSearch`) holds the first-improvement
  variable neighbourhood descent (`vns`). Its two passes are separate
  methods. Its termination measure maps `Inf` to one more than the latest
  deadline, and a finite cost to its value.
- `iterated_local_search.dfy` (module `IteratedLocalSearch`) holds
  `perturb`, one round of the outer loop, and `ils`.

The random source is an input. `random.shuffle` becomes a given
permutation `shuffled`. The pairs that `random.sample` draws become a given
stream `draw: nat -> (nat, nat)` of pairs of distinct positions. `Ils`
consumes the stream in order: `strength` pairs per round.

Python's lists become Dafny sequences. The operators copy their input
before changing it, so the caller's list is never changed, and a value
models that exactly. `math.inf` becomes the `Inf` cost. Python's `<`
between costs becomes `Less`, under which `Inf` is below nothing, not even
`Inf`.

A single job costs its release date plus its processing time, not its
processing time alone, because it cannot start before it is released
(`Evaluator.SingleJob`).

## Model

| member | source | states |
|---|---|---|
| Evaluator.Evaluate | Exercicio1.py:37-57 | the loop (setup after the previous job, start at the later of machine-ready and release, stop with `inf, None` at the first late job) returns exactly `EvaluationOf`, the outcome of the earliest timing |
| Evaluator.ReadyTime | Exercicio1.py:43-44 | the machine is ready at 0 before the first job (no setup), and otherwise at the previous finish plus `setup[prev][job]` |
| Evaluator.Place | Exercicio1.py:43-51 | a placed job runs for its processing time, and starts no earlier than its release date or than the previous finish plus the setup |
| Evaluator.Timing | Exercicio1.py:42-55 | one entry per job, in sequence order, each naming a job of the instance |
| Evaluator.TimingPrefix | Exercicio1.py:42-55 | the timing of a prefix is the prefix of the timing (the schedule is built left to right) |
| Evaluator.TimingIsEarliest | Exercicio1.py:43-54 | the computed timing starts the first job at its release date and every later job at exactly max(previous finish + setup, release) |
| Evaluator.EarliestTimingUnique | Exercicio1.py:43-54 | those recurrences determine the timing: two timings satisfying them are equal |
| Evaluator.TimingIsLowerBound | Exercicio1.py:43-54 | no schedule keeping the order, the release dates and the setups starts or finishes any job earlier than the computed timing |
| Evaluator.EarliestRespectsOrder | Exercicio1.py:43-46 | the earliest timing respects release dates and the setup after each job |
| Evaluator.EvaluationIsFeasibleSchedule | Exercicio1.py:48-57 | the cost is finite exactly when a schedule is returned; that schedule has one entry per job in order, finish = start + processing, start ≥ release, finish ≤ deadline, each start exactly max(previous finish + setup, release), and the cost is its last finish (0 when empty) |
| Evaluator.EvaluationCharacterised | Exercicio1.py:48-57 | given the earliest timing: if every job is on time, the outcome is the last finish and that timing; if any job is late, the outcome is `inf, None` |
| Evaluator.FirstLateJob | Exercicio1.py:42-49 | an infeasible sequence has a first late job; every job before it is on time, and the prefix before it evaluates to the prefix of the timing |
| Evaluator.ScheduleBoundsCost | Exercicio1.py:46-57 | any schedule that respects order, releases, setups and deadlines shows the sequence is feasible, with cost no larger than its makespan |
| Evaluator.FeasibleIffScheduleExists | Exercicio1.py:48-49 | the cost is finite if and only if some schedule the machine could follow meets every deadline |
| Evaluator.FeasibleCostBounded | Exercicio1.py:48-57 | a finite cost is at most the latest deadline |
| Evaluator.LateIsFinal | Exercicio1.py:48-49 | an infeasible sequence stays infeasible whatever is appended |
| Evaluator.SingleJob | Exercicio1.py:46-57 | a single job costs release + processing when that meets its deadline, else `inf` |
| Evaluator.WorkedExample | Exercicio1.py:37-57 | three jobs with setups 1 and 2 and processing 2, 3, 1 schedule as (0, 0, 2), (1, 3, 6), (2, 8, 9) with cost 9 |
| Jobs.Less | Exercicio1.py:93-145 | the `<` between costs in the swap pass (line 93), the insert pass (line 104) and the acceptance test (line 145): a finite cost is below `inf` and below any larger finite cost; `inf` is below nothing, not even `inf` |
| Jobs.CostOrder | Exercicio1.py:145 | that comparison is irreflexive, asymmetric, transitive and total on distinct costs, with `inf` on top |
| Jobs.MaxOf | Exercicio1.py:48-57 | the maximum of the deadlines bounds every deadline and is one of them |
| Jobs.Identity | Exercicio1.py:129 | `list(range(n))` has length n and holds k at position k |
| Jobs.PermutationLength | Exercicio1.py:129-130 | a permutation of the n jobs has length n |
| Jobs.PermutationOfReordering | Exercicio1.py:63-73 | a sequence with the same multiset as a permutation is a permutation |
| Neighbourhood.Swap | Exercicio1.py:63-66 | same length, positions i and j exchanged, every other position unchanged, same multiset |
| Neighbourhood.RemoveAt | Exercicio1.py:71 | `pop(i)` shortens by one, shifts later elements left, and removes exactly `seq[i]` from the multiset |
| Neighbourhood.InsertAt | Exercicio1.py:72 | `insert(j, x)` lengthens by one, puts x at j, shifts later elements right, and adds exactly x to the multiset |
| Neighbourhood.Insert | Exercicio1.py:69-73 | same length, `seq[i]` at position j, the jobs between shifted by one towards i, those outside unchanged, same multiset |
| Neighbourhood.SwapUndo | Exercicio1.py:63-66 | swapping the same positions twice restores the sequence |
| Neighbourhood.SwapSymmetric | Exercicio1.py:63-66 | swap(i, j) equals swap(j, i) |
| Neighbourhood.InsertUndo | Exercicio1.py:69-73 | moving the job back from j to i restores the sequence |
| Neighbourhood.InsertInPlace | Exercicio1.py:69-73 | insert(i, i) changes nothing, so skipping i == j loses no candidate |
| Neighbourhood.AdjacentInsertIsSwap | Exercicio1.py:63-73 | moving a job one place either way equals the swap of the two neighbours |
| LocalSearch.MeasureDecreases | Exercicio1.py:84-106 | a strict improvement to a reachable cost lowers the termination measure |
| LocalSearch.InsertRowStep | Exercicio1.py:99-106 | a failed move of the job at i to j extends the moves of that job known not to improve |
| LocalSearch.SwapRowDone | Exercicio1.py:88-95 | a finished row of failed swaps extends the rows known not to improve |
| LocalSearch.InsertRowDone | Exercicio1.py:98-106 | a finished row of failed moves extends the rows known not to improve |
| LocalSearch.SwapPass | Exercicio1.py:87-95 | the swap loop keeps a permutation whose cost is `best_cost`, never raises the cost, and adopts only a strictly cheaper candidate; if it adopts none, the sequence is unchanged and no swap of it is cheaper |
| LocalSearch.InsertPass | Exercicio1.py:97-106 | the insert loop keeps a permutation whose cost is `best_cost`, never raises the cost, and adopts only a strictly cheaper candidate; if it adopts none, the sequence is unchanged and no move of a job is cheaper |
| LocalSearch.Vns | Exercicio1.py:79-108 | terminates; returns a permutation with `best_cost` equal to its cost and not above the initial cost; no swap (i < j) and no insert (i ≠ j) of it is strictly cheaper |
| IteratedLocalSearch.SwapAll | Exercicio1.py:119-121 | applying a list of swaps keeps the length and the multiset |
| IteratedLocalSearch.Perturb | Exercicio1.py:115-123 | the copy after `strength` tuple swaps is `SwapAll` of the draws, with the same length and multiset |
| IteratedLocalSearch.Round | Exercicio1.py:136-150 | strength = iter + 1; the result is kept only when its cost is strictly lower, which resets the counter to 0 and yields a local optimum; otherwise the incumbent and its cost are kept and the counter goes up by one; the cost never rises |
| IteratedLocalSearch.Ils | Exercicio1.py:126-152 | terminates; returns a permutation with `f_best` equal to its cost, not above the cost of the shuffled start, and locally optimal for both neighbourhoods |

## Left out

- `plot_gantt`, the `time.perf_counter` timing and all printing: these are chart rendering and console output.
- The `random` module: the shuffled start and the drawn position pairs are inputs of `Ils`, and its requires says the pairs are of distinct in-range positions.
- Ils: with fewer than two jobs `random.sample` raises an error in the source; the model instead requires valid draws whenever `maxIter > 0`, so that error path is not modelled.
- Ils: the cost of the first descent is not exposed; the contract states only the bound against the shuffled start, which that cost satisfies too.
- Ils: the stagnation counter is local, so its value `maxIter` at exit (the negation of the loop guard) appears in no contract; its updates are stated by `Round`.
- Ils: the module-level `n` of the source is `inst.JobCount()`, and the source's global instance tables are the `inst` parameter.
- Swap and Insert: the source mutates a fresh copy in place; since the copy is never shared, the model computes the new sequence as a value and shows that the input is unchanged by construction.
- Instance data are naturals, because every table in the source holds integers; real-valued data are not modelled.
- `Exercicio2.py` is not part of this model: it builds a mixed-integer program and hands it to an external solver.
- `Exercicio3.py` is not part of this model: it is a discrete-event simulation driven by generator processes and floating-point random draws.
