/** The problem instance of the single-machine sequencing heuristic: jobs
    with processing times, release dates and deadlines, and a matrix of
    sequence-dependent setup times; plus the cost scale the search compares. */
module Jobs {

  datatype Option<T> = None | Some(value: T)

  /** A makespan, or the infinite sentinel of an infeasible sequence. */
  datatype Cost = Inf | Fin(value: nat)

  /** The `<` the search applies to costs: every finite cost is below the
      sentinel, and the sentinel is below nothing (not even itself). */
  predicate Less(a: Cost, b: Cost) {
    match a
    case Inf => false
    case Fin(x) => b.Inf? || x < b.value
  }

  /** The comparison is a strict total order on costs with the sentinel on
      top: irreflexive, asymmetric, transitive, and any two different costs
      are comparable. */
  lemma CostOrder(a: Cost, b: Cost, c: Cost)
    ensures !Less(a, a) && !Less(Inf, a)
    ensures a.Fin? ==> Less(a, Inf)
    ensures a.Fin? && b.Fin? ==> (Less(a, b) <==> a.value < b.value)
    ensures Less(a, b) ==> !Less(b, a)
    ensures Less(a, b) && Less(b, c) ==> Less(a, c)
    ensures a != b ==> Less(a, b) || Less(b, a)
  {
  }

  /** `a` is no worse than `b`. */
  predicate LessEq(a: Cost, b: Cost) {
    a == b || Less(a, b)
  }

  /** Jobs are numbered 0 .. JobCount() - 1; every table is indexed by job. */
  datatype Instance = Instance(
    setup: seq<seq<nat>>,
    processing: seq<nat>,
    release: seq<nat>,
    deadline: seq<nat>)
  {
    function JobCount(): nat { |processing| }

    /** All tables describe the same jobs, and the setup table is n by n. */
    predicate Valid() {
      |release| == |processing| && |deadline| == |processing| && |setup| == |processing| &&
      forall i :: 0 <= i < |setup| ==> |setup[i]| == |processing|
    }

    /** Every job named in `s` is a job of this instance. */
    predicate InRange(s: seq<nat>) {
      forall k :: 0 <= k < |s| ==> s[k] < |processing|
    }
  }

  function Max(a: nat, b: nat): nat { if a < b then b else a }

  /** The largest element of `xs` (0 for none): an upper bound of every element. */
  function MaxOf(xs: seq<nat>): (m: nat)
    ensures forall k :: 0 <= k < |xs| ==> xs[k] <= m
    ensures xs == [] || m in xs
  {
    if xs == [] then 0 else Max(xs[0], MaxOf(xs[1..]))
  }

  /** The latest deadline of the instance. */
  function MaxDeadline(inst: Instance): nat {
    MaxOf(inst.deadline)
  }

  /** The list 0, 1, ..., n - 1 that the search shuffles for its start. */
  function Identity(n: nat): (r: seq<nat>)
    ensures |r| == n
    ensures forall k :: 0 <= k < n ==> r[k] == k
  {
    if n == 0 then [] else Identity(n - 1) + [n - 1]
  }

  /** `s` lists every job 0 .. n - 1 exactly once (the bound on the
      entries follows from the multiset; it is spelled out for callers). */
  predicate IsPermutation(s: seq<nat>, n: nat) {
    (forall k :: 0 <= k < |s| ==> s[k] < n) && multiset(s) == multiset(Identity(n))
  }

  /** A permutation of the jobs has one position per job. */
  lemma PermutationLength(s: seq<nat>, n: nat)
    requires IsPermutation(s, n)
    ensures |s| == n
  {
    assert |s| == |multiset(s)| == |multiset(Identity(n))| == n;
  }

  /** Reordering a permutation gives a permutation. */
  lemma PermutationOfReordering(s: seq<nat>, r: seq<nat>, n: nat)
    requires IsPermutation(s, n) && multiset(r) == multiset(s)
    ensures IsPermutation(r, n)
  {
    forall k | 0 <= k < |r|
      ensures r[k] < n
    {
      assert r[k] in multiset(s);
      var i :| 0 <= i < |s| && s[i] == r[k];
    }
  }
}
