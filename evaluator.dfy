/** The schedule evaluator: simulates a job sequence on the single machine.
    Each job waits for the setup from the previous job and for its own
    release date; a job that would finish after its deadline makes the
    whole sequence infeasible. */
module Evaluator {
  import opened Jobs

  /** One scheduled job: processed from `start` until `finish`. */
  datatype Entry = Entry(job: nat, start: nat, finish: nat)

  /** What `evaluate` returns: the makespan and the schedule, or the
      infinite sentinel and no schedule. */
  datatype Outcome = Outcome(cost: Cost, schedule: Option<seq<Entry>>)

  /** Every entry of `done` is a job of the instance. */
  predicate JobsOf(inst: Instance, done: seq<Entry>) {
    forall k :: 0 <= k < |done| ==> done[k].job < inst.JobCount()
  }

  /** The instant the machine can start `job` once `done` is processed:
      the previous finish plus the setup from the previous job (0 at first). */
  function ReadyTime(inst: Instance, done: seq<Entry>, job: nat): nat
    requires inst.Valid() && JobsOf(inst, done) && job < inst.JobCount()
  {
    if done == [] then 0
    else done[|done| - 1].finish + inst.setup[done[|done| - 1].job][job]
  }

  /** `job` placed after `done` as early as its release date allows. */
  function Place(inst: Instance, done: seq<Entry>, job: nat): (e: Entry)
    requires inst.Valid() && JobsOf(inst, done) && job < inst.JobCount()
    ensures e.job == job && e.finish == e.start + inst.processing[job]
    ensures e.start >= inst.release[job] && e.start >= ReadyTime(inst, done, job)
  {
    var start := Max(ReadyTime(inst, done, job), inst.release[job]);
    Entry(job, start, start + inst.processing[job])
  }

  /** Placing `s` job by job without looking at deadlines: the times the
      machine would run each job if none were late. */
  function Timing(inst: Instance, s: seq<nat>): (t: seq<Entry>)
    requires inst.Valid() && inst.InRange(s)
    ensures |t| == |s| && JobsOf(inst, t)
    ensures forall k :: 0 <= k < |s| ==> t[k].job == s[k]
    decreases |s|
  {
    if s == [] then []
    else
      var pre := Timing(inst, s[..|s| - 1]);
      pre + [Place(inst, pre, s[|s| - 1])]
  }

  /** Entry `k` of a timing runs late. */
  predicate Late(inst: Instance, t: seq<Entry>, k: nat)
    requires inst.Valid() && JobsOf(inst, t) && k < |t|
  {
    t[k].finish > inst.deadline[t[k].job]
  }

  predicate MeetsDeadlines(inst: Instance, t: seq<Entry>)
    requires inst.Valid() && JobsOf(inst, t)
  {
    forall k :: 0 <= k < |t| ==> !Late(inst, t, k)
  }

  /** The finish of the last entry, 0 for an empty schedule. */
  function Makespan(t: seq<Entry>): nat {
    if t == [] then 0 else t[|t| - 1].finish
  }

  /** The value `evaluate` computes for `s`. */
  function EvaluationOf(inst: Instance, s: seq<nat>): Outcome
    requires inst.Valid() && inst.InRange(s)
  {
    var t := Timing(inst, s);
    if MeetsDeadlines(inst, t) then Outcome(Fin(Makespan(t)), Some(t)) else Outcome(Inf, None)
  }

  function CostOf(inst: Instance, s: seq<nat>): Cost
    requires inst.Valid() && inst.InRange(s)
  {
    EvaluationOf(inst, s).cost
  }

  /** Walks the sequence once, keeping the machine-free instant `time` and
      the previous job `prev`, and returns at the first late job. */
  method Evaluate(inst: Instance, s: seq<nat>) returns (cost: Cost, schedule: Option<seq<Entry>>)
    requires inst.Valid() && inst.InRange(s)
    ensures Outcome(cost, schedule) == EvaluationOf(inst, s)
  {
    var time: nat := 0;
    var prev: Option<nat> := None;
    var done: seq<Entry> := [];
    for i := 0 to |s|
      invariant done == Timing(inst, s[..i])
      invariant MeetsDeadlines(inst, done)
      invariant time == Makespan(done)
      invariant prev == if i == 0 then None else Some(s[i - 1])
    {
      var job := s[i];
      assert job < inst.JobCount() && |inst.setup[job]| == inst.JobCount();
      if prev.Some? {
        time := time + inst.setup[prev.value][job];
      }
      var start := Max(time, inst.release[job]);
      EvaluateStep(inst, s, i, done, start);
      if start + inst.processing[job] > inst.deadline[job] {
        return Inf, None;
      }
      var finish := start + inst.processing[job];
      done := done + [Entry(job, start, finish)];
      time := finish;
      prev := Some(job);
    }
    assert s[..|s|] == s;
    return Fin(time), Some(done);
  }

  /** Timing is computed left to right: the timing of a prefix is the
      prefix of the timing. */
  lemma {:induction false} TimingPrefix(inst: Instance, s: seq<nat>, i: nat)
    requires inst.Valid() && inst.InRange(s) && i <= |s|
    ensures Timing(inst, s[..i]) == Timing(inst, s)[..i]
    decreases |s|
  {
    if i < |s| {
      var m := |s| - 1;
      assert s[..m][..i] == s[..i];
      TimingPrefix(inst, s[..m], i);
    } else {
      assert s[..i] == s;
    }
  }

  /** One turn of the loop of `evaluate`: job `i` starts at `start`; if it
      is late the whole sequence is infeasible, otherwise the jobs so far
      stay on time. */
  lemma EvaluateStep(inst: Instance, s: seq<nat>, i: nat, done: seq<Entry>, start: nat)
    requires inst.Valid() && inst.InRange(s) && i < |s|
    requires done == Timing(inst, s[..i]) && MeetsDeadlines(inst, done)
    requires start == Max(if i == 0 then 0 else Makespan(done) + inst.setup[s[i - 1]][s[i]], inst.release[s[i]])
    ensures var e := Entry(s[i], start, start + inst.processing[s[i]]);
      Timing(inst, s[..i + 1]) == done + [e] &&
      (e.finish > inst.deadline[s[i]] ==> !MeetsDeadlines(inst, Timing(inst, s))) &&
      (e.finish <= inst.deadline[s[i]] ==> MeetsDeadlines(inst, done + [e]))
  {
    var e := Entry(s[i], start, start + inst.processing[s[i]]);
    PlaceNext(inst, s, i, done, start);
    if e.finish > inst.deadline[s[i]] {
      LateStaysLate(inst, s, i);
    } else {
      OnTimeStep(inst, done, e);
    }
  }

  /** The start `evaluate` computes for job `i` is the one the timing gives it. */
  lemma PlaceNext(inst: Instance, s: seq<nat>, i: nat, done: seq<Entry>, start: nat)
    requires inst.Valid() && inst.InRange(s) && i < |s|
    requires done == Timing(inst, s[..i])
    requires start == Max(if i == 0 then 0 else Makespan(done) + inst.setup[s[i - 1]][s[i]], inst.release[s[i]])
    ensures Timing(inst, s[..i + 1]) == done + [Entry(s[i], start, start + inst.processing[s[i]])]
  {
    TimingStep(inst, s, i);
    if i > 0 {
      assert done[i - 1].job == s[..i][i - 1] == s[i - 1];
    }
  }

  /** One more job of `s` placed after the timing of the jobs before it. */
  lemma TimingStep(inst: Instance, s: seq<nat>, i: nat)
    requires inst.Valid() && inst.InRange(s) && i < |s|
    ensures Timing(inst, s[..i + 1]) == Timing(inst, s[..i]) + [Place(inst, Timing(inst, s[..i]), s[i])]
  {
    assert s[..i + 1][..i] == s[..i];
  }

  /** A late job in a prefix leaves the whole timing late. */
  lemma LateStaysLate(inst: Instance, s: seq<nat>, i: nat)
    requires inst.Valid() && inst.InRange(s) && i < |s|
    requires Late(inst, Timing(inst, s[..i + 1]), i)
    ensures !MeetsDeadlines(inst, Timing(inst, s))
  {
    TimingPrefix(inst, s, i + 1);
    assert Timing(inst, s)[i] == Timing(inst, s[..i + 1])[i];
    assert Late(inst, Timing(inst, s), i);
  }

  /** Appending an entry that is on time keeps a timing on time. */
  lemma OnTimeStep(inst: Instance, done: seq<Entry>, e: Entry)
    requires inst.Valid() && JobsOf(inst, done) && e.job < inst.JobCount()
    requires MeetsDeadlines(inst, done) && e.finish <= inst.deadline[e.job]
    ensures JobsOf(inst, done + [e]) && MeetsDeadlines(inst, done + [e])
  {
    var t := done + [e];
    forall k | 0 <= k < |t|
      ensures !Late(inst, t, k)
    {
      if k < |done| {
        assert t[k] == done[k] && !Late(inst, done, k);
      }
    }
  }

  /** `t` times the jobs of `s` in sequence order, each one starting as soon
      as both the machine (previous finish plus the setup between the two
      jobs) and its own release date allow, and running for its processing time. */
  predicate IsEarliestTiming(inst: Instance, s: seq<nat>, t: seq<Entry>)
    requires inst.Valid() && inst.InRange(s)
  {
    |t| == |s| &&
    (forall k :: 0 <= k < |t| ==> t[k].job == s[k] && t[k].finish == t[k].start + inst.processing[s[k]]) &&
    (|t| > 0 ==> t[0].start == inst.release[s[0]]) &&
    (forall k :: 0 < k < |t| ==>
      t[k].start == Max(t[k - 1].finish + inst.setup[s[k - 1]][s[k]], inst.release[s[k]]))
  }

  /** `t` is a schedule of `s` that the machine could follow: the jobs in
      sequence order, none before its release date, each one after the
      previous finish plus the setup between the two (idle time allowed). */
  predicate RespectsOrder(inst: Instance, s: seq<nat>, t: seq<Entry>)
    requires inst.Valid() && inst.InRange(s)
  {
    |t| == |s| &&
    (forall k :: 0 <= k < |t| ==>
      t[k].job == s[k] && t[k].finish == t[k].start + inst.processing[s[k]] &&
      t[k].start >= inst.release[s[k]]) &&
    (forall k :: 0 < k < |t| ==> t[k].start >= t[k - 1].finish + inst.setup[s[k - 1]][s[k]])
  }

  /** A schedule of `s` the machine could follow in which no job is late. */
  predicate IsFeasibleSchedule(inst: Instance, s: seq<nat>, t: seq<Entry>)
    requires inst.Valid() && inst.InRange(s)
  {
    RespectsOrder(inst, s, t) && JobsOf(inst, t) && MeetsDeadlines(inst, t)
  }

  /** The simulation computes exactly the earliest timing. */
  lemma {:induction false} TimingIsEarliest(inst: Instance, s: seq<nat>)
    requires inst.Valid() && inst.InRange(s)
    ensures IsEarliestTiming(inst, s, Timing(inst, s))
    decreases |s|
  {
    if s != [] {
      var m := |s| - 1;
      TimingIsEarliest(inst, s[..m]);
      TimingStep(inst, s, m);
      assert s[..m + 1] == s;
      EarliestExtend(inst, s, Timing(inst, s[..m]));
    }
  }

  /** Placing the last job after the earliest timing of the others gives
      the earliest timing of the whole sequence. */
  lemma EarliestExtend(inst: Instance, s: seq<nat>, pre: seq<Entry>)
    requires inst.Valid() && inst.InRange(s) && s != []
    requires IsEarliestTiming(inst, s[..|s| - 1], pre)
    ensures JobsOf(inst, pre)
    ensures IsEarliestTiming(inst, s, pre + [Place(inst, pre, s[|s| - 1])])
  {
    var m := |s| - 1;
    assert forall k :: 0 <= k < m ==> s[..m][k] == s[k];
    var t := pre + [Place(inst, pre, s[m])];
    forall k | 0 < k < |t|
      ensures t[k].start == Max(t[k - 1].finish + inst.setup[s[k - 1]][s[k]], inst.release[s[k]])
    {
      if k < m {
        assert t[k] == pre[k] && t[k - 1] == pre[k - 1];
      } else {
        assert t[k - 1] == pre[m - 1];
      }
    }
  }

  /** The earliest timing of a sequence is unique. */
  lemma EarliestTimingUnique(inst: Instance, s: seq<nat>, t1: seq<Entry>, t2: seq<Entry>)
    requires inst.Valid() && inst.InRange(s)
    requires IsEarliestTiming(inst, s, t1) && IsEarliestTiming(inst, s, t2)
    ensures t1 == t2
  {
    forall k | 0 <= k < |t1|
      ensures t1[k] == t2[k]
    {
      EarliestAgree(inst, s, t1, t2, k);
    }
  }

  lemma {:induction false} EarliestAgree(inst: Instance, s: seq<nat>, t1: seq<Entry>, t2: seq<Entry>, k: nat)
    requires inst.Valid() && inst.InRange(s)
    requires IsEarliestTiming(inst, s, t1) && IsEarliestTiming(inst, s, t2)
    requires k < |s|
    ensures t1[k] == t2[k]
    decreases k
  {
    if k > 0 {
      EarliestAgree(inst, s, t1, t2, k - 1);
    }
  }

  /** No schedule the machine could follow starts any job earlier than the
      simulation does. */
  lemma {:induction false} TimingIsLowerBound(inst: Instance, s: seq<nat>, t: seq<Entry>, k: nat)
    requires inst.Valid() && inst.InRange(s)
    requires RespectsOrder(inst, s, t) && k < |s|
    ensures Timing(inst, s)[k].start <= t[k].start
    ensures Timing(inst, s)[k].finish <= t[k].finish
    decreases k
  {
    TimingIsEarliest(inst, s);
    if k > 0 {
      TimingIsLowerBound(inst, s, t, k - 1);
    }
  }

  /** When `evaluate` returns a schedule, the cost is finite and is that
      schedule's makespan, and the schedule is the earliest timing of the
      sequence and one the machine can follow with every job on time. */
  lemma EvaluationIsFeasibleSchedule(inst: Instance, s: seq<nat>)
    requires inst.Valid() && inst.InRange(s)
    ensures EvaluationOf(inst, s).cost.Fin? <==> EvaluationOf(inst, s).schedule.Some?
    ensures EvaluationOf(inst, s).schedule.Some? ==>
      var t := EvaluationOf(inst, s).schedule.value;
      IsFeasibleSchedule(inst, s, t) && IsEarliestTiming(inst, s, t) &&
      EvaluationOf(inst, s).cost == Fin(Makespan(t))
  {
    TimingIsEarliest(inst, s);
    EarliestRespectsOrder(inst, s, Timing(inst, s));
  }

  /** The earliest timing is a schedule the machine could follow. */
  lemma EarliestRespectsOrder(inst: Instance, s: seq<nat>, t: seq<Entry>)
    requires inst.Valid() && inst.InRange(s)
    requires IsEarliestTiming(inst, s, t)
    ensures RespectsOrder(inst, s, t)
  {
    forall k | 0 <= k < |t|
      ensures t[k].start >= inst.release[s[k]]
    {
      if k > 0 {
        assert t[k].start == Max(t[k - 1].finish + inst.setup[s[k - 1]][s[k]], inst.release[s[k]]);
      }
    }
  }

  /** `evaluate` is determined by the earliest timing `t` of the sequence:
      every job of `t` on time gives its makespan and `t` itself, any late
      job gives the infinite sentinel and no schedule. */
  lemma EvaluationCharacterised(inst: Instance, s: seq<nat>, t: seq<Entry>)
    requires inst.Valid() && inst.InRange(s)
    requires IsEarliestTiming(inst, s, t)
    ensures (forall k :: 0 <= k < |t| ==> t[k].finish <= inst.deadline[s[k]]) ==>
      EvaluationOf(inst, s) == Outcome(Fin(if s == [] then 0 else t[|s| - 1].finish), Some(t))
    ensures (exists k :: 0 <= k < |t| && t[k].finish > inst.deadline[s[k]]) ==>
      EvaluationOf(inst, s) == Outcome(Inf, None)
  {
    TimingIsEarliest(inst, s);
    EarliestTimingUnique(inst, s, t, Timing(inst, s));
    if k :| 0 <= k < |t| && t[k].finish > inst.deadline[s[k]] {
      assert Late(inst, t, k);
    }
  }

  /** Any schedule the machine could follow with every job on time bounds
      the cost: the sequence is feasible and its makespan is no larger. */
  lemma ScheduleBoundsCost(inst: Instance, s: seq<nat>, t: seq<Entry>)
    requires inst.Valid() && inst.InRange(s)
    requires IsFeasibleSchedule(inst, s, t)
    ensures CostOf(inst, s).Fin? && CostOf(inst, s).value <= Makespan(t)
  {
    var e := Timing(inst, s);
    forall k | 0 <= k < |s|
      ensures !Late(inst, e, k)
    {
      TimingIsLowerBound(inst, s, t, k);
      assert !Late(inst, t, k);
    }
    if s != [] {
      TimingIsLowerBound(inst, s, t, |s| - 1);
    }
  }

  /** Infeasibility is exact: the cost is finite if and only if some
      schedule the machine could follow meets every deadline. */
  lemma FeasibleIffScheduleExists(inst: Instance, s: seq<nat>)
    requires inst.Valid() && inst.InRange(s)
    ensures CostOf(inst, s).Fin? <==> exists t :: IsFeasibleSchedule(inst, s, t)
  {
    if CostOf(inst, s).Fin? {
      EvaluationIsFeasibleSchedule(inst, s);
      assert IsFeasibleSchedule(inst, s, Timing(inst, s));
    }
    if t :| IsFeasibleSchedule(inst, s, t) {
      ScheduleBoundsCost(inst, s, t);
    }
  }

  /** An infeasible sequence has a first late job `k`: the jobs before it
      evaluate to a feasible schedule, and `k`, placed after them, finishes
      after its deadline. This is where `evaluate` stops. */
  lemma FirstLateJob(inst: Instance, s: seq<nat>) returns (k: nat)
    requires inst.Valid() && inst.InRange(s)
    requires CostOf(inst, s) == Inf
    ensures k < |s| && forall j :: 0 <= j < k ==> !Late(inst, Timing(inst, s), j)
    ensures EvaluationOf(inst, s[..k]).schedule == Some(Timing(inst, s)[..k])
    ensures Place(inst, Timing(inst, s)[..k], s[k]).finish > inst.deadline[s[k]]
  {
    var t := Timing(inst, s);
    assert |t| == |s| && JobsOf(inst, t);
    k := 0;
    while !Late(inst, t, k)
      invariant k < |t| && exists j :: k <= j < |t| && Late(inst, t, j)
      invariant forall j :: 0 <= j < k ==> !Late(inst, t, j)
      decreases |t| - k
    {
      k := k + 1;
    }
    assert s[k] < inst.JobCount() && t[k].job == s[k];
    TimingPrefix(inst, s, k);
    forall j | 0 <= j < k
      ensures !Late(inst, t[..k], j)
    {
      assert t[..k][j] == t[j] && !Late(inst, t, j);
    }
    assert MeetsDeadlines(inst, Timing(inst, s[..k]));
    TimingStep(inst, s, k);
    TimingPrefix(inst, s, k + 1);
    assert t[k] == Timing(inst, s[..k + 1])[k];
  }

  /** A feasible cost never exceeds the latest deadline. */
  lemma FeasibleCostBounded(inst: Instance, s: seq<nat>)
    requires inst.Valid() && inst.InRange(s)
    ensures CostOf(inst, s).Fin? ==> CostOf(inst, s).value <= MaxDeadline(inst)
  {
    if CostOf(inst, s).Fin? && s != [] {
      var t := Timing(inst, s);
      assert !Late(inst, t, |s| - 1);
    }
  }

  /** A late job cannot be repaired by appending more jobs. */
  lemma LateIsFinal(inst: Instance, s: seq<nat>, u: seq<nat>)
    requires inst.Valid() && inst.InRange(s + u)
    ensures inst.InRange(s)
    ensures CostOf(inst, s) == Inf ==> CostOf(inst, s + u) == Inf
  {
    assert (s + u)[..|s|] == s;
    assert forall k :: 0 <= k < |s| ==> s[k] == (s + u)[k];
    TimingPrefix(inst, s + u, |s|);
    if CostOf(inst, s) == Inf {
      var t := Timing(inst, s);
      var k :| 0 <= k < |t| && Late(inst, t, k);
      assert Timing(inst, s + u)[k] == t[k];
      assert Late(inst, Timing(inst, s + u), k);
    }
  }

  /** A single job starts at its release date; it is feasible exactly when
      it then finishes by its deadline. */
  lemma SingleJob(inst: Instance, j: nat)
    requires inst.Valid() && j < inst.JobCount()
    ensures CostOf(inst, [j]) ==
      if inst.release[j] + inst.processing[j] <= inst.deadline[j]
      then Fin(inst.release[j] + inst.processing[j]) else Inf
  {
    assert [j][..0] == [];
    var t := Timing(inst, [j]);
    assert t == [Place(inst, [], j)];
    assert !Late(inst, t, 0) <==> inst.release[j] + inst.processing[j] <= inst.deadline[j];
  }

  /** Three jobs with setups 0 -> 1 of 1 and 1 -> 2 of 2: the sequence
      0, 1, 2 runs 0 in [0, 2], 1 in [3, 6] and 2 in [8, 9]. */
  lemma WorkedExample()
    ensures
      var inst := Instance([[0, 1, 0], [0, 0, 2], [0, 0, 0]], [2, 3, 1], [0, 0, 0], [10, 10, 10]);
      inst.Valid() && inst.InRange([0, 1, 2]) &&
      EvaluationOf(inst, [0, 1, 2]) ==
        Outcome(Fin(9), Some([Entry(0, 0, 2), Entry(1, 3, 6), Entry(2, 8, 9)]))
  {
    var inst := Instance([[0, 1, 0], [0, 0, 2], [0, 0, 0]], [2, 3, 1], [0, 0, 0], [10, 10, 10]);
    var s: seq<nat> := [0, 1, 2];
    var t := [Entry(0, 0, 2), Entry(1, 3, 6), Entry(2, 8, 9)];
    assert inst.Valid() && inst.InRange(s);
    assert inst.setup[s[0]][s[1]] == 1 && inst.setup[s[1]][s[2]] == 2;
    assert t[1].start == Max(t[0].finish + inst.setup[s[0]][s[1]], inst.release[s[1]]);
    assert t[2].start == Max(t[1].finish + inst.setup[s[1]][s[2]], inst.release[s[2]]);
    assert IsEarliestTiming(inst, s, t);
    EvaluationCharacterised(inst, [0, 1, 2], t);
  }
}
