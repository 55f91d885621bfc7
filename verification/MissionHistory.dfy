// Where everything in a mission comes from: after any run, each field is what the last accepted mutation that
// sets it has put there, and as it was at the start if there is none.
module MissionHistory {
  import opened Wrappers
  import opened MissionTypes
  import opened Mutator
  import opened MissionRuns

  // ----- what happens in a run -----

  /** Mutation k of the run is accepted. */
  ghost predicate AcceptedAt(s: MissionState, muts: seq<Mutation>, k: nat) {
    k < |muts| && Admissible(Run(s, muts[..k]), muts[k])
  }

  /** Task i is the first of its id, and mutation k of the run, accepted, names it. */
  ghost predicate ActsOn(s: MissionState, muts: seq<Mutation>, k: nat, i: nat) {
    && AcceptedAt(s, muts, k) && !muts[k].Synthesize? && !muts[k].UnknownKind?
    && i < |s.tasks| && s.tasks[i].id == muts[k].taskId
    && forall j :: 0 <= j < i ==> s.tasks[j].id != muts[k].taskId
  }

  /** What a mutation can set. */
  datatype Field =
    | StepEntry(step: string)
    | TaskStatus(task: nat)
    | TaskResult(task: nat)
    | TaskEvidence(task: nat)
    | TaskReason(task: nat)
    | SynthesisOutput

  /** Mutation k of the run sets this field. */
  ghost predicate Sets(s: MissionState, muts: seq<Mutation>, k: nat, f: Field) {
    AcceptedAt(s, muts, k) &&
    match f
    case StepEntry(step) =>
      muts[k].CompleteTask? && muts[k].stepId == step && step != "" && muts[k].stepResult.Some?
    case TaskStatus(i) => ActsOn(s, muts, k, i)
    case TaskResult(i) =>
      ActsOn(s, muts, k, i) && muts[k].CompleteTask? && muts[k].stepId != "" && muts[k].stepResult.Some?
    case TaskEvidence(i) => ActsOn(s, muts, k, i) && muts[k].CompleteTask? && muts[k].evidence.Some?
    case TaskReason(i) => ActsOn(s, muts, k, i) && muts[k].BlockTask?
    case SynthesisOutput => muts[k].Synthesize?
  }

  /** The last mutation of the run that sets this field. */
  ghost function LastSet(s: MissionState, muts: seq<Mutation>, f: Field): (k: Option<nat>)
    ensures k.Some? ==> k.value < |muts|
  {
    if muts == [] then None
    else if Sets(s, muts, |muts| - 1, f) then Some(|muts| - 1)
    else LastSet(s, muts[..|muts| - 1], f)
  }

  lemma SetsInFront(s: MissionState, muts: seq<Mutation>, n: nat, k: nat, f: Field)
    requires k < n <= |muts|
    ensures Sets(s, muts, k, f) <==> Sets(s, muts[..n], k, f)
  {
    assert muts[..n][..k] == muts[..k];
  }

  /** It sets the field and nothing behind it does; and if there is none, nothing does. */
  lemma {:induction false} LastSetExactly(s: MissionState, muts: seq<Mutation>, f: Field)
    ensures LastSet(s, muts, f).Some? ==> Sets(s, muts, LastSet(s, muts, f).value, f)
    ensures forall j: nat :: j < |muts| && Sets(s, muts, j, f) ==>
              LastSet(s, muts, f).Some? && j <= LastSet(s, muts, f).value
  {
    if muts != [] {
      var n := |muts| - 1;
      LastSetExactly(s, muts[..n], f);
      if LastSet(s, muts[..n], f).Some? { SetsInFront(s, muts, n, LastSet(s, muts[..n], f).value, f); }
      forall j: nat | j < |muts| && Sets(s, muts, j, f)
        ensures LastSet(s, muts, f).Some? && j <= LastSet(s, muts, f).value
      {
        if j < n { SetsInFront(s, muts, n, j, f); }
      }
    }
  }

  // ----- step results -----

  ghost predicate StepAsSet(s: MissionState, muts: seq<Mutation>, step: string) {
    var now := Run(s, muts).stepResults;
    match LastSet(s, muts, StepEntry(step))
    case None => (step in now <==> step in s.stepResults) && (step in now ==> now[step] == s.stepResults[step])
    case Some(k) =>
      && muts[k].CompleteTask? && muts[k].stepResult.Some? && step in now
      && now[step].rows == muts[k].stepResult.value.rows && now[step].schema == muts[k].stepResult.value.schema
      && now[step].fromTask == muts[k].taskId
  }

  /** After any run a step id holds the result of the last accepted completion that carried it, stamped with that
      task's id; with none, what it held before. */
  lemma {:induction false} StepHistory(s: MissionState, muts: seq<Mutation>, step: string)
    ensures StepAsSet(s, muts, step)
  {
    if muts != [] {
      var n := |muts| - 1;
      StepHistory(s, muts[..n], step);
    }
  }

  /** So a step id is registered if and only if it was at the start, or some accepted completion carried it. */
  lemma RegisteredExactly(s: MissionState, muts: seq<Mutation>, step: string)
    ensures step in Run(s, muts).stepResults <==>
              step in s.stepResults || exists k: nat :: k < |muts| && Sets(s, muts, k, StepEntry(step))
  {
    StepHistory(s, muts, step);
    LastSetExactly(s, muts, StepEntry(step));
    StartsRegistered(s, muts, step);
  }

  lemma {:induction false} StartsRegistered(s: MissionState, muts: seq<Mutation>, step: string)
    ensures step in s.stepResults ==> step in Run(s, muts).stepResults
  {
    if muts != [] { StartsRegistered(s, muts[..|muts| - 1], step); }
  }

  /** And never disappears. */
  lemma {:induction false} RegisteredForever(s: MissionState, muts: seq<Mutation>, k: nat, step: string)
    requires k <= |muts| && step in Run(s, muts[..k]).stepResults
    ensures step in Run(s, muts).stepResults
    decreases |muts|
  {
    var n := |muts| - 1;
    if k == |muts| {
      assert muts[..k] == muts;
    } else {
      assert muts[..n][..k] == muts[..k];
      RegisteredForever(s, muts[..n], k, step);
    }
  }

  // ----- tasks -----

  lemma NextHits(s: MissionState, mut: Mutation, i: nat)
    requires i < |s.tasks|
    ensures |Next(s, mut).tasks| == |s.tasks|
    ensures !(Admissible(s, mut) && IsTaskScoped(mut) && FindTask(s.tasks, mut.taskId) == Some(i)) ==>
              Next(s, mut).tasks[i] == s.tasks[i]
  {
  }

  lemma HitsExactly(s: MissionState, muts: seq<Mutation>, i: nat)
    requires muts != [] && i < |s.tasks|
    ensures var n := |muts| - 1;
            var before := Run(s, muts[..n]);
            ActsOn(s, muts, n, i) <==>
              Admissible(before, muts[n]) && IsTaskScoped(muts[n]) && FindTask(before.tasks, muts[n].taskId) == Some(i)
  {
    var n := |muts| - 1;
    RunShape(s, muts[..n]);
    if IsTaskScoped(muts[n]) { FindTaskByShape(s.tasks, Run(s, muts[..n]).tasks, muts[n].taskId); }
  }

  /** The status a mutation gives its task. */
  ghost predicate GivesStatus(mut: Mutation, status: MissionTypes.TaskStatus) {
    match mut
    case StartTask(_) => status == Active
    case CompleteTask(_, _, _, _) => status == Passing
    case BlockTask(_, _) => status == Blocked
    case RetryTask(_) => status == PendingRetry
    case _ => false
  }

  ghost predicate StatusAsSet(s: MissionState, muts: seq<Mutation>, i: nat)
    requires i < |s.tasks| && |Run(s, muts).tasks| == |s.tasks|
  {
    var now := Run(s, muts).tasks[i];
    match LastSet(s, muts, TaskStatus(i))
    case None => now.status == s.tasks[i].status
    case Some(k) => GivesStatus(muts[k], now.status)
  }

  ghost predicate ResultAsSet(s: MissionState, muts: seq<Mutation>, i: nat)
    requires i < |s.tasks| && |Run(s, muts).tasks| == |s.tasks|
  {
    var now := Run(s, muts).tasks[i];
    match LastSet(s, muts, TaskResult(i))
    case None => now.resultRef == s.tasks[i].resultRef
    case Some(k) => muts[k].CompleteTask? && now.resultRef == muts[k].stepId
  }

  ghost predicate EvidenceAsSet(s: MissionState, muts: seq<Mutation>, i: nat)
    requires i < |s.tasks| && |Run(s, muts).tasks| == |s.tasks|
  {
    var now := Run(s, muts).tasks[i];
    match LastSet(s, muts, TaskEvidence(i))
    case None => now.evidence == s.tasks[i].evidence
    case Some(k) => muts[k].CompleteTask? && now.evidence == muts[k].evidence && now.evidence.Some?
  }

  ghost predicate ReasonAsSet(s: MissionState, muts: seq<Mutation>, i: nat)
    requires i < |s.tasks| && |Run(s, muts).tasks| == |s.tasks|
  {
    var now := Run(s, muts).tasks[i];
    match LastSet(s, muts, TaskReason(i))
    case None => now.blockedReason == s.tasks[i].blockedReason
    case Some(k) => muts[k].BlockTask? && now.blockedReason == muts[k].blocked && now.blockedReason.Some?
  }

  ghost predicate SynthesisAsSet(s: MissionState, muts: seq<Mutation>) {
    var now := Run(s, muts).synthesis;
    && now.template == s.synthesis.template && now.caveats == s.synthesis.caveats
    && match LastSet(s, muts, SynthesisOutput)
       case None => now.output == s.synthesis.output
       case Some(k) => muts[k].Synthesize? && now.output == muts[k].output
  }

  /** How many retries of task i the run accepts. */
  ghost function Retries(s: MissionState, muts: seq<Mutation>, i: nat): nat {
    if muts == [] then 0
    else
      var n := |muts| - 1;
      Retries(s, muts[..n], i) + (if ActsOn(s, muts, n, i) && muts[n].RetryTask? then 1 else 0)
  }

  /** What no mutation changes. */
  ghost predicate SameTask(a: Task, b: Task) {
    && a.id == b.id && a.kind == b.kind && a.behavior == b.behavior && a.verification == b.verification
    && a.covers == b.covers && a.dependsOn == b.dependsOn
  }

  lemma {:induction false} StatusHistory(s: MissionState, muts: seq<Mutation>, i: nat)
    requires i < |s.tasks|
    ensures |Run(s, muts).tasks| == |s.tasks| && StatusAsSet(s, muts, i)
  {
    if muts != [] {
      var n := |muts| - 1;
      StatusHistory(s, muts[..n], i);
      HitsExactly(s, muts, i);
      NextHits(Run(s, muts[..n]), muts[n], i);
    }
  }

  lemma {:induction false} ResultHistory(s: MissionState, muts: seq<Mutation>, i: nat)
    requires i < |s.tasks|
    ensures |Run(s, muts).tasks| == |s.tasks| && ResultAsSet(s, muts, i)
  {
    if muts != [] {
      var n := |muts| - 1;
      ResultHistory(s, muts[..n], i);
      HitsExactly(s, muts, i);
      NextHits(Run(s, muts[..n]), muts[n], i);
    }
  }

  lemma {:induction false} EvidenceHistory(s: MissionState, muts: seq<Mutation>, i: nat)
    requires i < |s.tasks|
    ensures |Run(s, muts).tasks| == |s.tasks| && EvidenceAsSet(s, muts, i)
  {
    if muts != [] {
      var n := |muts| - 1;
      EvidenceHistory(s, muts[..n], i);
      HitsExactly(s, muts, i);
      NextHits(Run(s, muts[..n]), muts[n], i);
    }
  }

  lemma {:induction false} ReasonHistory(s: MissionState, muts: seq<Mutation>, i: nat)
    requires i < |s.tasks|
    ensures |Run(s, muts).tasks| == |s.tasks| && ReasonAsSet(s, muts, i)
  {
    if muts != [] {
      var n := |muts| - 1;
      ReasonHistory(s, muts[..n], i);
      HitsExactly(s, muts, i);
      NextHits(Run(s, muts[..n]), muts[n], i);
    }
  }

  lemma {:induction false} BudgetHistory(s: MissionState, muts: seq<Mutation>, i: nat)
    requires i < |s.tasks|
    ensures |Run(s, muts).tasks| == |s.tasks|
    ensures Run(s, muts).tasks[i].retryBudget == s.tasks[i].retryBudget - Retries(s, muts, i)
    ensures SameTask(s.tasks[i], Run(s, muts).tasks[i])
  {
    if muts != [] {
      var n := |muts| - 1;
      BudgetHistory(s, muts[..n], i);
      HitsExactly(s, muts, i);
      NextHits(Run(s, muts[..n]), muts[n], i);
    }
  }

  /** After any run every field of a task is what the last accepted mutation that sets it has put there, its budget
      is down by the accepted retries, and the rest is as it was. */
  lemma TaskHistory(s: MissionState, muts: seq<Mutation>, i: nat)
    requires i < |s.tasks|
    ensures |Run(s, muts).tasks| == |s.tasks|
    ensures StatusAsSet(s, muts, i) && ResultAsSet(s, muts, i) && EvidenceAsSet(s, muts, i) && ReasonAsSet(s, muts, i)
    ensures Run(s, muts).tasks[i].retryBudget == s.tasks[i].retryBudget - Retries(s, muts, i)
    ensures SameTask(s.tasks[i], Run(s, muts).tasks[i])
  {
    StatusHistory(s, muts, i);
    ResultHistory(s, muts, i);
    EvidenceHistory(s, muts, i);
    ReasonHistory(s, muts, i);
    BudgetHistory(s, muts, i);
  }

  /** The synthesis holds the last output that was accepted. */
  lemma {:induction false} SynthesisHistory(s: MissionState, muts: seq<Mutation>)
    ensures SynthesisAsSet(s, muts)
  {
    if muts != [] {
      SynthesisHistory(s, muts[..|muts| - 1]);
    }
  }

  // ----- when a mutation is accepted -----

  /** Task i is the one an id stands for. */
  ghost predicate FirstOf(tasks: seq<Task>, id: string, i: nat) {
    i < |tasks| && tasks[i].id == id && forall j :: 0 <= j < i ==> tasks[j].id != id
  }

  /** Exact, kind by kind. */
  lemma AcceptedExactly(s: MissionState, mut: Mutation)
    ensures Admissible(s, mut) <==>
      match mut
      case StartTask(id) =>
        && (exists i: nat :: FirstOf(s.tasks, id, i) && (s.tasks[i].status == Pending || s.tasks[i].status == PendingRetry))
        && forall j :: 0 <= j < |s.tasks| && s.tasks[j].id != id ==> s.tasks[j].status != Active
      case CompleteTask(id, _, _, _) => exists i: nat :: FirstOf(s.tasks, id, i) && s.tasks[i].status == Active
      case BlockTask(id, reason) => reason.Some? && exists i: nat :: FirstOf(s.tasks, id, i) && s.tasks[i].status == Active
      case RetryTask(id) =>
        exists i: nat :: FirstOf(s.tasks, id, i) && s.tasks[i].status == Active && s.tasks[i].retryBudget > 0
      case Synthesize(_) => true
      case UnknownKind(_) => false
  {
    if IsTaskScoped(mut) {
      var found := FindTask(s.tasks, mut.taskId);
      if found.Some? {
        assert FirstOf(s.tasks, mut.taskId, found.value);
        forall i: nat | FirstOf(s.tasks, mut.taskId, i) ensures i == found.value {
        }
      }
    }
  }
}
