// The mission object and the only way to change it (pkg/mission/mutator.go).
module Mutator {
  import opened Wrappers
  import opened MissionTypes
  import opened StateMachine

  datatype Mutation =
    | StartTask(taskId: string)
    | CompleteTask(taskId: string, stepId: string, stepResult: Option<StepResult>, evidence: Option<Evidence>)
    | BlockTask(taskId: string, blocked: Option<BlockedReason>)
    | RetryTask(taskId: string)
    | Synthesize(output: string)
    | UnknownKind(kind: string)

  datatype MutationError =
    | WipViolated(activeId: string)
    | TaskNotFound(id: string)
    | IllegalTransition(cause: InvalidTransition)
    | MissingBlockedReason
    | NoRetryBudget(id: string)
    | UnknownMutation(kind: string)

  // ----- what a mutation means -----

  /** The status a task-scoped mutation asks its task to move to. */
  function TargetStatus(mut: Mutation): TaskStatus
    requires IsTaskScoped(mut)
  {
    match mut
    case StartTask(_) => Active
    case CompleteTask(_, _, _, _) => Passing
    case BlockTask(_, _) => Blocked
    case RetryTask(_) => PendingRetry
  }

  predicate IsTaskScoped(mut: Mutation) {
    !mut.Synthesize? && !mut.UnknownKind?
  }

  /** An active task that stands in the way of starting this id. */
  ghost predicate OtherActive(tasks: seq<Task>, id: string) {
    exists i :: 0 <= i < |tasks| && tasks[i].status.Active? && tasks[i].id != id
  }

  /** A mutation is admissible when its own evidence is there and the task it names may take the step. */
  ghost predicate Admissible(s: MissionState, mut: Mutation) {
    if mut.Synthesize? then true
    else if mut.UnknownKind? then false
    else
      && FindTask(s.tasks, mut.taskId).Some?
      && var t := s.tasks[FindTask(s.tasks, mut.taskId).value];
         && CanTransition(t.status, TargetStatus(mut))
         && (mut.StartTask? ==> !OtherActive(s.tasks, mut.taskId))
         && (mut.BlockTask? ==> mut.blocked.Some?)
         && (mut.RetryTask? ==> t.retryBudget > 0)
  }

  /** The record of the named task after an admissible mutation. */
  function TaskAfter(t: Task, mut: Mutation): Task
    requires IsTaskScoped(mut)
  {
    match mut
    case StartTask(_) => t.(status := Active)
    case CompleteTask(_, stepId, result, evidence) =>
      t.(status := Passing,
         resultRef := if result.Some? && stepId != "" then stepId else t.resultRef,
         evidence := if evidence.Some? then evidence else t.evidence)
    case BlockTask(_, blocked) => t.(status := Blocked, blockedReason := blocked)
    case RetryTask(_) => t.(status := PendingRetry, retryBudget := t.retryBudget - 1)
  }

  function StepResultsAfter(s: MissionState, mut: Mutation): map<string, StepResult> {
    if mut.CompleteTask? && mut.stepResult.Some? && mut.stepId != "" then
      s.stepResults[mut.stepId := mut.stepResult.value.(fromTask := mut.taskId)]
    else s.stepResults
  }

  /** The mission after a mutation: unchanged unless the mutation is admissible. */
  ghost function Next(s: MissionState, mut: Mutation): MissionState {
    if !Admissible(s, mut) then s
    else if mut.Synthesize? then
      s.(synthesis := s.synthesis.(output := mut.output), status := StatusOf(s.tasks, s.blockedRoot))
    else
      var i := FindTask(s.tasks, mut.taskId).value;
      var tasks := s.tasks[i := TaskAfter(s.tasks[i], mut)];
      s.(tasks := tasks,
         cursor := if mut.StartTask? then mut.taskId else if s.cursor == mut.taskId then "" else s.cursor,
         stepResults := StepResultsAfter(s, mut),
         status := StatusOf(tasks, s.blockedRoot))
  }

  /** The first thing wrong with a mutation, in the order in which it is looked at. */
  ghost predicate Refuses(s: MissionState, mut: Mutation, err: MutationError) {
    match err
    case WipViolated(activeId) =>
      && mut.StartTask? && activeId != mut.taskId
      && exists i :: 0 <= i < |s.tasks| && s.tasks[i].id == activeId && s.tasks[i].status == Active
                     && forall j :: 0 <= j < i && s.tasks[j].id != mut.taskId ==> s.tasks[j].status != Active
    case TaskNotFound(id) =>
      && IsTaskScoped(mut) && id == mut.taskId && (forall i :: 0 <= i < |s.tasks| ==> s.tasks[i].id != id)
      && (mut.StartTask? ==> !OtherActive(s.tasks, id)) && (mut.BlockTask? ==> mut.blocked.Some?)
    case IllegalTransition(InvalidTransition(from, to)) =>
      && IsTaskScoped(mut) && to == TargetStatus(mut) && FindTask(s.tasks, mut.taskId).Some?
      && from == s.tasks[FindTask(s.tasks, mut.taskId).value].status
      && (mut.StartTask? ==> !OtherActive(s.tasks, mut.taskId) && from != Pending && from != PendingRetry)
      && (!mut.StartTask? ==> from != Active)
      && (mut.BlockTask? ==> mut.blocked.Some?)
      && (mut.RetryTask? ==> s.tasks[FindTask(s.tasks, mut.taskId).value].retryBudget > 0)
    case MissingBlockedReason => mut.BlockTask? && mut.blocked.None?
    case NoRetryBudget(id) =>
      && mut.RetryTask? && id == mut.taskId && FindTask(s.tasks, id).Some?
      && s.tasks[FindTask(s.tasks, id).value].retryBudget <= 0
    case UnknownMutation(kind) => mut == UnknownKind(kind)
  }

  // ----- the object -----

  class Mission {
    var tasks: seq<Task>
    var cursor: string
    var stepResults: map<string, StepResult>
    var synthesis: Synthesis
    var status: MissionStatus
    var blockedRoot: Option<BlockedReason>

    ghost function State(): MissionState
      reads this
    {
      MissionState(tasks, cursor, stepResults, synthesis, status, blockedRoot)
    }

    /** A mission over the given tasks, nothing running yet, its status derived. */
    constructor (tasks: seq<Task>, template: string, caveats: seq<string>)
      ensures State() == MissionState(tasks, "", map[], Synthesis(template, caveats, ""),
                                      StatusOf(tasks, None), None)
    {
      this.tasks := tasks;
      cursor := "";
      stepResults := map[];
      synthesis := Synthesis(template, caveats, "");
      blockedRoot := None;
      new;
      RecomputeStatus();
    }

    method RecomputeStatus()
      modifies this`status
      ensures status == StatusOf(tasks, blockedRoot)
    {
      status := DeriveStatus(tasks, blockedRoot);
    }

    /** Moves one task's status; the task is untouched when the machine has no such edge. */
    method Transition(i: nat, to: TaskStatus) returns (err: Option<MutationError>)
      requires i < |tasks|
      modifies this`tasks
      ensures err.None? <==> CanTransition(old(tasks[i].status), to)
      ensures tasks == if err.None? then old(tasks)[i := old(tasks)[i].(status := to)] else old(tasks)
      ensures err.Some? ==> err.value == IllegalTransition(InvalidTransition(old(tasks[i].status), to))
    {
      if !CanTransition(tasks[i].status, to) {
        return Some(IllegalTransition(InvalidTransition(tasks[i].status, to)));
      }
      tasks := tasks[i := tasks[i].(status := to)];
      err := None;
    }

    /** Applies a mutation or rejects it and leaves every field as it was. */
    method Mutate(mut: Mutation) returns (err: Option<MutationError>)
      modifies this
      ensures err.None? <==> Admissible(old(State()), mut)
      ensures State() == Next(old(State()), mut)
      ensures err.Some? ==> Refuses(old(State()), mut, err.value)
    {
      match mut {
        case StartTask(id) => err := ApplyStart(id);
        case CompleteTask(_, _, _, _) => err := ApplyComplete(mut);
        case BlockTask(_, _) => err := ApplyBlock(mut);
        case RetryTask(id) => err := ApplyRetry(id);
        case Synthesize(output) =>
          synthesis := synthesis.(output := output);
          RecomputeStatus();
          err := None;
        case UnknownKind(kind) => err := Some(UnknownMutation(kind));
      }
    }

    method ApplyStart(taskId: string) returns (err: Option<MutationError>)
      modifies this
      ensures err.None? <==> Admissible(old(State()), StartTask(taskId))
      ensures State() == Next(old(State()), StartTask(taskId))
      ensures err.Some? ==> Refuses(old(State()), StartTask(taskId), err.value)
      ensures old(OtherActive(tasks, taskId)) <==> err.Some? && err.value.WipViolated?
    {
      for i := 0 to |tasks|
        invariant State() == old(State())
        invariant forall j :: 0 <= j < i ==> !(tasks[j].status.Active? && tasks[j].id != taskId)
      {
        if tasks[i].status.Active? && tasks[i].id != taskId {
          return Some(WipViolated(tasks[i].id));
        }
      }
      var found := FindTask(tasks, taskId);
      if found.None? {
        return Some(TaskNotFound(taskId));
      }
      err := Transition(found.value, Active);
      if err.Some? {
        return;
      }
      cursor := taskId;
      RecomputeStatus();
    }

    method ApplyComplete(mut: Mutation) returns (err: Option<MutationError>)
      requires mut.CompleteTask?
      modifies this
      ensures err.None? <==> Admissible(old(State()), mut)
      ensures State() == Next(old(State()), mut)
      ensures err.Some? ==> Refuses(old(State()), mut, err.value)
    {
      var found := FindTask(tasks, mut.taskId);
      if found.None? {
        return Some(TaskNotFound(mut.taskId));
      }
      var i := found.value;
      err := Transition(i, Passing);
      if err.Some? {
        return;
      }
      if mut.stepResult.Some? && mut.stepId != "" {
        var sr := mut.stepResult.value.(fromTask := tasks[i].id);
        stepResults := stepResults[mut.stepId := sr];
        tasks := tasks[i := tasks[i].(resultRef := mut.stepId)];
      }
      if mut.evidence.Some? {
        tasks := tasks[i := tasks[i].(evidence := mut.evidence)];
      }
      assert tasks == old(tasks)[i := TaskAfter(old(tasks)[i], mut)];
      if cursor == tasks[i].id {
        cursor := "";
      }
      RecomputeStatus();
    }

    method ApplyBlock(mut: Mutation) returns (err: Option<MutationError>)
      requires mut.BlockTask?
      modifies this
      ensures err.None? <==> Admissible(old(State()), mut)
      ensures State() == Next(old(State()), mut)
      ensures err.Some? ==> Refuses(old(State()), mut, err.value)
    {
      if mut.blocked.None? {
        return Some(MissingBlockedReason);
      }
      var found := FindTask(tasks, mut.taskId);
      if found.None? {
        return Some(TaskNotFound(mut.taskId));
      }
      var i := found.value;
      err := Transition(i, Blocked);
      if err.Some? {
        return;
      }
      tasks := tasks[i := tasks[i].(blockedReason := mut.blocked)];
      assert tasks == old(tasks)[i := TaskAfter(old(tasks)[i], mut)];
      if cursor == tasks[i].id {
        cursor := "";
      }
      RecomputeStatus();
    }

    method ApplyRetry(taskId: string) returns (err: Option<MutationError>)
      modifies this
      ensures err.None? <==> Admissible(old(State()), RetryTask(taskId))
      ensures State() == Next(old(State()), RetryTask(taskId))
      ensures err.Some? ==> Refuses(old(State()), RetryTask(taskId), err.value)
    {
      var found := FindTask(tasks, taskId);
      if found.None? {
        return Some(TaskNotFound(taskId));
      }
      var i := found.value;
      if tasks[i].retryBudget <= 0 {
        return Some(NoRetryBudget(taskId));
      }
      err := Transition(i, PendingRetry);
      if err.Some? {
        return;
      }
      tasks := tasks[i := tasks[i].(retryBudget := tasks[i].retryBudget - 1)];
      assert tasks == old(tasks)[i := TaskAfter(old(tasks)[i], RetryTask(taskId))];
      if cursor == tasks[i].id {
        cursor := "";
      }
      RecomputeStatus();
    }
  }
}
