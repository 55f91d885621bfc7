// The task status machine and the mission outcome derived from it (pkg/mission/statemachine.go).
module StateMachine {
  import opened Wrappers
  import opened MissionTypes

  datatype InvalidTransition = InvalidTransition(from: TaskStatus, to: TaskStatus)

  const VALID_TRANSITIONS: map<TaskStatus, set<TaskStatus>> := map[
    Pending := {Active},
    Active := {Passing, PendingRetry, Blocked},
    PendingRetry := {Active},
    Passing := {},
    Blocked := {}
  ]

  predicate CanTransition(from: TaskStatus, to: TaskStatus) {
    from in VALID_TRANSITIONS && to in VALID_TRANSITIONS[from]
  }

  predicate IsTerminal(s: TaskStatus) {
    s.Passing? || s.Blocked?
  }

  /** The terminal statuses are exactly the ones with no way out. */
  lemma TerminalHasNoExit(s: TaskStatus)
    ensures IsTerminal(s) <==> forall to :: !CanTransition(s, to)
  {
    if !IsTerminal(s) {
      assert CanTransition(s, if s.Active? then Passing else Active);
    }
  }

  /** Working is only entered from waiting, and only left by passing, blocking or waiting again. */
  lemma TransitionsAlternate(from: TaskStatus, to: TaskStatus)
    ensures CanTransition(from, to) <==>
            (IsWaiting(from) && to.Active?) || (from.Active? && (IsTerminal(to) || to.PendingRetry?))
  {
    match from
    case Pending =>
    case Active =>
    case Passing =>
    case Blocked =>
    case PendingRetry =>
  }

  /** The mission outcome, stated over the whole task list. */
  ghost function StatusOf(tasks: seq<Task>, blockedRoot: Option<BlockedReason>): MissionStatus {
    if blockedRoot.Some? then MissionUnanswerable
    else if |tasks| == 0 || exists i :: 0 <= i < |tasks| && !IsTerminal(tasks[i].status) then MissionActive
    else if exists i :: 0 <= i < |tasks| && tasks[i].status.Blocked? then MissionPartial
    else MissionComplete
  }

  method DeriveStatus(tasks: seq<Task>, blockedRoot: Option<BlockedReason>) returns (status: MissionStatus)
    ensures status == StatusOf(tasks, blockedRoot)
  {
    if blockedRoot.Some? {
      return MissionUnanswerable;
    }
    if |tasks| == 0 {
      return MissionActive;
    }
    var allTerminal, anyBlocked := true, false;
    for k := 0 to |tasks|
      invariant allTerminal <==> forall i :: 0 <= i < k ==> IsTerminal(tasks[i].status)
      invariant anyBlocked <==> exists i :: 0 <= i < k && tasks[i].status.Blocked?
    {
      if !IsTerminal(tasks[k].status) {
        allTerminal := false;
      }
      if tasks[k].status.Blocked? {
        anyBlocked := true;
      }
    }
    status := if !allTerminal then MissionActive else if anyBlocked then MissionPartial else MissionComplete;
  }
}
