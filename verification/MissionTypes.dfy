// The entities of pkg/mission/mission.go: one Mission per turn, its tasks, and the step results that
// pointer references resolve against.
module MissionTypes {
  import opened Wrappers

  /** A decoded JSON value. Numbers, booleans and null carry no string leaf and are not told apart. */
  datatype Value =
    | Text(text: string)
    | Object(fields: map<string, Value>)
    | Items(items: seq<Value>)
    | Scalar

  datatype TaskStatus = Pending | Active | Passing | Blocked | PendingRetry

  datatype MissionStatus = MissionActive | MissionComplete | MissionPartial | MissionUnanswerable

  datatype GapKind = NoParam | ShapeUnsupported | NoData

  datatype BlockedReason = BlockedReason(kind: GapKind, missingDimension: string, suggestedFix: string)

  datatype Evidence = Evidence(tool: string, resultSummary: string, reasoning: string)

  datatype Task = Task(
    id: string,
    kind: string,
    behavior: string,
    verification: string,
    covers: seq<string>,
    dependsOn: seq<string>,
    status: TaskStatus,
    retryBudget: int,
    resultRef: string,
    evidence: Option<Evidence>,
    blockedReason: Option<BlockedReason>)

  type Row = map<string, Value>

  datatype StepResult = StepResult(rows: seq<Row>, fromTask: string, schema: seq<string>)

  datatype Synthesis = Synthesis(template: string, caveats: seq<string>, output: string)

  /** The part of a Mission that Mutate can read or write, as a value. */
  datatype MissionState = MissionState(
    tasks: seq<Task>,
    cursor: string,
    stepResults: map<string, StepResult>,
    synthesis: Synthesis,
    status: MissionStatus,
    blockedRoot: Option<BlockedReason>)

  /** Waiting to be picked: never started, or sent back by a retry. */
  predicate IsWaiting(s: TaskStatus) {
    s.Pending? || s.PendingRetry?
  }

  /** Position of the first task with this id, the one every mutation acts on. */
  function FindTask(tasks: seq<Task>, id: string): (r: Option<nat>)
    ensures r.Some? ==> r.value < |tasks| && tasks[r.value].id == id
    ensures r.Some? ==> forall j :: 0 <= j < r.value ==> tasks[j].id != id
    ensures r.None? ==> forall j :: 0 <= j < |tasks| ==> tasks[j].id != id
  {
    FindTaskFrom(tasks, id, 0)
  }

  function FindTaskFrom(tasks: seq<Task>, id: string, from: nat): (r: Option<nat>)
    requires from <= |tasks|
    requires forall j :: 0 <= j < from ==> tasks[j].id != id
    ensures r.Some? ==> r.value < |tasks| && tasks[r.value].id == id
    ensures r.Some? ==> forall j :: 0 <= j < r.value ==> tasks[j].id != id
    ensures r.None? ==> forall j :: 0 <= j < |tasks| ==> tasks[j].id != id
    decreases |tasks| - from
  {
    if from == |tasks| then None
    else if tasks[from].id == id then Some(from)
    else FindTaskFrom(tasks, id, from + 1)
  }

  ghost predicate UniqueIds(tasks: seq<Task>) {
    forall i, j :: 0 <= i < j < |tasks| ==> tasks[i].id != tasks[j].id
  }

  ghost predicate AnyActive(tasks: seq<Task>) {
    exists i :: 0 <= i < |tasks| && tasks[i].status.Active?
  }
}
