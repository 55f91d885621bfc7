// The WIP=1 scheduler (pkg/mission/pick.go): read-only questions about a task list.
module Pick {
  import opened Wrappers
  import opened MissionTypes

  predicate HasStatus(tasks: seq<Task>, id: string, s: TaskStatus) {
    var found := FindTask(tasks, id);
    found.Some? && tasks[found.value].status == s
  }

  predicate DependenciesMet(tasks: seq<Task>, t: Task) {
    forall d | d in t.dependsOn :: HasStatus(tasks, d, Passing)
  }

  predicate Ready(tasks: seq<Task>, i: nat)
    requires i < |tasks|
  {
    IsWaiting(tasks[i].status) && DependenciesMet(tasks, tasks[i])
  }

  /** The next task to activate: the first ready one, unless a task is already in flight. */
  function PickActive(tasks: seq<Task>): (r: Option<nat>)
    ensures r.Some? ==> r.value < |tasks| && Ready(tasks, r.value) && !AnyActive(tasks)
    ensures r.Some? ==> forall j :: 0 <= j < r.value ==> !Ready(tasks, j)
    ensures r.None? ==> AnyActive(tasks) || forall j :: 0 <= j < |tasks| ==> !Ready(tasks, j)
  {
    if exists i :: 0 <= i < |tasks| && tasks[i].status.Active? then None
    else FirstReady(tasks, 0)
  }

  function FirstReady(tasks: seq<Task>, from: nat): (r: Option<nat>)
    requires from <= |tasks|
    requires forall j :: 0 <= j < from ==> !Ready(tasks, j)
    ensures r.Some? ==> r.value < |tasks| && Ready(tasks, r.value)
    ensures r.Some? ==> forall j :: 0 <= j < r.value ==> !Ready(tasks, j)
    ensures r.None? ==> forall j :: 0 <= j < |tasks| ==> !Ready(tasks, j)
    decreases |tasks| - from
  {
    if from == |tasks| then None
    else if Ready(tasks, from) then Some(from)
    else FirstReady(tasks, from + 1)
  }

  /** One edge deep: some direct dependency is unknown or blocked. */
  predicate DependencyPermanentlyBlocked(tasks: seq<Task>, t: Task) {
    exists d | d in t.dependsOn :: FindTask(tasks, d).None? || HasStatus(tasks, d, Blocked)
  }

  predicate Runnable(tasks: seq<Task>) {
    exists i | 0 <= i < |tasks| ::
      tasks[i].status.Active? || (IsWaiting(tasks[i].status) && !DependencyPermanentlyBlocked(tasks, tasks[i]))
  }

  // ----- the same, over the whole list -----

  /** The task an id stands for, the first of that id, has this status. */
  ghost predicate Stands(tasks: seq<Task>, id: string, s: TaskStatus) {
    exists j :: 0 <= j < |tasks| && tasks[j].id == id && tasks[j].status == s && forall k :: 0 <= k < j ==> tasks[k].id != id
  }

  lemma StandsExactly(tasks: seq<Task>, id: string, s: TaskStatus)
    ensures HasStatus(tasks, id, s) <==> Stands(tasks, id, s)
  {
    var found := FindTask(tasks, id);
    if Stands(tasks, id, s) {
      var j :| 0 <= j < |tasks| && tasks[j].id == id && tasks[j].status == s && forall k :: 0 <= k < j ==> tasks[k].id != id;
      assert found == Some(j);
    }
  }

  /** Not started or sent back, and every dependency is known and passing. */
  ghost predicate CanStart(tasks: seq<Task>, i: nat) {
    && i < |tasks| && (tasks[i].status == Pending || tasks[i].status == PendingRetry)
    && forall d :: d in tasks[i].dependsOn ==> Stands(tasks, d, Passing)
  }

  lemma ReadyExactly(tasks: seq<Task>, i: nat)
    requires i < |tasks|
    ensures Ready(tasks, i) <==> CanStart(tasks, i)
  {
    forall d ensures HasStatus(tasks, d, Passing) <==> Stands(tasks, d, Passing) { StandsExactly(tasks, d, Passing); }
  }

  /** Exact: task i is picked if and only if nothing is active and it is the first that can start. */
  lemma PickExactly(tasks: seq<Task>, i: nat)
    ensures PickActive(tasks) == Some(i) <==>
              && (forall j :: 0 <= j < |tasks| ==> tasks[j].status != Active)
              && CanStart(tasks, i) && forall j :: 0 <= j < i ==> !CanStart(tasks, j)
  {
    forall j: nat | j < |tasks| ensures Ready(tasks, j) <==> CanStart(tasks, j) { ReadyExactly(tasks, j); }
    if AnyActive(tasks) {
      var k :| 0 <= k < |tasks| && tasks[k].status.Active?;
      assert tasks[k].status == Active;
    }
  }

  /** Exact: the mission is runnable if and only if some task is active, or waits with every direct dependency known
      and not blocked. */
  lemma RunnableExactly(tasks: seq<Task>)
    ensures Runnable(tasks) <==> exists i :: 0 <= i < |tasks| && MayRun(tasks, i)
  {
    forall i: nat | i < |tasks|
      ensures MayRun(tasks, i) <==>
                tasks[i].status.Active? || (IsWaiting(tasks[i].status) && !DependencyPermanentlyBlocked(tasks, tasks[i]))
    {
      MayRunExactly(tasks, i);
    }
  }

  ghost predicate MayRun(tasks: seq<Task>, i: nat)
    requires i < |tasks|
  {
    || tasks[i].status == Active
    || ((tasks[i].status == Pending || tasks[i].status == PendingRetry)
        && forall d :: d in tasks[i].dependsOn ==> exists s :: s != Blocked && Stands(tasks, d, s))
  }

  lemma MayRunExactly(tasks: seq<Task>, i: nat)
    requires i < |tasks|
    ensures MayRun(tasks, i) <==>
              tasks[i].status.Active? || (IsWaiting(tasks[i].status) && !DependencyPermanentlyBlocked(tasks, tasks[i]))
  {
    forall d
      ensures (exists s :: s != Blocked && Stands(tasks, d, s)) <==>
                !(FindTask(tasks, d).None? || HasStatus(tasks, d, Blocked))
    {
      KnownAndOpen(tasks, d);
    }
  }

  lemma KnownAndOpen(tasks: seq<Task>, d: string)
    ensures (exists s :: s != Blocked && Stands(tasks, d, s)) <==>
              !(FindTask(tasks, d).None? || HasStatus(tasks, d, Blocked))
  {
    var found := FindTask(tasks, d);
    if found.Some? { StandsExactly(tasks, d, tasks[found.value].status); }
    if s :| s != Blocked && Stands(tasks, d, s) { StandsExactly(tasks, d, s); }
  }
}
