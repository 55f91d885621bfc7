// Missions whose starts are the scheduler's own picks: dependency safety over whole runs, and the order in
// which tasks start.
module Scheduler {
  import opened Wrappers
  import opened MissionTypes
  import opened StateMachine
  import opened Mutator
  import opened Pick
  import opened MissionRuns
  import opened Template

  /** One turn of the main loop: activate the scheduler's pick, or report on running work. */
  datatype Event = Activate | Report(mut: Mutation)

  ghost function SchedNext(s: MissionState, ev: Event): MissionState {
    match ev
    case Activate =>
      var pick := PickActive(s.tasks);
      if pick.Some? then Next(s, StartTask(s.tasks[pick.value].id)) else s
    case Report(mut) =>
      if mut.StartTask? then s else Next(s, mut)
  }

  ghost function SchedRun(s: MissionState, events: seq<Event>): MissionState {
    if events == [] then s else SchedNext(SchedRun(s, events[..|events| - 1]), events[|events| - 1])
  }

  /** A mission just instantiated from a template that Validate accepts. */
  ghost predicate ValidStart(mt: MissionTemplate, s: MissionState) {
    WellFormed(mt.tasks) && InitialState(mt, s)
  }

  lemma StartIsFresh(mt: MissionTemplate, s: MissionState)
    requires InitialState(mt, s)
    ensures Fresh(s) && Instance(mt.tasks, s.tasks)
  {
    assert |s.tasks| > 0 ==> !IsTerminal(s.tasks[0].status);
  }

  lemma InstanceByShape(tts: seq<TemplateTask>, before: seq<Task>, after: seq<Task>)
    requires Instance(tts, before) && SameShape(before, after)
    ensures Instance(tts, after)
  {
  }

  lemma InstanceIdsUnique(tts: seq<TemplateTask>, tasks: seq<Task>)
    requires GoodIds(tts) && Instance(tts, tasks)
    ensures UniqueIds(tasks)
  {
    forall i, j | 0 <= i < j < |tasks| ensures tasks[i].id != tasks[j].id {
      assert !BadId(tts, j);
      assert tts[..j][i].id == tts[i].id;
    }
  }

  // ----- scheduler runs are runs -----

  lemma {:induction false} SchedRunShape(s: MissionState, events: seq<Event>)
    ensures SameShape(s.tasks, SchedRun(s, events).tasks)
    ensures SchedRun(s, events).blockedRoot == s.blockedRoot
  {
    if events != [] {
      SchedRunShape(s, events[..|events| - 1]);
    }
  }

  lemma {:induction false} SchedRunKeepsInv(s: MissionState, events: seq<Event>)
    requires Inv(s)
    ensures Inv(SchedRun(s, events))
  {
    if events != [] {
      var n := |events| - 1;
      SchedRunKeepsInv(s, events[..n]);
      var t := SchedRun(s, events[..n]);
      match events[n]
      case Activate =>
        var pick := PickActive(t.tasks);
        if pick.Some? { NextKeepsInv(t, StartTask(t.tasks[pick.value].id)); }
      case Report(mut) =>
        if !mut.StartTask? { NextKeepsInv(t, mut); }
    }
  }

  lemma {:induction false} SchedRunsCompose(s: MissionState, a: seq<Event>, b: seq<Event>)
    ensures SchedRun(s, a + b) == SchedRun(SchedRun(s, a), b)
  {
    if b == [] {
      assert a + b == a;
    } else {
      assert (a + b)[..|a + b| - 1] == a + b[..|b| - 1];
      SchedRunsCompose(s, a, b[..|b| - 1]);
    }
  }

  // ----- dependency safety -----

  /** Every task that has left pending has all its dependencies passing. */
  ghost predicate StartedAreReady(tasks: seq<Task>) {
    forall i :: 0 <= i < |tasks| && !tasks[i].status.Pending? ==> DependenciesMet(tasks, tasks[i])
  }

  lemma StatusTerminalKept(s: MissionState, mut: Mutation, id: string, st: TaskStatus)
    requires HasStatus(s.tasks, id, st) && IsTerminal(st)
    ensures HasStatus(Next(s, mut).tasks, id, st)
  {
    NextShape(s, mut);
    FindTaskByShape(s.tasks, Next(s, mut).tasks, id);
    NextKeepsTerminal(s, mut, FindTask(s.tasks, id).value);
  }

  lemma MetStaysMet(s: MissionState, mut: Mutation, i: nat)
    requires i < |s.tasks| && DependenciesMet(s.tasks, s.tasks[i])
    ensures DependenciesMet(Next(s, mut).tasks, Next(s, mut).tasks[i])
  {
    forall d | d in s.tasks[i].dependsOn ensures HasStatus(Next(s, mut).tasks, d, Passing) {
      StatusTerminalKept(s, mut, d, Passing);
    }
  }

  /** Only a start takes a task out of pending. */
  lemma LeavingPending(s: MissionState, mut: Mutation, i: nat)
    requires i < |s.tasks|
    ensures s.tasks[i].status.Pending? && !Next(s, mut).tasks[i].status.Pending? ==>
              mut.StartTask? && FindTask(s.tasks, mut.taskId) == Some(i) && Next(s, mut).tasks[i].status.Active?
    ensures !s.tasks[i].status.Pending? ==> !Next(s, mut).tasks[i].status.Pending?
  {
    if Admissible(s, mut) && IsTaskScoped(mut) {
      var k := FindTask(s.tasks, mut.taskId).value;
      TransitionsAlternate(s.tasks[k].status, TargetStatus(mut));
    }
  }

  lemma SchedNextKeepsReady(s: MissionState, ev: Event)
    requires UniqueIds(s.tasks) && StartedAreReady(s.tasks)
    ensures StartedAreReady(SchedNext(s, ev).tasks)
    ensures forall i :: 0 <= i < |s.tasks| && !s.tasks[i].status.Pending? ==> !SchedNext(s, ev).tasks[i].status.Pending?
  {
    var pick := PickActive(s.tasks);
    var mut := if ev.Report? then ev.mut else if pick.Some? then StartTask(s.tasks[pick.value].id) else UnknownKind("");
    if ev.Report? && ev.mut.StartTask? {
    } else {
      assert SchedNext(s, ev) == Next(s, mut);
      forall i | 0 <= i < |s.tasks|
        ensures !Next(s, mut).tasks[i].status.Pending? ==> DependenciesMet(Next(s, mut).tasks, Next(s, mut).tasks[i])
        ensures !s.tasks[i].status.Pending? ==> !Next(s, mut).tasks[i].status.Pending?
      {
        LeavingPending(s, mut, i);
        if DependenciesMet(s.tasks, s.tasks[i]) {
          MetStaysMet(s, mut, i);
        }
      }
    }
  }

  lemma {:induction false} SchedRunKeepsReady(s: MissionState, events: seq<Event>)
    requires UniqueIds(s.tasks) && StartedAreReady(s.tasks)
    ensures StartedAreReady(SchedRun(s, events).tasks)
    ensures |SchedRun(s, events).tasks| == |s.tasks|
    ensures forall i :: 0 <= i < |s.tasks| && !s.tasks[i].status.Pending? ==> !SchedRun(s, events).tasks[i].status.Pending?
  {
    if events != [] {
      var n := |events| - 1;
      SchedRunKeepsReady(s, events[..n]);
      SchedRunShape(s, events[..n]);
      SchedNextKeepsReady(SchedRun(s, events[..n]), events[n]);
    }
  }

  lemma LeftStaysMet(s: MissionState, first: seq<Event>, more: seq<Event>, i: nat)
    requires UniqueIds(s.tasks) && StartedAreReady(s.tasks) && i < |s.tasks| == |SchedRun(s, first).tasks|
    requires !SchedRun(s, first).tasks[i].status.Pending?
    ensures var e := SchedRun(s, first + more);
            |e.tasks| == |s.tasks| && DependenciesMet(e.tasks, e.tasks[i])
  {
    var mid := SchedRun(s, first);
    SchedRunKeepsReady(s, first);
    assert UniqueIds(mid.tasks) by { SchedRunShape(s, first); }
    SchedRunKeepsReady(mid, more);
    SchedRunsCompose(s, first, more);
  }

  /** A task that has left pending by step k has all its dependencies passing at every later point. */
  lemma DependencySafety(mt: MissionTemplate, s: MissionState, events: seq<Event>, k: nat, i: nat)
    requires ValidStart(mt, s) && k <= |events| && i < |s.tasks|
    requires |SchedRun(s, events[..k]).tasks| == |s.tasks|
    requires !SchedRun(s, events[..k]).tasks[i].status.Pending?
    ensures |SchedRun(s, events).tasks| == |s.tasks|
    ensures DependenciesMet(SchedRun(s, events).tasks, s.tasks[i])
  {
    StartIsFresh(mt, s);
    InstanceIdsUnique(mt.tasks, s.tasks);
    assert events[..k] + events[k..] == events;
    LeftStaysMet(s, events[..k], events[k..], i);
    SchedRunShape(s, events);
  }

  /** The position an event takes out of pending for the first time, if any. */
  ghost function StartedBy(tasks: seq<Task>, ev: Event): seq<nat> {
    var pick := PickActive(tasks);
    if ev.Activate? && pick.Some? && tasks[pick.value].status.Pending? then [pick.value] else []
  }

  /** Positions of the tasks in the order in which they first left pending. */
  ghost function FirstStarts(s: MissionState, events: seq<Event>): seq<nat> {
    if events == [] then []
    else
      var n := |events| - 1;
      FirstStarts(s, events[..n]) + StartedBy(SchedRun(s, events[..n]).tasks, events[n])
  }

  /** Every dependency of a listed task is the id of a task listed before it. */
  ghost predicate TopologicalOrder(tasks: seq<Task>, order: seq<nat>) {
    && (forall k :: 0 <= k < |order| ==> order[k] < |tasks|)
    && (forall j, k :: 0 <= j < k < |order| ==> order[j] != order[k])
    && (forall k, d :: 0 <= k < |order| && d in tasks[order[k]].dependsOn ==> Listed(tasks, order[..k], d))
  }

  ghost predicate Listed(tasks: seq<Task>, order: seq<nat>, id: string) {
    exists j :: 0 <= j < |order| && order[j] < |tasks| && tasks[order[j]].id == id
  }

  /** The listed positions are exactly the tasks no longer pending. */
  ghost predicate ListsStarted(tasks: seq<Task>, order: seq<nat>) {
    forall i: nat :: i in order <==> i < |tasks| && !tasks[i].status.Pending?
  }

  lemma ExtendOrder(tasks: seq<Task>, before: seq<nat>, i: nat)
    requires TopologicalOrder(tasks, before) && i < |tasks| && i !in before
    requires forall d :: d in tasks[i].dependsOn ==> Listed(tasks, before, d)
    ensures TopologicalOrder(tasks, before + [i])
  {
    var order := before + [i];
    forall k, d | 0 <= k < |order| && d in tasks[order[k]].dependsOn ensures Listed(tasks, order[..k], d) {
      assert order[..k] == before[..k];
      assert before[..|before|] == before;
    }
  }

  lemma OrderByShape(before: seq<Task>, after: seq<Task>, order: seq<nat>)
    requires SameShape(before, after) && TopologicalOrder(before, order)
    ensures TopologicalOrder(after, order)
  {
    forall k, d | 0 <= k < |order| && d in after[order[k]].dependsOn ensures Listed(after, order[..k], d) {
      assert Listed(before, order[..k], d);
      var j :| 0 <= j < k && order[j] < |before| && before[order[j]].id == d;
      assert order[..k][j] == order[j];
    }
  }

  /** A ready task's dependencies are all among the started ones. */
  lemma ReadyFollowsItsDependencies(tasks: seq<Task>, before: seq<nat>, i: nat)
    requires i < |tasks| && DependenciesMet(tasks, tasks[i])
    requires ListsStarted(tasks, before)
    ensures forall d :: d in tasks[i].dependsOn ==> Listed(tasks, before, d)
  {
    forall d | d in tasks[i].dependsOn ensures Listed(tasks, before, d) {
      assert HasStatus(tasks, d, Passing);
      var f := FindTask(tasks, d).value;
      assert f in before;
    }
  }

  lemma PickExtendsOrder(tasks: seq<Task>, before: seq<nat>)
    requires TopologicalOrder(tasks, before) && ListsStarted(tasks, before)
    requires PickActive(tasks).Some? && tasks[PickActive(tasks).value].status.Pending?
    ensures TopologicalOrder(tasks, before + [PickActive(tasks).value])
  {
    var i := PickActive(tasks).value;
    ReadyFollowsItsDependencies(tasks, before, i);
    ExtendOrder(tasks, before, i);
  }

  /** One event adds to the started tasks exactly a pick that was still pending. */
  lemma EventStarts(s: MissionState, ev: Event, before: seq<nat>)
    requires UniqueIds(s.tasks) && ListsStarted(s.tasks, before)
    ensures ListsStarted(SchedNext(s, ev).tasks, before + StartedBy(s.tasks, ev))
  {
    var pick := PickActive(s.tasks);
    if ev.Activate? && pick.Some? {
      var start := StartTask(s.tasks[pick.value].id);
      assert Admissible(s, start);
      forall i: nat | i < |s.tasks| { LeavingPending(s, start, i); }
    } else if ev.Report? && !ev.mut.StartTask? {
      forall i: nat | i < |s.tasks| { LeavingPending(s, ev.mut, i); }
    }
  }

  lemma EventKeepsOrder(tasks: seq<Task>, ev: Event, before: seq<nat>)
    requires TopologicalOrder(tasks, before) && ListsStarted(tasks, before)
    ensures TopologicalOrder(tasks, before + StartedBy(tasks, ev))
  {
    if StartedBy(tasks, ev) != [] {
      PickExtendsOrder(tasks, before);
    } else {
      assert before + [] == before;
    }
  }

  lemma {:induction false} FirstStartsAreOrdered(s: MissionState, events: seq<Event>)
    requires Fresh(s) && UniqueIds(s.tasks)
    ensures ListsStarted(SchedRun(s, events).tasks, FirstStarts(s, events))
    ensures TopologicalOrder(s.tasks, FirstStarts(s, events))
  {
    if events != [] {
      var n := |events| - 1;
      var t := SchedRun(s, events[..n]);
      var before := FirstStarts(s, events[..n]);
      FirstStartsAreOrdered(s, events[..n]);
      SchedRunShape(s, events[..n]);
      UniqueByShape(s.tasks, t.tasks);
      EventStarts(t, events[n], before);
      OrderByShape(s.tasks, t.tasks, before);
      EventKeepsOrder(t.tasks, events[n], before);
      OrderByShape(t.tasks, s.tasks, FirstStarts(s, events));
    }
  }

  lemma UniqueByShape(before: seq<Task>, after: seq<Task>)
    requires SameShape(before, after) && UniqueIds(before)
    ensures UniqueIds(after)
  {
  }

  /** First activations respect the dependency graph: a topological order of exactly what has started. */
  lemma StartOrderIsTopological(mt: MissionTemplate, s: MissionState, events: seq<Event>)
    requires ValidStart(mt, s)
    ensures TopologicalOrder(s.tasks, FirstStarts(s, events))
    ensures ListsStarted(SchedRun(s, events).tasks, FirstStarts(s, events))
  {
    StartIsFresh(mt, s);
    InstanceIdsUnique(mt.tasks, s.tasks);
    FirstStartsAreOrdered(s, events);
  }
}
