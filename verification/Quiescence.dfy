// When the scheduler has nothing left to pick: deadlock freedom from acyclicity, what the mission's
// outcome then is, and which tasks could still have passed.
module Quiescence {
  import opened Wrappers
  import opened MissionTypes
  import opened StateMachine
  import opened Mutator
  import opened Pick
  import opened MissionRuns
  import opened Graph
  import opened Template
  import opened Scheduler

  ghost predicate Quiescent(tasks: seq<Task>) {
    !AnyActive(tasks) && PickActive(tasks).None?
  }

  /** A chain of tasks, each depending on the next one in the chain. */
  ghost predicate DependsPath(tasks: seq<Task>, p: seq<nat>) {
    && |p| > 0
    && (forall k :: 0 <= k < |p| ==> p[k] < |tasks|)
    && forall k :: 0 < k < |p| ==> tasks[p[k]].id in tasks[p[k - 1]].dependsOn
  }

  /** Task i depends, directly or through other tasks, on a blocked one. */
  ghost predicate ReachesBlocked(tasks: seq<Task>, i: nat) {
    exists p :: DependsPath(tasks, p) && |p| > 1 && p[0] == i && tasks[p[|p| - 1]].status.Blocked?
  }

  // ----- deadlock freedom -----

  /** The ids along a chain of tasks form a path of the template's graph. */
  lemma ChainIsGraphPath(tts: seq<TemplateTask>, tasks: seq<Task>, p: seq<nat>, ids: seq<string>)
    requires GoodIds(tts) && Instance(tts, tasks) && DependsPath(tasks, p)
    requires |ids| == |p| && forall k :: 0 <= k < |p| ==> ids[k] == tasks[p[k]].id
    ensures IsPath(GraphOf(tts), ids)
  {
    forall k | 0 <= k < |ids| - 1 ensures Edge(GraphOf(tts), ids[k], ids[k + 1]) {
      GraphEntry(tts, p[k]);
      var n := k + 1;
      assert tasks[p[n]].id in tasks[p[n - 1]].dependsOn;
    }
  }

  /** In an acyclic graph a chain never comes back to a task it has visited. */
  lemma ChainMovesOn(tts: seq<TemplateTask>, tasks: seq<Task>, p: seq<nat>, j: nat)
    requires WellFormed(tts) && Instance(tts, tasks) && DependsPath(tasks, p)
    requires j < |tasks| && tasks[j].id in tasks[p[|p| - 1]].dependsOn
    ensures j !in p
    ensures DependsPath(tasks, p + [j])
  {
    if j in p {
      var g := GraphOf(tts);
      var ids := seq(|p|, k requires 0 <= k < |p| => tasks[p[k]].id);
      ChainIsGraphPath(tts, tasks, p, ids);
      GraphEntry(tts, p[|p| - 1]);
      var k :| 0 <= k < |p| && p[k] == j;
      assert ids[k] == tasks[j].id;
      BackEdgeClosesCycle(g, ids, tasks[j].id);
    }
  }

  /** A waiting task that cannot be picked depends on a task that is not passing. */
  lemma WaitingHasUnmetDependency(tts: seq<TemplateTask>, tasks: seq<Task>, i: nat) returns (j: nat)
    requires AllResolved(tts) && Instance(tts, tasks) && Quiescent(tasks)
    requires i < |tasks| && IsWaiting(tasks[i].status)
    ensures j < |tasks| && tasks[j].id in tasks[i].dependsOn
    ensures tasks[j].status.Blocked? || IsWaiting(tasks[j].status)
  {
    assert !Ready(tasks, i);
    var d :| d in tasks[i].dependsOn && !HasStatus(tasks, d, Passing);
    assert Resolved(tts, i);
    var m :| 0 <= m < |tts| && tts[m].id == d;
    assert tasks[m].id == d;
    j := FindTask(tasks, d).value;
    assert !tasks[j].status.Active?;
  }

  ghost function Unvisited(tasks: seq<Task>, p: seq<nat>): set<nat> {
    set k: nat | k < |tasks| && k !in p
  }

  /** Following unmet dependencies from a waiting task ends at a blocked one. */
  lemma {:induction false} FollowToBlocked(tts: seq<TemplateTask>, tasks: seq<Task>, p: seq<nat>)
    requires WellFormed(tts) && Instance(tts, tasks) && Quiescent(tasks)
    requires DependsPath(tasks, p) && IsWaiting(tasks[p[|p| - 1]].status)
    ensures ReachesBlocked(tasks, p[0])
    decreases Unvisited(tasks, p)
  {
    var j := WaitingHasUnmetDependency(tts, tasks, p[|p| - 1]);
    ChainMovesOn(tts, tasks, p, j);
    var q := p + [j];
    assert q[0] == p[0];
    if !tasks[j].status.Blocked? {
      assert j in Unvisited(tasks, p) && j !in Unvisited(tasks, q);
      FollowToBlocked(tts, tasks, q);
    }
  }

  /** Every task is passing, blocked, or waiting behind a blocked task. */
  ghost predicate Settled(tasks: seq<Task>) {
    forall i :: 0 <= i < |tasks| ==>
      tasks[i].status.Passing? || tasks[i].status.Blocked? ||
      (IsWaiting(tasks[i].status) && ReachesBlocked(tasks, i))
  }

  lemma QuiescentTasks(tts: seq<TemplateTask>, tasks: seq<Task>)
    requires WellFormed(tts) && Instance(tts, tasks) && Quiescent(tasks)
    ensures Settled(tasks)
  {
    forall i | 0 <= i < |tasks|
      ensures tasks[i].status.Passing? || tasks[i].status.Blocked? ||
              (IsWaiting(tasks[i].status) && ReachesBlocked(tasks, i))
    {
      assert !tasks[i].status.Active?;
      if IsWaiting(tasks[i].status) {
        FollowToBlocked(tts, tasks, [i]);
      }
    }
  }

  /** From an accepted template, whatever mutations are requested: when no task is active and none can
      be picked, every task is passing, blocked, or waiting behind a blocked task. */
  lemma DeadlockFreedom(mt: MissionTemplate, s: MissionState, muts: seq<Mutation>)
    requires ValidStart(mt, s) && Quiescent(Run(s, muts).tasks)
    ensures Settled(Run(s, muts).tasks)
  {
    StartIsFresh(mt, s);
    RunShape(s, muts);
    InstanceByShape(mt.tasks, s.tasks, Run(s, muts).tasks);
    QuiescentTasks(mt.tasks, Run(s, muts).tasks);
  }

  // ----- the outcome at quiescence -----

  ghost predicate AnyBlocked(tasks: seq<Task>) {
    exists i :: 0 <= i < |tasks| && tasks[i].status.Blocked?
  }

  /** Some task waits behind a blocked one. */
  ghost predicate AnyStranded(tasks: seq<Task>) {
    exists i :: 0 <= i < |tasks| && IsWaiting(tasks[i].status) && ReachesBlocked(tasks, i)
  }

  lemma StrandedBehindBlocked(tasks: seq<Task>)
    requires AnyStranded(tasks)
    ensures AnyBlocked(tasks)
  {
    var i :| 0 <= i < |tasks| && IsWaiting(tasks[i].status) && ReachesBlocked(tasks, i);
    var p :| DependsPath(tasks, p) && |p| > 1 && p[0] == i && tasks[p[|p| - 1]].status.Blocked?;
    assert p[|p| - 1] < |tasks|;
  }

  /** Where every waiting task is stranded, what waits is what is stranded. */
  lemma WaitingIsStranded(tasks: seq<Task>)
    requires Settled(tasks)
    ensures AnyStranded(tasks) <==> exists i :: 0 <= i < |tasks| && !IsTerminal(tasks[i].status)
  {
    if i :| 0 <= i < |tasks| && !IsTerminal(tasks[i].status) {
      assert IsWaiting(tasks[i].status) && ReachesBlocked(tasks, i);
    }
  }

  /** A quiescent mission reads active exactly when some task is stranded behind a blocked one, partial
      when tasks were blocked but none is stranded, and complete when nothing was blocked. */
  lemma QuiescentOutcome(mt: MissionTemplate, s: MissionState, muts: seq<Mutation>)
    requires ValidStart(mt, s) && mt.tasks != [] && Quiescent(Run(s, muts).tasks)
    ensures var e := Run(s, muts);
            && (e.status.MissionActive? <==> AnyStranded(e.tasks))
            && (e.status.MissionPartial? <==> AnyBlocked(e.tasks) && !AnyStranded(e.tasks))
            && (e.status.MissionComplete? <==> !AnyBlocked(e.tasks))
  {
    var e := Run(s, muts);
    DeadlockFreedom(mt, s, muts);
    WaitingIsStranded(e.tasks);
    if AnyStranded(e.tasks) { StrandedBehindBlocked(e.tasks); }
    RunOutcome(mt, s, muts);
  }

  lemma RunOutcome(mt: MissionTemplate, s: MissionState, muts: seq<Mutation>)
    requires ValidStart(mt, s)
    ensures var e := Run(s, muts);
            |e.tasks| == |mt.tasks| && e.status == StatusOf(e.tasks, None)
  {
    StartIsFresh(mt, s);
    InvariantOverRuns(s, muts);
    RunShape(s, muts);
  }

  // ----- Runnable -----

  /** Once Runnable is false no scheduler-driven continuation changes any task or picks one. */
  lemma {:induction false} NotRunnableIsFinal(s: MissionState, events: seq<Event>)
    requires !Runnable(s.tasks)
    ensures SchedRun(s, events).tasks == s.tasks
    ensures PickActive(SchedRun(s, events).tasks).None?
  {
    assert Quiescent(s.tasks);
    if events != [] {
      var n := |events| - 1;
      var t := SchedRun(s, events[..n]);
      NotRunnableIsFinal(s, events[..n]);
      if events[n].Report? && Admissible(t, events[n].mut) && IsTaskScoped(events[n].mut) && !events[n].mut.StartTask? {
        var k := FindTask(t.tasks, events[n].mut.taskId).value;
        TransitionsAlternate(t.tasks[k].status, TargetStatus(events[n].mut));
      }
    }
  }

  // ----- which tasks can still pass -----

  lemma BlockedStaysReached(before: seq<Task>, after: seq<Task>, i: nat)
    requires SameShape(before, after) && ReachesBlocked(before, i)
    requires forall k :: 0 <= k < |before| && before[k].status.Blocked? ==> after[k].status.Blocked?
    ensures ReachesBlocked(after, i)
  {
    var p :| DependsPath(before, p) && |p| > 1 && p[0] == i && before[p[|p| - 1]].status.Blocked?;
    forall k | 0 < k < |p| ensures after[p[k]].id in after[p[k - 1]].dependsOn {
      assert before[p[k]].id in before[p[k - 1]].dependsOn;
    }
    assert DependsPath(after, p);
  }

  /** Behind a started task everything is passing, all the way down the chain. */
  lemma {:induction false} StartedChainPasses(tasks: seq<Task>, p: seq<nat>, k: nat)
    requires UniqueIds(tasks) && StartedAreReady(tasks)
    requires DependsPath(tasks, p) && !tasks[p[0]].status.Pending?
    requires 0 < k < |p|
    ensures tasks[p[k]].status.Passing?
  {
    if k > 1 {
      StartedChainPasses(tasks, p, k - 1);
    }
    assert tasks[p[k]].id in tasks[p[k - 1]].dependsOn;
    assert HasStatus(tasks, tasks[p[k]].id, Passing);
  }

  lemma {:induction false} SchedBlockedForever(s: MissionState, events: seq<Event>, i: nat)
    requires i < |s.tasks| && IsTerminal(s.tasks[i].status)
    ensures |SchedRun(s, events).tasks| == |s.tasks| && SchedRun(s, events).tasks[i] == s.tasks[i]
  {
    if events != [] {
      var n := |events| - 1;
      var t := SchedRun(s, events[..n]);
      SchedBlockedForever(s, events[..n], i);
      match events[n]
      case Activate =>
        var pick := PickActive(t.tasks);
        if pick.Some? { NextKeepsTerminal(t, StartTask(t.tasks[pick.value].id), i); }
      case Report(mut) =>
        NextKeepsTerminal(t, mut, i);
    }
  }

  /** A task stranded behind a blocked one never starts again, under any scheduler-driven continuation. */
  lemma StrandedStaysPending(s: MissionState, events: seq<Event>, i: nat)
    requires UniqueIds(s.tasks) && StartedAreReady(s.tasks)
    requires i < |s.tasks| && ReachesBlocked(s.tasks, i)
    ensures |SchedRun(s, events).tasks| == |s.tasks|
    ensures SchedRun(s, events).tasks[i].status.Pending?
  {
    var e := SchedRun(s, events);
    SchedRunShape(s, events);
    SchedRunKeepsReady(s, events);
    forall k | 0 <= k < |s.tasks| && s.tasks[k].status.Blocked? ensures e.tasks[k].status.Blocked? {
      SchedBlockedForever(s, events, k);
    }
    BlockedStaysReached(s.tasks, e.tasks, i);
    UniqueByShape(s.tasks, e.tasks);
    var p :| DependsPath(e.tasks, p) && |p| > 1 && p[0] == i && e.tasks[p[|p| - 1]].status.Blocked?;
    if !e.tasks[i].status.Pending? {
      StartedChainPasses(e.tasks, p, |p| - 1);
    }
  }

  ghost predicate SameBlocked(before: seq<Task>, after: seq<Task>)
    requires |before| == |after|
  {
    forall k :: 0 <= k < |before| ==> (before[k].status.Blocked? <==> after[k].status.Blocked?)
  }

  /** The move that brings a mission closer to its end without blocking anything. */
  ghost function Advance(tasks: seq<Task>): Event {
    if AnyActive(tasks) then
      var i :| 0 <= i < |tasks| && tasks[i].status.Active?;
      Report(CompleteTask(tasks[i].id, "", None, None))
    else Activate
  }

  /** The move is an accepted start or completion. */
  lemma AdvanceIsAccepted(s: MissionState) returns (mut: Mutation)
    requires Inv(s) && UniqueIds(s.tasks) && !Quiescent(s.tasks)
    ensures SchedNext(s, Advance(s.tasks)) == Next(s, mut)
    ensures Admissible(s, mut) && (mut.StartTask? || mut.CompleteTask?)
  {
    if AnyActive(s.tasks) {
      mut := Advance(s.tasks).mut;
    } else {
      mut := StartTask(s.tasks[PickActive(s.tasks).value].id);
    }
  }

  lemma NextKeepsBlocked(s: MissionState, mut: Mutation)
    requires mut.StartTask? || mut.CompleteTask?
    ensures |Next(s, mut).tasks| == |s.tasks| && SameBlocked(s.tasks, Next(s, mut).tasks)
  {
    if Admissible(s, mut) {
      var i := FindTask(s.tasks, mut.taskId).value;
      TransitionsAlternate(s.tasks[i].status, TargetStatus(mut));
    }
  }

  lemma AdvanceProgress(s: MissionState)
    requires Inv(s) && UniqueIds(s.tasks) && !Quiescent(s.tasks)
    ensures Inv(SchedNext(s, Advance(s.tasks))) && UniqueIds(SchedNext(s, Advance(s.tasks)).tasks)
    ensures |SchedNext(s, Advance(s.tasks)).tasks| == |s.tasks|
    ensures SameBlocked(s.tasks, SchedNext(s, Advance(s.tasks)).tasks)
    ensures TotalFuel(SchedNext(s, Advance(s.tasks)).tasks) < TotalFuel(s.tasks)
  {
    var mut := AdvanceIsAccepted(s);
    NextKeepsInv(s, mut);
    NextKeepsBlocked(s, mut);
    assert UniqueIds(Next(s, mut).tasks) by {
      NextShape(s, mut);
      UniqueByShape(s.tasks, Next(s, mut).tasks);
    }
    NextBurnsFuel(s, mut);
  }

  /** Some continuation reaches quiescence without blocking any further task. */
  lemma {:induction false} DriveToQuiescence(s: MissionState) returns (events: seq<Event>)
    requires Inv(s) && UniqueIds(s.tasks)
    ensures |SchedRun(s, events).tasks| == |s.tasks|
    ensures Quiescent(SchedRun(s, events).tasks) && SameBlocked(s.tasks, SchedRun(s, events).tasks)
    decreases TotalFuel(s.tasks)
  {
    if Quiescent(s.tasks) {
      events := [];
    } else {
      var ev := Advance(s.tasks);
      AdvanceProgress(s);
      var rest := DriveToQuiescence(SchedNext(s, ev));
      assert [ev][..0] == [] && SchedRun(s, [ev]) == SchedNext(s, ev);
      SchedRunsCompose(s, [ev], rest);
      events := [ev] + rest;
    }
  }

  /** Exact: a task can still pass in some scheduler-driven continuation if and only if it is not
      blocked and depends on nothing blocked, at any depth. */
  lemma CanStillPass(mt: MissionTemplate, s: MissionState, past: seq<Event>, i: nat)
    requires ValidStart(mt, s) && i < |mt.tasks|
    ensures |SchedRun(s, past).tasks| == |mt.tasks|
    ensures forall future :: |SchedRun(SchedRun(s, past), future).tasks| == |mt.tasks|
    ensures var now := SchedRun(s, past);
            (exists future :: SchedRun(now, future).tasks[i].status.Passing?)
            <==> !now.tasks[i].status.Blocked? && !ReachesBlocked(now.tasks, i)
  {
    var now := SchedRun(s, past);
    ReachedState(mt, s, past);
    forall future ensures |SchedRun(now, future).tasks| == |mt.tasks| {
      SchedRunShape(now, future);
    }
    if now.tasks[i].status.Blocked? || ReachesBlocked(now.tasks, i) {
      forall future ensures !SchedRun(now, future).tasks[i].status.Passing? {
        NeverPasses(now, future, i);
      }
    } else {
      var future := PassesSomeday(mt, now, i);
    }
  }

  /** What holds in any state a scheduler-driven run from an accepted template reaches. */
  lemma ReachedState(mt: MissionTemplate, s: MissionState, past: seq<Event>)
    requires ValidStart(mt, s)
    ensures var now := SchedRun(s, past);
            && |now.tasks| == |mt.tasks| && Inv(now) && UniqueIds(now.tasks) && StartedAreReady(now.tasks)
            && WellFormed(mt.tasks) && Instance(mt.tasks, now.tasks)
  {
    StartIsFresh(mt, s);
    InstanceIdsUnique(mt.tasks, s.tasks);
    SchedRunShape(s, past);
    UniqueByShape(s.tasks, SchedRun(s, past).tasks);
    SchedRunKeepsReady(s, past);
    SchedRunKeepsInv(s, past);
    InstanceByShape(mt.tasks, s.tasks, SchedRun(s, past).tasks);
  }

  lemma NeverPasses(now: MissionState, future: seq<Event>, i: nat)
    requires UniqueIds(now.tasks) && StartedAreReady(now.tasks) && i < |now.tasks|
    requires now.tasks[i].status.Blocked? || ReachesBlocked(now.tasks, i)
    ensures |SchedRun(now, future).tasks| == |now.tasks| && !SchedRun(now, future).tasks[i].status.Passing?
  {
    if now.tasks[i].status.Blocked? {
      SchedBlockedForever(now, future, i);
    } else {
      StrandedStaysPending(now, future, i);
    }
  }

  lemma PassesSomeday(mt: MissionTemplate, now: MissionState, i: nat) returns (future: seq<Event>)
    requires WellFormed(mt.tasks) && Instance(mt.tasks, now.tasks) && Inv(now) && UniqueIds(now.tasks)
    requires i < |now.tasks| && !now.tasks[i].status.Blocked? && !ReachesBlocked(now.tasks, i)
    ensures |SchedRun(now, future).tasks| == |now.tasks| && SchedRun(now, future).tasks[i].status.Passing?
  {
    future := DriveToQuiescence(now);
    var e := SchedRun(now, future);
    SchedRunShape(now, future);
    InstanceByShape(mt.tasks, now.tasks, e.tasks);
    QuiescentTasks(mt.tasks, e.tasks);
    if ReachesBlocked(e.tasks, i) {
      BlockedStaysReached(e.tasks, now.tasks, i);
    }
  }

  // ----- Runnable looks one edge deep -----

  function ExampleTask(id: string, dependsOn: seq<string>, status: TaskStatus): Task {
    Task(id, "smartquery", "", "", [], dependsOn, status, 2, "", None, None)
  }

  /** a is blocked, b waits for a, c waits for b: Runnable says yes, yet nothing is ever picked again. */
  lemma RunnableOverApproximates()
    ensures var tasks := [ExampleTask("a", [], Blocked), ExampleTask("b", ["a"], Pending), ExampleTask("c", ["b"], Pending)];
            Runnable(tasks) && Quiescent(tasks)
  {
    var tasks := [ExampleTask("a", [], Blocked), ExampleTask("b", ["a"], Pending), ExampleTask("c", ["b"], Pending)];
    assert FindTaskFrom(tasks, "b", 0) == FindTaskFrom(tasks, "b", 1) == Some(1);
    assert FindTaskFrom(tasks, "a", 0) == Some(0);
    assert HasStatus(tasks, "b", Pending) && HasStatus(tasks, "a", Blocked);
    assert forall d :: d in tasks[2].dependsOn ==> d == "b";
    assert "a" in tasks[1].dependsOn && "b" in tasks[2].dependsOn;
    assert !DependencyPermanentlyBlocked(tasks, tasks[2]);
  }

  /** Exact, in a quiescent mission: Runnable still says yes if and only if some task is stranded
      without having a blocked task among its direct dependencies. */
  lemma RunnableAtQuiescence(mt: MissionTemplate, s: MissionState, muts: seq<Mutation>)
    requires ValidStart(mt, s) && Quiescent(Run(s, muts).tasks)
    ensures var tasks := Run(s, muts).tasks;
            Runnable(tasks) <==>
            exists i :: 0 <= i < |tasks| && IsWaiting(tasks[i].status) && ReachesBlocked(tasks, i)
                        && forall d :: d in tasks[i].dependsOn ==> !HasStatus(tasks, d, Blocked)
  {
    var tasks := Run(s, muts).tasks;
    DeadlockFreedom(mt, s, muts);
    StartIsFresh(mt, s);
    RunShape(s, muts);
    forall i, d | 0 <= i < |tasks| && d in tasks[i].dependsOn ensures FindTask(tasks, d).Some? {
      assert Resolved(mt.tasks, i);
      var m :| 0 <= m < |mt.tasks| && mt.tasks[m].id == d;
      assert tasks[m].id == d;
    }
  }
}
