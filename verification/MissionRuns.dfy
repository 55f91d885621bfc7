// What every run of a mission keeps: the WIP=1 invariant, terminal tasks, and the retry-budget bound.
// A run is any sequence of requested mutations, rejected ones included.
module MissionRuns {
  import opened Wrappers
  import opened MissionTypes
  import opened StateMachine
  import opened Mutator

  ghost function Run(s: MissionState, muts: seq<Mutation>): MissionState {
    if muts == [] then s else Next(Run(s, muts[..|muts| - 1]), muts[|muts| - 1])
  }

  /** No task started yet, nothing under the cursor, outcome derived. */
  ghost predicate Fresh(s: MissionState) {
    && (forall i :: 0 <= i < |s.tasks| ==> s.tasks[i].status.Pending?)
    && s.cursor == ""
    && s.status == StatusOf(s.tasks, s.blockedRoot)
  }

  ghost predicate AtMostOneActive(tasks: seq<Task>) {
    forall i, j :: 0 <= i < |tasks| && 0 <= j < |tasks| && tasks[i].status.Active? && tasks[j].status.Active? ==> i == j
  }

  /** WIP=1, the cursor names the active task, and the outcome is the derived one. */
  ghost predicate Inv(s: MissionState) {
    && AtMostOneActive(s.tasks)
    && (forall i :: 0 <= i < |s.tasks| && s.tasks[i].status.Active? ==>
          FindTask(s.tasks, s.tasks[i].id) == Some(i) && s.cursor == s.tasks[i].id)
    && (!AnyActive(s.tasks) ==> s.cursor == "")
    && s.status == StatusOf(s.tasks, s.blockedRoot)
  }

  // ----- one step -----

  /** A step changes nothing but statuses, budgets and outcome fields of single tasks. */
  ghost predicate SameShape(before: seq<Task>, after: seq<Task>) {
    && |before| == |after|
    && forall i :: 0 <= i < |before| ==> before[i].id == after[i].id && before[i].dependsOn == after[i].dependsOn
  }

  lemma NextShape(s: MissionState, mut: Mutation)
    ensures SameShape(s.tasks, Next(s, mut).tasks)
    ensures Next(s, mut).blockedRoot == s.blockedRoot
  {
  }

  lemma FindTaskByShape(before: seq<Task>, after: seq<Task>, id: string)
    requires SameShape(before, after)
    ensures FindTask(before, id) == FindTask(after, id)
  {
  }

  lemma NextKeepsInv(s: MissionState, mut: Mutation)
    requires Inv(s)
    ensures Inv(Next(s, mut))
  {
    if Admissible(s, mut) && IsTaskScoped(mut) {
      var t := Next(s, mut);
      var i := FindTask(s.tasks, mut.taskId).value;
      TransitionsAlternate(s.tasks[i].status, TargetStatus(mut));
      if mut.StartTask? {
        assert !AnyActive(s.tasks);
        assert t.tasks[i].status.Active?;
      } else {
        assert s.tasks[i].status.Active?;
        assert !AnyActive(t.tasks);
      }
      forall k | 0 <= k < |t.tasks| && t.tasks[k].status.Active?
        ensures FindTask(t.tasks, t.tasks[k].id) == Some(k) && t.cursor == t.tasks[k].id
      {
        FindTaskByShape(s.tasks, t.tasks, mut.taskId);
      }
    }
  }

  /** A terminal task's whole record is out of reach of every later mutation. */
  lemma NextKeepsTerminal(s: MissionState, mut: Mutation, i: nat)
    requires i < |s.tasks| && IsTerminal(s.tasks[i].status)
    ensures Next(s, mut).tasks[i] == s.tasks[i]
  {
    if Admissible(s, mut) && IsTaskScoped(mut) {
      var k := FindTask(s.tasks, mut.taskId).value;
      TransitionsAlternate(s.tasks[k].status, TargetStatus(mut));
    }
  }

  // ----- whole runs -----

  /** In every run of a fresh mission, whatever is requested, the invariant holds at the end (hence always). */
  lemma {:induction false} InvariantOverRuns(s: MissionState, muts: seq<Mutation>)
    requires Fresh(s)
    ensures Inv(Run(s, muts))
  {
    if muts != [] {
      InvariantOverRuns(s, muts[..|muts| - 1]);
      NextKeepsInv(Run(s, muts[..|muts| - 1]), muts[|muts| - 1]);
    }
  }

  lemma {:induction false} RunShape(s: MissionState, muts: seq<Mutation>)
    ensures SameShape(s.tasks, Run(s, muts).tasks)
    ensures Run(s, muts).blockedRoot == s.blockedRoot
  {
    if muts != [] {
      RunShape(s, muts[..|muts| - 1]);
    }
  }

  /** Once a task is passing or blocked its record never changes again. */
  lemma {:induction false} TerminalForever(s: MissionState, muts: seq<Mutation>, k: nat, i: nat)
    requires k <= |muts| && i < |s.tasks|
    requires |Run(s, muts[..k]).tasks| == |s.tasks|
    requires IsTerminal(Run(s, muts[..k]).tasks[i].status)
    ensures |Run(s, muts).tasks| == |s.tasks|
    ensures Run(s, muts).tasks[i] == Run(s, muts[..k]).tasks[i]
    decreases |muts|
  {
    if k == |muts| {
      assert muts[..k] == muts;
    } else {
      var n := |muts| - 1;
      assert muts[..n][..k] == muts[..k];
      TerminalForever(s, muts[..n], k, i);
      NextKeepsTerminal(Run(s, muts[..n]), muts[n], i);
    }
  }

  // ----- bounded runs -----

  function NonNeg(n: int): nat {
    if n < 0 then 0 else n
  }

  /** How many more accepted mutations one task can still see. */
  function Fuel(t: Task): nat {
    if IsTerminal(t.status) then 0
    else 2 * NonNeg(t.retryBudget) + (if t.status.Active? then 1 else 2)
  }

  function TotalFuel(tasks: seq<Task>): nat {
    if tasks == [] then 0 else TotalFuel(tasks[..|tasks| - 1]) + Fuel(tasks[|tasks| - 1])
  }

  /** What a fresh mission may spend: 2 * max(0, RetryBudget) + 2 per task. */
  function BudgetBound(tasks: seq<Task>): nat {
    if tasks == [] then 0
    else BudgetBound(tasks[..|tasks| - 1]) + 2 * NonNeg(tasks[|tasks| - 1].retryBudget) + 2
  }

  /** Number of accepted start, complete, block and retry mutations in a run. */
  ghost function Accepted(s: MissionState, muts: seq<Mutation>): nat {
    if muts == [] then 0
    else
      var n := |muts| - 1;
      Accepted(s, muts[..n]) + (if IsTaskScoped(muts[n]) && Admissible(Run(s, muts[..n]), muts[n]) then 1 else 0)
  }

  lemma {:induction false} TotalFuelUpdate(tasks: seq<Task>, i: nat, t: Task)
    requires i < |tasks|
    ensures TotalFuel(tasks[i := t]) == TotalFuel(tasks) - Fuel(tasks[i]) + Fuel(t)
  {
    var n := |tasks| - 1;
    if i == n {
      assert tasks[i := t][..n] == tasks[..n];
    } else {
      assert tasks[i := t][..n] == tasks[..n][i := t];
      TotalFuelUpdate(tasks[..n], i, t);
    }
  }

  /** Every accepted start, complete, block or retry burns fuel; nothing ever adds any. */
  lemma NextBurnsFuel(s: MissionState, mut: Mutation)
    ensures TotalFuel(Next(s, mut).tasks) + (if IsTaskScoped(mut) && Admissible(s, mut) then 1 else 0)
            <= TotalFuel(s.tasks)
  {
    if Admissible(s, mut) && IsTaskScoped(mut) {
      var i := FindTask(s.tasks, mut.taskId).value;
      TransitionsAlternate(s.tasks[i].status, TargetStatus(mut));
      TotalFuelUpdate(s.tasks, i, TaskAfter(s.tasks[i], mut));
    }
  }

  lemma {:induction false} RunBurnsFuel(s: MissionState, muts: seq<Mutation>)
    ensures Accepted(s, muts) + TotalFuel(Run(s, muts).tasks) <= TotalFuel(s.tasks)
  {
    if muts != [] {
      RunBurnsFuel(s, muts[..|muts| - 1]);
      NextBurnsFuel(Run(s, muts[..|muts| - 1]), muts[|muts| - 1]);
    }
  }

  lemma {:induction false} FreshFuel(tasks: seq<Task>)
    requires forall i :: 0 <= i < |tasks| ==> tasks[i].status.Pending?
    ensures TotalFuel(tasks) == BudgetBound(tasks)
  {
    if tasks != [] {
      FreshFuel(tasks[..|tasks| - 1]);
    }
  }

  /** A run of a fresh mission accepts at most the budgeted number of task mutations, however long it is. */
  lemma BoundedRuns(s: MissionState, muts: seq<Mutation>)
    requires Fresh(s)
    ensures Accepted(s, muts) <= BudgetBound(s.tasks)
  {
    RunBurnsFuel(s, muts);
    FreshFuel(s.tasks);
  }

  // ----- the bound is reached -----

  lemma {:induction false} RunsCompose(s: MissionState, a: seq<Mutation>, b: seq<Mutation>)
    ensures Run(s, a + b) == Run(Run(s, a), b)
    ensures Accepted(s, a + b) == Accepted(s, a) + Accepted(Run(s, a), b)
  {
    if b == [] {
      assert a + b == a;
    } else {
      var n := |b| - 1;
      assert (a + b)[..|a + b| - 1] == a + b[..n];
      RunsCompose(s, a, b[..n]);
    }
  }

  /** The last mutation of an attempt: retry while there is budget, otherwise complete. */
  function EndAttempt(t: Task): Mutation {
    if t.retryBudget > 0 then RetryTask(t.id) else CompleteTask(t.id, "", None, None)
  }

  /** One attempt: a start and its end, both accepted, touching task i alone. */
  lemma Attempt(s: MissionState, i: nat)
    requires i < |s.tasks| && IsWaiting(s.tasks[i].status) && !AnyActive(s.tasks)
    requires FindTask(s.tasks, s.tasks[i].id) == Some(i)
    ensures var t := s.tasks[i];
            var started, ended := Next(s, StartTask(t.id)), Next(Next(s, StartTask(t.id)), EndAttempt(t));
            && Admissible(s, StartTask(t.id)) && Admissible(started, EndAttempt(t))
            && ended.tasks == s.tasks[i := TaskAfter(TaskAfter(t, StartTask(t.id)), EndAttempt(t))]
            && FindTask(ended.tasks, t.id) == Some(i)
            && !AnyActive(ended.tasks)
  {
    var t := s.tasks[i];
    var started := Next(s, StartTask(t.id));
    FindTaskByShape(s.tasks, started.tasks, t.id);
    var ended := Next(started, EndAttempt(t));
    FindTaskByShape(s.tasks, ended.tasks, t.id);
  }

  lemma RunTwo(s: MissionState, a: Mutation, b: Mutation)
    requires IsTaskScoped(a) && IsTaskScoped(b)
    requires Admissible(s, a) && Admissible(Next(s, a), b)
    ensures Run(s, [a, b]) == Next(Next(s, a), b) && Accepted(s, [a, b]) == 2
  {
    assert [a, b][..1] == [a] && [a][..0] == [];
    assert Run(s, [a]) == Next(s, a) && Accepted(s, [a]) == 1;
  }

  /** One task alone can use up all its fuel: every retry it has, then a completion. */
  lemma {:induction false} SpendTask(s: MissionState, i: nat) returns (muts: seq<Mutation>)
    requires i < |s.tasks| && IsWaiting(s.tasks[i].status) && !AnyActive(s.tasks)
    requires FindTask(s.tasks, s.tasks[i].id) == Some(i)
    ensures Accepted(s, muts) == Fuel(s.tasks[i])
    ensures SameShape(s.tasks, Run(s, muts).tasks) && !AnyActive(Run(s, muts).tasks)
    ensures forall k :: 0 <= k < |s.tasks| && k != i ==> Run(s, muts).tasks[k] == s.tasks[k]
    decreases NonNeg(s.tasks[i].retryBudget)
  {
    var t := s.tasks[i];
    Attempt(s, i);
    muts := [StartTask(t.id), EndAttempt(t)];
    RunTwo(s, muts[0], muts[1]);
    RunShape(s, muts);
    if t.retryBudget > 0 {
      var ended := Run(s, muts);
      var rest := SpendTask(ended, i);
      RunsCompose(s, muts, rest);
      muts := muts + rest;
    }
  }

  lemma {:induction false} SpendFrom(s: MissionState, n: nat) returns (muts: seq<Mutation>)
    requires n <= |s.tasks| && UniqueIds(s.tasks) && !AnyActive(s.tasks)
    requires forall i :: 0 <= i < n ==> s.tasks[i].status.Pending?
    ensures Accepted(s, muts) == BudgetBound(s.tasks[..n])
    decreases n
  {
    if n == 0 {
      muts := [];
    } else {
      var first := SpendTask(s, n - 1);
      var rest := SpendFrom(Run(s, first), n - 1);
      RunsCompose(s, first, rest);
      muts := first + rest;
      assert Run(s, first).tasks[..n - 1] == s.tasks[..n - 1];
      assert s.tasks[..n][..n - 1] == s.tasks[..n - 1];
    }
  }

  /** The bound cannot be lowered: with unique ids some run accepts exactly that many mutations. */
  lemma BoundIsTight(s: MissionState)
    requires Fresh(s) && UniqueIds(s.tasks)
    ensures exists muts :: Accepted(s, muts) == BudgetBound(s.tasks)
  {
    var muts := SpendFrom(s, |s.tasks|);
    assert s.tasks[..|s.tasks|] == s.tasks;
  }
}
