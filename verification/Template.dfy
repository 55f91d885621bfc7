// Mission templates: validation by a three-colour depth-first walk, and instantiation
// (pkg/mission/template.go).
module Template {
  import opened Wrappers
  import opened MissionTypes
  import opened StateMachine
  import opened Graph
  import Mutator

  datatype TemplateTask = TemplateTask(
    id: string,
    kind: string,
    behavior: string,
    verification: string,
    covers: seq<string>,
    dependsOn: seq<string>,
    retryBudget: int)

  datatype MissionTemplate = MissionTemplate(
    id: string,
    tasks: seq<TemplateTask>,
    synthesisTemplate: string,
    caveats: seq<string>)

  datatype ValidationError =
    | EmptyId
    | DuplicateId(id: string)
    | UnknownDependency(task: string, dep: string)
    | DependencyCycle(id: string)

  // ----- what a well-formed template is -----

  /** The dependency graph of a task list; of two tasks with one id the later one counts. */
  function GraphOf(tasks: seq<TemplateTask>): Deps {
    if tasks == [] then map[]
    else GraphOf(tasks[..|tasks| - 1])[tasks[|tasks| - 1].id := tasks[|tasks| - 1].dependsOn]
  }

  ghost predicate HasId(tasks: seq<TemplateTask>, id: string) {
    exists i :: 0 <= i < |tasks| && tasks[i].id == id
  }

  /** The id of task i is empty or taken by an earlier task. */
  ghost predicate BadId(tasks: seq<TemplateTask>, i: nat)
    requires i < |tasks|
  {
    tasks[i].id == "" || HasId(tasks[..i], tasks[i].id)
  }

  ghost predicate Resolved(tasks: seq<TemplateTask>, i: nat)
    requires i < |tasks|
  {
    forall d :: d in tasks[i].dependsOn ==> HasId(tasks, d)
  }

  ghost predicate GoodIds(tasks: seq<TemplateTask>) {
    forall i :: 0 <= i < |tasks| ==> !BadId(tasks, i)
  }

  ghost predicate AllResolved(tasks: seq<TemplateTask>) {
    forall i :: 0 <= i < |tasks| ==> Resolved(tasks, i)
  }

  ghost predicate WellFormed(tasks: seq<TemplateTask>) {
    GoodIds(tasks) && AllResolved(tasks) && Acyclic(GraphOf(tasks))
  }

  /** The error names the first thing wrong, in the order ids, then references, then cycles. */
  ghost predicate Explains(tasks: seq<TemplateTask>, e: ValidationError) {
    match e
    case EmptyId =>
      exists i :: 0 <= i < |tasks| && tasks[i].id == "" && GoodIds(tasks[..i])
    case DuplicateId(id) =>
      exists i :: 0 <= i < |tasks| && tasks[i].id == id && id != "" && HasId(tasks[..i], id) && GoodIds(tasks[..i])
    case UnknownDependency(task, dep) =>
      && GoodIds(tasks)
      && exists i :: 0 <= i < |tasks| && tasks[i].id == task && dep in tasks[i].dependsOn && !HasId(tasks, dep)
                     && forall j :: 0 <= j < i ==> Resolved(tasks, j)
    case DependencyCycle(id) =>
      GoodIds(tasks) && AllResolved(tasks) && OnCycle(GraphOf(tasks), id)
  }

  lemma {:induction false} GraphKeys(tasks: seq<TemplateTask>, id: string)
    ensures id in GraphOf(tasks) <==> HasId(tasks, id)
  {
    if tasks != [] {
      var n := |tasks| - 1;
      GraphKeys(tasks[..n], id);
      if id == tasks[n].id {
      } else if HasId(tasks, id) {
        var i :| 0 <= i < |tasks| && tasks[i].id == id;
        assert tasks[..n][i].id == id;
      }
    }
  }

  /** With unique ids the graph holds every task's own dependency list. */
  lemma {:induction false} GraphEntry(tasks: seq<TemplateTask>, i: nat)
    requires GoodIds(tasks) && i < |tasks|
    ensures tasks[i].id in GraphOf(tasks) && GraphOf(tasks)[tasks[i].id] == tasks[i].dependsOn
  {
    var n := |tasks| - 1;
    if i < n {
      assert !BadId(tasks, n);
      assert tasks[..n][i].id == tasks[i].id;
      GoodIdsPrefix(tasks, n);
      GraphEntry(tasks[..n], i);
    }
  }

  lemma GoodIdsPrefix(tasks: seq<TemplateTask>, n: nat)
    requires GoodIds(tasks) && n <= |tasks|
    ensures GoodIds(tasks[..n])
  {
    forall i | 0 <= i < n ensures !BadId(tasks[..n], i) {
      assert !BadId(tasks, i);
      assert tasks[..n][..i] == tasks[..i];
    }
  }

  // ----- the walk -----

  datatype Color = White | Grey | Black

  function ColorIn(color: map<string, Color>, id: string): Color {
    if id in color then color[id] else White
  }

  /** Grey ids are the current search path; black ids are finished, dependencies first. */
  ghost predicate Consistent(g: Deps, color: map<string, Color>, path: seq<string>, finished: seq<string>) {
    && (forall x :: x in color ==> !color[x].White?)
    && (forall x :: ColorIn(color, x).Grey? <==> x in path)
    && (forall x :: ColorIn(color, x).Black? <==> x in finished)
    && Distinct(finished)
    && DepsFirst(g, finished)
  }

  lemma Enter(g: Deps, color: map<string, Color>, path: seq<string>, finished: seq<string>, id: string)
    requires Consistent(g, color, path, finished) && ColorIn(color, id).White?
    ensures Consistent(g, color[id := Grey], path + [id], finished)
    ensures id !in path
  {
  }

  lemma Leave(g: Deps, color: map<string, Color>, path: seq<string>, finished: seq<string>, id: string)
    requires Consistent(g, color, path + [id], finished) && id !in path
    requires forall d :: d in DepsOf(g, id) ==> d in finished
    ensures Consistent(g, color[id := Black], path, finished + [id])
  {
    assert id in path + [id];
    assert ColorIn(color, id).Grey? && id !in finished;
    Finish(g, finished, id);
    var c := color[id := Black];
    forall x ensures ColorIn(c, x).Grey? <==> x in path {
      assert ColorIn(color, x).Grey? <==> x in path + [id];
      assert x != id ==> ColorIn(c, x) == ColorIn(color, x);
    }
    forall x ensures ColorIn(c, x).Black? <==> x in finished + [id] {
      assert ColorIn(color, x).Black? <==> x in finished;
      assert x != id ==> ColorIn(c, x) == ColorIn(color, x);
    }
  }

  class CycleFinder {
    const deps: Deps
    var color: map<string, Color>
    ghost var finished: seq<string>

    constructor (deps: Deps)
      ensures this.deps == deps && color == map[] && finished == []
    {
      this.deps := deps;
      color := map[];
      finished := [];
    }

    function ColorOf(id: string): Color
      reads this
    {
      ColorIn(color, id)
    }

    ghost predicate Valid(path: seq<string>)
      reads this
    {
      Consistent(deps, color, path, finished)
    }

    /** Explores everything below a white id; the answer is an id on a cycle, or "" and the id is finished. */
    method Visit(id: string, ghost path: seq<string>, ghost universe: set<string>) returns (c: string)
      requires "" !in deps
      requires Valid(path) && ColorOf(id).White? && IsPath(deps, path + [id])
      requires id in universe && color.Keys <= universe
      requires forall a, d :: a in universe && d in DepsOf(deps, a) ==> d in universe
      modifies this
      ensures c != "" ==> OnCycle(deps, c)
      ensures c == "" ==> Valid(path) && id in finished && color.Keys <= universe
      ensures c == "" ==> old(finished) <= finished && old(color.Keys) <= color.Keys
      decreases universe - color.Keys
    {
      ghost var here := path + [id];
      Enter(deps, color, path, finished, id);
      color := color[id := Grey];
      var ds := DepsOf(deps, id);
      for k := 0 to |ds|
        invariant Valid(here) && id in color && color.Keys <= universe
        invariant old(color.Keys) <= color.Keys
        invariant old(finished) <= finished
        invariant forall j :: 0 <= j < k ==> ds[j] in finished
      {
        var dep := ds[k];
        assert Edge(deps, here[|here| - 1], dep);
        if ColorOf(dep).Grey? {
          BackEdgeClosesCycle(deps, here, dep);
          CycleNodeHasDeps(deps, dep);
          return dep;
        }
        if ColorOf(dep).White? {
          PathExtends(deps, here, dep);
          c := Visit(dep, here, universe);
          if c != "" {
            return;
          }
        }
      }
      Leave(deps, color, path, finished, id);
      color := color[id := Black];
      finished := finished + [id];
      c := "";
    }
  }

  lemma CycleNodeHasDeps(g: Deps, id: string)
    requires OnCycle(g, id)
    ensures id in g
  {
    var p :| IsCycle(g, p) && p[0] == id;
    assert Edge(g, p[0], p[1]);
  }

  lemma Finish(g: Deps, finished: seq<string>, id: string)
    requires Distinct(finished) && DepsFirst(g, finished) && id !in finished
    requires forall d :: d in DepsOf(g, id) ==> d in finished
    ensures Distinct(finished + [id]) && DepsFirst(g, finished + [id])
  {
    var f := finished + [id];
    forall k, d | 0 <= k < |f| && d in DepsOf(g, f[k]) ensures d in f[..k] {
      if k < |finished| {
        assert f[..k] == finished[..k];
      } else {
        assert f[..k] == finished;
      }
    }
  }

  /** The map the search reads. */
  method CollectDeps(tasks: seq<TemplateTask>) returns (deps: Deps)
    ensures deps == GraphOf(tasks)
  {
    deps := map[];
    for k := 0 to |tasks|
      invariant deps == GraphOf(tasks[..k])
    {
      assert tasks[..k + 1][..k] == tasks[..k];
      deps := deps[tasks[k].id := tasks[k].dependsOn];
    }
    assert tasks[..|tasks|] == tasks;
  }

  /** Exact: "" means no cycle anywhere, and any other answer is an id that lies on one. */
  method FirstCycle(tasks: seq<TemplateTask>) returns (c: string)
    requires forall i :: 0 <= i < |tasks| ==> tasks[i].id != ""
    ensures c == "" <==> Acyclic(GraphOf(tasks))
    ensures c != "" ==> OnCycle(GraphOf(tasks), c) && HasId(tasks, c)
  {
    var deps := CollectDeps(tasks);
    GraphKeys(tasks, "");
    ghost var universe := deps.Keys + (set a, d | a in deps && d in deps[a] :: d);
    var finder := new CycleFinder(deps);
    for k := 0 to |tasks|
      invariant finder.deps == deps
      invariant finder.Valid([]) && finder.color.Keys <= universe
      invariant forall j :: 0 <= j < k ==> tasks[j].id in finder.finished
    {
      GraphKeys(tasks, tasks[k].id);
      if finder.ColorOf(tasks[k].id).White? {
        c := finder.Visit(tasks[k].id, [], universe);
        if c != "" {
          CycleNodeHasDeps(deps, c);
          GraphKeys(tasks, c);
          return;
        }
      }
    }
    forall id | id in deps ensures id in finder.finished {
      GraphKeys(tasks, id);
    }
    OrderedGraphIsAcyclic(deps, finder.finished);
    c := "";
  }

  /** Accepts exactly the well-formed templates, and otherwise names the first fault. */
  method Validate(mt: MissionTemplate) returns (err: Option<ValidationError>)
    ensures err.None? <==> WellFormed(mt.tasks)
    ensures err.Some? ==> Explains(mt.tasks, err.value)
  {
    var tasks := mt.tasks;
    var ids: set<string> := {};
    for k := 0 to |tasks|
      invariant GoodIds(tasks[..k])
      invariant forall x :: x in ids <==> HasId(tasks[..k], x)
    {
      if tasks[k].id == "" {
        assert BadId(tasks, k);
        return Some(EmptyId);
      }
      if tasks[k].id in ids {
        assert BadId(tasks, k);
        return Some(DuplicateId(tasks[k].id));
      }
      ids := ids + {tasks[k].id};
      ExtendIds(tasks, k);
    }
    assert tasks[..|tasks|] == tasks;
    for k := 0 to |tasks|
      invariant forall j :: 0 <= j < k ==> Resolved(tasks, j)
    {
      for d := 0 to |tasks[k].dependsOn|
        invariant forall j :: 0 <= j < d ==> HasId(tasks, tasks[k].dependsOn[j])
      {
        if tasks[k].dependsOn[d] !in ids {
          assert !Resolved(tasks, k);
          return Some(UnknownDependency(tasks[k].id, tasks[k].dependsOn[d]));
        }
      }
    }
    forall i | 0 <= i < |tasks| ensures tasks[i].id != "" {
      assert !BadId(tasks, i);
    }
    var cyc := FirstCycle(tasks);
    err := if cyc != "" then Some(DependencyCycle(cyc)) else None;
  }

  lemma ExtendIds(tasks: seq<TemplateTask>, k: nat)
    requires k < |tasks| && GoodIds(tasks[..k]) && !BadId(tasks, k)
    ensures GoodIds(tasks[..k + 1])
    ensures forall x :: HasId(tasks[..k + 1], x) <==> HasId(tasks[..k], x) || x == tasks[k].id
  {
    var p := tasks[..k + 1];
    assert p[..k] == tasks[..k] && p[k] == tasks[k];
    forall i | 0 <= i < |p| ensures !BadId(p, i) {
      if i < k {
        assert !BadId(tasks[..k], i);
        assert p[..i] == tasks[..k][..i];
      }
    }
    forall x ensures HasId(p, x) <==> HasId(tasks[..k], x) || x == tasks[k].id {
      if HasId(p, x) && x != tasks[k].id {
        var i :| 0 <= i < |p| && p[i].id == x;
        assert tasks[..k][i].id == x;
      }
      if HasId(tasks[..k], x) {
        var i :| 0 <= i < k && tasks[..k][i].id == x;
        assert p[i].id == x;
      }
    }
  }

  // ----- instantiation -----

  const DEFAULT_RETRY_BUDGET := 2

  function InitialTask(tt: TemplateTask): Task {
    Task(tt.id, tt.kind, tt.behavior, tt.verification, tt.covers, tt.dependsOn, Pending,
         if tt.retryBudget == 0 then DEFAULT_RETRY_BUDGET else tt.retryBudget, "", None, None)
  }

  /** The tasks carry the template's ids and dependencies, position by position. */
  ghost predicate Instance(tts: seq<TemplateTask>, tasks: seq<Task>) {
    && |tasks| == |tts|
    && forall i :: 0 <= i < |tts| ==> tasks[i].id == tts[i].id && tasks[i].dependsOn == tts[i].dependsOn
  }

  /** The state Instantiate starts every mission in. */
  ghost predicate InitialState(mt: MissionTemplate, s: MissionState) {
    && |s.tasks| == |mt.tasks|
    && (forall i :: 0 <= i < |mt.tasks| ==> s.tasks[i] == InitialTask(mt.tasks[i]))
    && s.cursor == "" && s.stepResults == map[] && s.blockedRoot == None
    && s.synthesis == Synthesis(mt.synthesisTemplate, mt.caveats, "")
    && s.status == MissionActive
  }

  method Instantiate(mt: MissionTemplate) returns (m: Mutator.Mission)
    ensures fresh(m)
    ensures InitialState(mt, m.State())
    ensures |m.tasks| == |mt.tasks| && forall i :: 0 <= i < |mt.tasks| ==>
              var tt := mt.tasks[i];
              m.tasks[i] == Task(tt.id, tt.kind, tt.behavior, tt.verification, tt.covers, tt.dependsOn, Pending,
                                 if tt.retryBudget == 0 then 2 else tt.retryBudget, "", None, None)
  {
    var tasks: seq<Task> := [];
    for k := 0 to |mt.tasks|
      invariant |tasks| == k
      invariant forall i :: 0 <= i < k ==> tasks[i] == InitialTask(mt.tasks[i])
    {
      var tt := mt.tasks[k];
      var rb := tt.retryBudget;
      if rb == 0 {
        rb := DEFAULT_RETRY_BUDGET;
      }
      tasks := tasks + [Task(tt.id, tt.kind, tt.behavior, tt.verification, tt.covers, tt.dependsOn,
                             Pending, rb, "", None, None)];
    }
    m := new Mutator.Mission(tasks, mt.synthesisTemplate, mt.caveats);
    assert |tasks| > 0 ==> !IsTerminal(tasks[0].status);
  }
}
