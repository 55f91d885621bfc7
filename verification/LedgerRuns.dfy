// Runs of the feature ledger: WIP=1, the attempt bound, when a ledger can settle, and the step-for-step
// agreement with a dependency-free mission.
module LedgerRuns {
  import opened Wrappers
  import opened FeatureLedgers
  import A = AnalysisPattern
  import MT = MissionTypes
  import SM = StateMachine
  import M = Mutator
  import P = Pick
  import R = MissionRuns

  ghost function LRun(view: seq<RowView>, reqs: seq<Request>): seq<RowView> {
    if reqs == [] then view else After(LRun(view, reqs[..|reqs| - 1]), reqs[|reqs| - 1])
  }

  ghost predicate Untouched(view: seq<RowView>) {
    forall i :: 0 <= i < |view| ==> view[i].state.NotStarted? && view[i].retryCount == 0
  }

  // ----- one request -----

  lemma AfterCases(view: seq<RowView>, req: Request)
    ensures Grants(view, req) ==>
              exists i :: IsRowOf(view, req.id, i) && GrantsAt(view, req, i)
                          && After(view, req) == view[i := RowAfter(view[i], req)]
    ensures !Grants(view, req) ==> After(view, req) == view
    ensures |After(view, req)| == |view|
    ensures forall k :: 0 <= k < |view| ==> After(view, req)[k].feature == view[k].feature
  {
    if Grants(view, req) {
      var i :| IsRowOf(view, req.id, i) && GrantsAt(view, req, i);
      AfterAt(view, req, i);
    }
  }

  lemma {:induction false} LRunFeatures(view: seq<RowView>, reqs: seq<Request>)
    ensures |LRun(view, reqs)| == |view|
    ensures forall k :: 0 <= k < |view| ==> LRun(view, reqs)[k].feature == view[k].feature
  {
    if reqs != [] {
      LRunFeatures(view, reqs[..|reqs| - 1]);
      AfterCases(LRun(view, reqs[..|reqs| - 1]), reqs[|reqs| - 1]);
    }
  }

  // ----- WIP=1 and the attempt bound -----

  ghost predicate AtMostOneInFlight(view: seq<RowView>) {
    forall i, j :: 0 <= i < |view| && 0 <= j < |view| && view[i].state.InFlight? && view[j].state.InFlight? ==> i == j
  }

  /** How often row k has been activated in a run. */
  ghost function Attempts(view: seq<RowView>, reqs: seq<Request>, k: nat): nat {
    if reqs == [] then 0
    else
      var n := |reqs| - 1;
      var now := LRun(view, reqs[..n]);
      Attempts(view, reqs[..n], k) +
      (if reqs[n].Activate? && IsRowOf(now, reqs[n].id, k) && Grants(now, reqs[n]) then 1 else 0)
  }

  /** Activations so far: one per retry already spent, plus the current or final one. */
  function AttemptsOf(r: RowView): int {
    r.retryCount + if r.state.NotStarted? then 0 else 1
  }

  /** In every run at most one feature is active, and no feature is attempted more than 1 + RETRY_BUDGET times. */
  lemma {:induction false} AttemptBound(view: seq<RowView>, reqs: seq<Request>, k: nat)
    requires Untouched(view) && k < |view|
    ensures AtMostOneInFlight(LRun(view, reqs))
    ensures |LRun(view, reqs)| == |view|
    ensures 0 <= LRun(view, reqs)[k].retryCount <= RETRY_BUDGET
    ensures Attempts(view, reqs, k) == AttemptsOf(LRun(view, reqs)[k]) <= 1 + RETRY_BUDGET
  {
    if reqs != [] {
      var n := |reqs| - 1;
      var now := LRun(view, reqs[..n]);
      AttemptBound(view, reqs[..n], k);
      AfterCases(now, reqs[n]);
      if Grants(now, reqs[n]) {
        var i :| IsRowOf(now, reqs[n].id, i) && GrantsAt(now, reqs[n], i)
                 && After(now, reqs[n]) == now[i := RowAfter(now[i], reqs[n])];
      }
    }
  }

  // ----- when a ledger can settle -----

  ghost predicate UniqueFeatures(view: seq<RowView>) {
    forall i, j :: 0 <= i < j < |view| ==> view[i].feature.id != view[j].feature.id
  }

  /** A row shadowed by a later row of the same id is never started by any run. */
  lemma {:induction false} ShadowedNeverStarts(view: seq<RowView>, reqs: seq<Request>, i: nat, j: nat)
    requires i < j < |view| && view[i].feature.id == view[j].feature.id && view[i].state.NotStarted?
    ensures |LRun(view, reqs)| == |view| && LRun(view, reqs)[i] == view[i]
  {
    LRunFeatures(view, reqs);
    if reqs != [] {
      var n := |reqs| - 1;
      ShadowedNeverStarts(view, reqs[..n], i, j);
      LRunFeatures(view, reqs[..n]);
      AfterCases(LRun(view, reqs[..n]), reqs[n]);
    }
  }

  const NO_EVIDENCE := Evidence("", "", "", "", 0, "", "")

  /** Activating and passing one feature, when nothing is active. */
  lemma SettleOne(now: seq<RowView>, i: nat)
    requires i < |now| && IsRowOf(now, now[i].feature.id, i) && GrantsAt(now, Activate(now[i].feature.id), i)
    ensures var id := now[i].feature.id;
            var e := After(After(now, Activate(id)), Pass(id, NO_EVIDENCE));
            |e| == |now| && e[i].state.Passed? && forall k :: 0 <= k < |now| && k != i ==> e[k] == now[k]
  {
    var id := now[i].feature.id;
    AfterAt(now, Activate(id), i);
    var mid := After(now, Activate(id));
    assert IsRowOf(mid, id, i) && GrantsAt(mid, Pass(id, NO_EVIDENCE), i);
    AfterAt(mid, Pass(id, NO_EVIDENCE), i);
  }

  lemma RunTwoMore(view: seq<RowView>, reqs: seq<Request>, a: Request, b: Request)
    ensures LRun(view, reqs + [a] + [b]) == After(After(LRun(view, reqs), a), b)
  {
    assert (reqs + [a])[..|reqs|] == reqs;
    assert (reqs + [a] + [b])[..|reqs| + 1] == reqs + [a];
  }

  /** Settles the first n features one after another. */
  lemma {:induction false} SettleFirst(view: seq<RowView>, n: nat) returns (reqs: seq<Request>)
    requires Untouched(view) && UniqueFeatures(view) && n <= |view|
    ensures |LRun(view, reqs)| == |view|
    ensures forall k :: 0 <= k < n ==> LRun(view, reqs)[k].state.Passed?
    ensures forall k :: n <= k < |view| ==> LRun(view, reqs)[k] == view[k]
  {
    if n == 0 {
      reqs := [];
    } else {
      var before := SettleFirst(view, n - 1);
      var now := LRun(view, before);
      LRunFeatures(view, before);
      var id := view[n - 1].feature.id;
      assert IsRowOf(now, id, n - 1) && GrantsAt(now, Activate(id), n - 1);
      SettleOne(now, n - 1);
      RunTwoMore(view, before, Activate(id), Pass(id, NO_EVIDENCE));
      reqs := before + [Activate(id)] + [Pass(id, NO_EVIDENCE)];
    }
  }

  /** Exact: a new ledger can reach the state in which the synthesizer may run iff its feature ids are unique. */
  lemma CanSettle(view: seq<RowView>)
    requires Untouched(view)
    ensures (exists reqs :: Settled(LRun(view, reqs))) <==> UniqueFeatures(view)
  {
    if UniqueFeatures(view) {
      var reqs := SettleFirst(view, |view|);
      assert Settled(LRun(view, reqs));
    } else {
      var i, j :| 0 <= i < j < |view| && view[i].feature.id == view[j].feature.id;
      forall reqs ensures !Settled(LRun(view, reqs)) {
        ShadowedNeverStarts(view, reqs, i, j);
      }
    }
  }

  // ----- agreement with the mission machine -----

  /** A retried not-started row is what a mission calls pending_retry. */
  function StatusFor(r: RowView): MT.TaskStatus {
    match r.state
    case NotStarted => if r.retryCount == 0 then MT.Pending else MT.PendingRetry
    case InFlight => MT.Active
    case Passed => MT.Passing
    case GivenUp => MT.Blocked
  }

  ghost predicate SameTask(r: RowView, t: MT.Task) {
    && t.id == r.feature.id && t.dependsOn == []
    && t.status == StatusFor(r)
    && t.retryBudget == RETRY_BUDGET - r.retryCount
    && r.retryCount >= 0
  }

  /** Position by position, the same machine state. */
  ghost predicate Bisimilar(view: seq<RowView>, tasks: seq<MT.Task>) {
    |view| == |tasks| && forall i :: 0 <= i < |view| ==> SameTask(view[i], tasks[i])
  }

  /** The same request in the two vocabularies; results and reasons attached to it are free. */
  ghost predicate SameRequest(req: Request, mut: M.Mutation) {
    M.IsTaskScoped(mut) && mut.taskId == req.id &&
    match req
    case Activate(_) => mut.StartTask?
    case Pass(_, _) => mut.CompleteTask?
    case Retry(_, _) => mut.RetryTask?
    case Block(_, _) => mut.BlockTask? && mut.blocked.Some?
  }

  lemma SameRow(view: seq<RowView>, tasks: seq<MT.Task>, id: string)
    requires UniqueFeatures(view) && Bisimilar(view, tasks)
    ensures MT.FindTask(tasks, id).Some? ==> IsRowOf(view, id, MT.FindTask(tasks, id).value)
    ensures MT.FindTask(tasks, id).None? ==> forall i :: !IsRowOf(view, id, i)
  {
    forall i ensures MT.FindTask(tasks, id).None? ==> !IsRowOf(view, id, i) {
      assert 0 <= i < |view| ==> tasks[i].id == view[i].feature.id;
    }
  }

  lemma SameActivity(view: seq<RowView>, tasks: seq<MT.Task>)
    requires Bisimilar(view, tasks)
    ensures AnyInFlight(view) <==> MT.AnyActive(tasks)
  {
    if AnyInFlight(view) {
      var j :| 0 <= j < |view| && view[j].state.InFlight?;
      assert tasks[j].status.Active?;
    }
    if MT.AnyActive(tasks) {
      var j :| 0 <= j < |tasks| && tasks[j].status.Active?;
      assert view[j].state.InFlight?;
    }
  }

  /** The verdict on one matched pair of requests. */
  lemma SameVerdict(view: seq<RowView>, s: MT.MissionState, req: Request, mut: M.Mutation)
    requires UniqueFeatures(view) && Bisimilar(view, s.tasks) && SameRequest(req, mut)
    ensures Grants(view, req) <==> M.Admissible(s, mut)
  {
    SameRow(view, s.tasks, req.id);
    SameActivity(view, s.tasks);
    var found := MT.FindTask(s.tasks, req.id);
    if found.Some? {
      var i := found.value;
      AfterAt(view, req, i);
      SM.TransitionsAlternate(s.tasks[i].status, M.TargetStatus(mut));
      assert SameTask(view[i], s.tasks[i]);
      if req.Activate? && view[i].state.NotStarted? && MT.AnyActive(s.tasks) {
        var j :| 0 <= j < |s.tasks| && s.tasks[j].status.Active?;
        assert view[i].feature.id != view[j].feature.id;
        assert M.OtherActive(s.tasks, req.id);
      }
    }
  }

  lemma BisimilarStep(view: seq<RowView>, s: MT.MissionState, req: Request, mut: M.Mutation)
    requires UniqueFeatures(view) && Bisimilar(view, s.tasks) && SameRequest(req, mut)
    ensures Bisimilar(After(view, req), M.Next(s, mut).tasks)
    ensures UniqueFeatures(After(view, req))
  {
    SameVerdict(view, s, req, mut);
    SameRow(view, s.tasks, req.id);
    AfterCases(view, req);
    if Grants(view, req) {
      var i := MT.FindTask(s.tasks, req.id).value;
      AfterAt(view, req, i);
      assert SameTask(RowAfter(view[i], req), M.TaskAfter(s.tasks[i], mut));
    }
  }

  /** Over any matching request sequences, of any length, the two machines stay in the same state. */
  lemma {:induction false} Bisimulation(view: seq<RowView>, s: MT.MissionState, reqs: seq<Request>, muts: seq<M.Mutation>)
    requires UniqueFeatures(view) && Bisimilar(view, s.tasks)
    requires |reqs| == |muts| && forall k :: 0 <= k < |reqs| ==> SameRequest(reqs[k], muts[k])
    ensures Bisimilar(LRun(view, reqs), R.Run(s, muts).tasks) && UniqueFeatures(LRun(view, reqs))
  {
    if reqs != [] {
      var n := |reqs| - 1;
      Bisimulation(view, s, reqs[..n], muts[..n]);
      BisimilarStep(LRun(view, reqs[..n]), R.Run(s, muts[..n]), reqs[n], muts[n]);
    }
  }

  /** And at every step they give the same verdict. */
  lemma SameVerdictAlways(view: seq<RowView>, s: MT.MissionState, reqs: seq<Request>, muts: seq<M.Mutation>, k: nat)
    requires UniqueFeatures(view) && Bisimilar(view, s.tasks)
    requires |reqs| == |muts| && forall k :: 0 <= k < |reqs| ==> SameRequest(reqs[k], muts[k])
    requires k < |reqs|
    ensures Grants(LRun(view, reqs[..k]), reqs[k]) <==> M.Admissible(R.Run(s, muts[..k]), muts[k])
  {
    Bisimulation(view, s, reqs[..k], muts[..k]);
    SameVerdict(LRun(view, reqs[..k]), R.Run(s, muts[..k]), reqs[k], muts[k]);
  }

  /** A fresh dependency-free mission with budget 2 starts bisimilar to the new ledger of the same ids. */
  lemma StartsBisimilar(view: seq<RowView>, s: MT.MissionState)
    requires Untouched(view) && R.Fresh(s) && |s.tasks| == |view|
    requires forall i :: 0 <= i < |view| ==>
               s.tasks[i].id == view[i].feature.id && s.tasks[i].dependsOn == [] && s.tasks[i].retryBudget == 2
    ensures Bisimilar(view, s.tasks)
  {
  }

  // ----- the pickers and the outcome -----

  ghost predicate SamePick(view: seq<RowView>, tasks: seq<MT.Task>) {
    match P.PickActive(tasks)
    case None => FirstNotStarted(view) == None
    case Some(i) => i < |view| && FirstNotStarted(view) == Some(view[i])
  }

  /** Exact: PickNext and PickActive name the same work unless something is active and something else
      has not started; then the ledger offers it and the mission does not. */
  lemma PickersAgree(view: seq<RowView>, tasks: seq<MT.Task>)
    requires Bisimilar(view, tasks)
    ensures SamePick(view, tasks) <==>
              !(AnyInFlight(view) && exists i :: 0 <= i < |view| && view[i].state.NotStarted?)
  {
    assert forall i :: 0 <= i < |tasks| ==> (P.Ready(tasks, i) <==> view[i].state.NotStarted?);
    if j :| 0 <= j < |view| && view[j].state.NotStarted? {
      var i := FirstOf(view);
      FirstNotStartedAt(view, i);
      if AnyInFlight(view) {
        var k :| 0 <= k < |view| && view[k].state.InFlight?;
        assert tasks[k].status.Active?;
      } else {
        assert !MT.AnyActive(tasks);
        assert P.Ready(tasks, i);
        assert P.PickActive(tasks) == Some(i);
      }
    } else {
      NoneNotStarted(view);
    }
  }

  lemma FirstOf(view: seq<RowView>) returns (i: nat)
    requires exists j :: 0 <= j < |view| && view[j].state.NotStarted?
    ensures i < |view| && view[i].state.NotStarted? && forall j :: 0 <= j < i ==> !view[j].state.NotStarted?
  {
    i := 0;
    while !view[i].state.NotStarted?
      invariant i < |view| && forall j :: 0 <= j < i ==> !view[j].state.NotStarted?
      decreases |view| - i
    {
      i := i + 1;
    }
  }

  /** The ledger is settled exactly when the mission's derived outcome is final; an empty ledger is settled at
      once, while an empty mission stays active. */
  lemma SettledIsFinal(view: seq<RowView>, s: MT.MissionState)
    requires Bisimilar(view, s.tasks)
    requires s.blockedRoot.None? && s.status == SM.StatusOf(s.tasks, s.blockedRoot)
    ensures Settled(view) <==> view == [] || s.status != MT.MissionActive
  {
    assert forall i :: 0 <= i < |view| ==>
        (SM.IsTerminal(s.tasks[i].status) <==> view[i].state.Passed? || view[i].state.GivenUp?);
  }

  // ----- ledgers built from accepted patterns -----

  lemma NewRowsAreFresh(features: seq<Feature>, template: string)
    requires A.Accepted(features, template)
    ensures var view := NewRows(features); Untouched(view) && UniqueFeatures(view) && view != []
  {
  }

  /** A pattern that passes its checks gives a ledger without shadowed rows, which can settle. */
  lemma AcceptedCanSettle(features: seq<Feature>, template: string)
    requires A.Accepted(features, template)
    ensures exists reqs :: Settled(LRun(NewRows(features), reqs))
  {
    NewRowsAreFresh(features, template);
    CanSettle(NewRows(features));
  }

  /** The mission of the same ids, without dependencies. */
  ghost predicate SameWork(features: seq<Feature>, s: MT.MissionState) {
    && R.Fresh(s) && s.blockedRoot.None? && |s.tasks| == |features|
    && forall i :: 0 <= i < |features| ==>
         s.tasks[i].id == features[i].id && s.tasks[i].dependsOn == [] && s.tasks[i].retryBudget == 2
  }

  lemma WorkStartsBisimilar(features: seq<Feature>, template: string, s: MT.MissionState)
    requires A.Accepted(features, template) && SameWork(features, s)
    ensures Bisimilar(NewRows(features), s.tasks)
  {
    NewRowsAreFresh(features, template);
    StartsBisimilar(NewRows(features), s);
  }

  lemma MissionOutcome(s: MT.MissionState, muts: seq<M.Mutation>)
    requires R.Fresh(s) && s.blockedRoot.None?
    ensures var e := R.Run(s, muts); e.blockedRoot.None? && e.status == SM.StatusOf(e.tasks, e.blockedRoot)
  {
    R.InvariantOverRuns(s, muts);
    R.RunShape(s, muts);
  }

  /** Under every request a ledger built from an accepted pattern behaves as that mission does, and it is settled
      exactly when the mission's outcome is final. */
  lemma AcceptedFollowsMission(features: seq<Feature>, template: string, s: MT.MissionState,
                               reqs: seq<Request>, muts: seq<M.Mutation>)
    requires A.Accepted(features, template) && SameWork(features, s)
    requires |reqs| == |muts| && forall k :: 0 <= k < |reqs| ==> SameRequest(reqs[k], muts[k])
    ensures Bisimilar(LRun(NewRows(features), reqs), R.Run(s, muts).tasks)
    ensures Settled(LRun(NewRows(features), reqs)) <==> R.Run(s, muts).status != MT.MissionActive
  {
    var view := NewRows(features);
    NewRowsAreFresh(features, template);
    WorkStartsBisimilar(features, template, s);
    Bisimulation(view, s, reqs, muts);
    MissionOutcome(s, muts);
    SettledIsFinal(LRun(view, reqs), R.Run(s, muts));
    assert |LRun(view, reqs)| == |view| by { LRunFeatures(view, reqs); }
  }
}
