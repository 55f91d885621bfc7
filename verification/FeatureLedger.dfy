// The per-turn feature ledger of plan-mode analysis (services/agent-server/analysis/feature_ledger.go):
// a second WIP=1 machine, with a fixed retry budget and its rows shared between a list and an id map.
module FeatureLedgers {
  import opened Wrappers

  datatype FeatureState = NotStarted | InFlight | Passed | GivenUp

  datatype Evidence = Evidence(
    tool: string,
    args: string,
    summary: string,
    reasoning: string,
    rowCount: int,
    value: string,
    error: string)

  datatype Feature = Feature(id: string, behavior: string, verification: string)

  /** Additional attempts allowed after the first failure. */
  const RETRY_BUDGET := 2

  /** One ledger row as a value. */
  datatype RowView = RowView(feature: Feature, state: FeatureState, retryCount: int, evidence: Option<Evidence>)

  datatype Request =
    | Activate(id: string)
    | Pass(id: string, ev: Evidence)
    | Retry(id: string, ev: Evidence)
    | Block(id: string, ev: Evidence)

  datatype LedgerError =
    | UnknownFeature(id: string)
    | IllegalTransition(id: string, state: FeatureState)
    | WipViolation(activeId: string)
    | RetryExhausted(id: string)

  /** The rows of a new ledger. */
  function NewRows(features: seq<Feature>): seq<RowView> {
    seq(|features|, i requires 0 <= i < |features| => RowView(features[i], NotStarted, 0, None))
  }

  // ----- what a request means -----

  /** The row an id stands for: of several rows with one id, the last. */
  ghost predicate IsRowOf(view: seq<RowView>, id: string, i: int) {
    && 0 <= i < |view| && view[i].feature.id == id
    && forall j :: i < j < |view| ==> view[j].feature.id != id
  }

  ghost predicate AnyInFlight(view: seq<RowView>) {
    exists j :: 0 <= j < |view| && view[j].state.InFlight?
  }

  /** Whether the ledger grants a request made against row i. */
  ghost predicate GrantsAt(view: seq<RowView>, req: Request, i: int)
    requires 0 <= i < |view|
  {
    match req
    case Activate(_) => view[i].state.NotStarted? && !AnyInFlight(view)
    case Pass(_, _) => view[i].state.InFlight?
    case Retry(_, _) => view[i].state.InFlight? && view[i].retryCount < RETRY_BUDGET
    case Block(_, _) => view[i].state.InFlight?
  }

  ghost predicate Grants(view: seq<RowView>, req: Request) {
    exists i :: IsRowOf(view, req.id, i) && GrantsAt(view, req, i)
  }

  function RowAfter(r: RowView, req: Request): RowView {
    match req
    case Activate(_) => r.(state := InFlight)
    case Pass(_, ev) => r.(state := Passed, evidence := Some(ev))
    case Retry(_, ev) => r.(state := NotStarted, retryCount := r.retryCount + 1, evidence := Some(ev))
    case Block(_, ev) => r.(state := GivenUp, evidence := Some(ev))
  }

  /** The rows after a request: one row changed if it is granted, none otherwise. */
  ghost function After(view: seq<RowView>, req: Request): seq<RowView> {
    if Grants(view, req) then
      var i :| IsRowOf(view, req.id, i) && GrantsAt(view, req, i);
      view[i := RowAfter(view[i], req)]
    else view
  }

  /** The first thing wrong with a request, in the order in which it is looked at. */
  ghost predicate Refuses(view: seq<RowView>, req: Request, err: LedgerError) {
    match err
    case UnknownFeature(id) => id == req.id && forall i :: !IsRowOf(view, id, i)
    case IllegalTransition(id, state) =>
      && id == req.id && (exists i :: IsRowOf(view, id, i) && view[i].state == state)
      && if req.Activate? then state != NotStarted else state != InFlight
    case WipViolation(activeId) =>
      && req.Activate? && (exists i :: IsRowOf(view, req.id, i) && view[i].state == NotStarted)
      && exists i :: 0 <= i < |view| && view[i].feature.id == activeId && view[i].state == InFlight
                     && forall j :: 0 <= j < i ==> view[j].state != InFlight
    case RetryExhausted(id) =>
      req.Retry? && id == req.id && exists i :: IsRowOf(view, id, i) && view[i].state == InFlight && view[i].retryCount >= 2
  }

  lemma AfterAt(view: seq<RowView>, req: Request, i: int)
    requires IsRowOf(view, req.id, i)
    ensures Grants(view, req) <==> GrantsAt(view, req, i)
    ensures After(view, req) == if GrantsAt(view, req, i) then view[i := RowAfter(view[i], req)] else view
  {
    forall j | IsRowOf(view, req.id, j) ensures j == i {
    }
  }

  // ----- the objects -----

  class FeatureRuntime {
    const feature: Feature
    var state: FeatureState
    var retryCount: int
    var evidence: Option<Evidence>

    constructor (feature: Feature)
      ensures this.feature == feature && View() == RowView(feature, NotStarted, 0, None)
    {
      this.feature := feature;
      state := NotStarted;
      retryCount := 0;
      evidence := None;
    }

    function View(): RowView
      reads this
    {
      RowView(feature, state, retryCount, evidence)
    }
  }

  /** Row i is the last one of its id. */
  ghost predicate IsLast(rows: seq<FeatureRuntime>, id: string, i: int) {
    && 0 <= i < |rows| && rows[i].feature.id == id
    && forall j :: i < j < |rows| ==> rows[j].feature.id != id
  }

  /** The map holds the last row of each id, and nothing else. */
  ghost predicate Indexes(byID: map<string, FeatureRuntime>, rows: seq<FeatureRuntime>) {
    && (forall id :: id in byID <==> exists i :: 0 <= i < |rows| && rows[i].feature.id == id)
    && forall id :: id in byID ==> exists i :: IsLast(rows, id, i) && rows[i] == byID[id]
  }

  lemma IndexOneMore(byID: map<string, FeatureRuntime>, rows: seq<FeatureRuntime>, row: FeatureRuntime)
    requires Indexes(byID, rows)
    ensures Indexes(byID[row.feature.id := row], rows + [row])
  {
    var all, ids := rows + [row], byID[row.feature.id := row];
    forall id ensures id in ids <==> exists i :: 0 <= i < |all| && all[i].feature.id == id {
      if id in byID {
        var i :| 0 <= i < |rows| && rows[i].feature.id == id;
        assert all[i].feature.id == id;
      }
      assert all[|rows|] == row;
    }
    forall id | id in ids ensures exists i :: IsLast(all, id, i) && all[i] == ids[id] {
      if id == row.feature.id {
        assert IsLast(all, id, |rows|);
      } else {
        var i :| IsLast(rows, id, i) && rows[i] == byID[id];
        assert IsLast(all, id, i);
      }
    }
  }

  class FeatureLedger {
    const rows: seq<FeatureRuntime>
    const byID: map<string, FeatureRuntime>

    /** Rows are separate objects, and the map shares the last row of each id. */
    ghost predicate Valid() {
      (forall i, j :: 0 <= i < j < |rows| ==> rows[i] != rows[j]) && Indexes(byID, rows)
    }

    function View(): (v: seq<RowView>)
      reads rows
    {
      seq(|rows|, i requires 0 <= i < |rows| reads rows => rows[i].View())
    }

    constructor (features: seq<Feature>)
      ensures Valid() && (forall r :: r in rows ==> fresh(r))
      ensures View() == NewRows(features)
    {
      var rs: seq<FeatureRuntime> := [];
      var ids: map<string, FeatureRuntime> := map[];
      for k := 0 to |features|
        invariant |rs| == k
        invariant forall i :: 0 <= i < k ==> fresh(rs[i]) && rs[i].View() == RowView(features[i], NotStarted, 0, None)
        invariant forall i, j :: 0 <= i < j < k ==> rs[i] != rs[j]
        invariant Indexes(ids, rs)
      {
        var row := new FeatureRuntime(features[k]);
        IndexOneMore(ids, rs, row);
        rs := rs + [row];
        ids := ids[features[k].id := row];
      }
      rows := rs;
      byID := ids;
    }

    /** Reads a request's fate off the object the id map holds. */
    lemma Decide(req: Request) returns (i: int)
      requires Valid()
      ensures req.id !in byID ==> !Grants(View(), req) && forall k :: !IsRowOf(View(), req.id, k)
      ensures req.id in byID ==> IsRowOf(View(), req.id, i)
      ensures req.id in byID ==> 0 <= i < |rows| && rows[i] == byID[req.id] && View()[i] == rows[i].View()
      ensures req.id in byID ==> (Grants(View(), req) <==> GrantsAt(View(), req, i))
      ensures req.id in byID ==>
                After(View(), req) == if GrantsAt(View(), req, i) then View()[i := RowAfter(View()[i], req)] else View()
    {
      if req.id in byID {
        i :| 0 <= i < |rows| && rows[i] == byID[req.id] && rows[i].feature.id == req.id
             && forall j :: i < j < |rows| ==> rows[j].feature.id != req.id;
        AfterAt(View(), req, i);
      } else {
        i := 0;
        forall k ensures !IsRowOf(View(), req.id, k) {
          assert 0 <= k < |rows| ==> rows[k].feature.id in byID;
        }
      }
    }

    /** The first not-started row, as a copy. */
    method PickNext() returns (r: Option<RowView>)
      requires Valid()
      ensures r == FirstNotStarted(View())
    {
      for i := 0 to |rows|
        invariant forall j :: 0 <= j < i ==> !View()[j].state.NotStarted?
      {
        if rows[i].state.NotStarted? {
          FirstNotStartedAt(View(), i);
          return Some(rows[i].View());
        }
      }
      NoneNotStarted(View());
      return None;
    }

    method Activate(id: string) returns (err: Option<LedgerError>)
      requires Valid()
      modifies rows
      ensures err.None? <==> Grants(old(View()), Request.Activate(id))
      ensures View() == After(old(View()), Request.Activate(id))
      ensures err.Some? ==> Refuses(old(View()), Request.Activate(id), err.value)
    {
      ghost var before := View();
      ghost var i := Decide(Request.Activate(id));
      if id !in byID {
        return Some(UnknownFeature(id));
      }
      var row := byID[id];
      if !row.state.NotStarted? {
        return Some(IllegalTransition(id, row.state));
      }
      for k := 0 to |rows|
        invariant forall j :: 0 <= j < k ==> !before[j].state.InFlight?
      {
        if rows[k].state.InFlight? {
          assert before[k].state.InFlight?;
          return Some(WipViolation(rows[k].feature.id));
        }
      }
      row.state := InFlight;
      assert View() == before[i := rows[i].View()];
      return None;
    }

    /** The row of an id when it is the active one. */
    method RequireActive(id: string) returns (row: FeatureRuntime?, err: Option<LedgerError>)
      ensures err.None? <==> id in byID && byID[id].state.InFlight?
      ensures err.None? ==> row == byID[id]
      ensures err.Some? ==>
                err.value == if id !in byID then UnknownFeature(id) else IllegalTransition(id, byID[id].state)
    {
      if id !in byID {
        return null, Some(UnknownFeature(id));
      }
      row := byID[id];
      if !row.state.InFlight? {
        return null, Some(IllegalTransition(id, row.state));
      }
      return row, None;
    }

    method Pass(id: string, ev: Evidence) returns (err: Option<LedgerError>)
      requires Valid()
      modifies rows
      ensures err.None? <==> Grants(old(View()), Request.Pass(id, ev))
      ensures View() == After(old(View()), Request.Pass(id, ev))
      ensures err.Some? ==> Refuses(old(View()), Request.Pass(id, ev), err.value)
    {
      ghost var before := View();
      ghost var i := Decide(Request.Pass(id, ev));
      var row, e := RequireActive(id);
      if e.Some? {
        return e;
      }
      row.state := Passed;
      row.evidence := Some(ev);
      assert View() == before[i := rows[i].View()];
      return None;
    }

    method Retry(id: string, ev: Evidence) returns (err: Option<LedgerError>)
      requires Valid()
      modifies rows
      ensures err.None? <==> Grants(old(View()), Request.Retry(id, ev))
      ensures View() == After(old(View()), Request.Retry(id, ev))
      ensures err.Some? ==> Refuses(old(View()), Request.Retry(id, ev), err.value)
    {
      ghost var before := View();
      ghost var i := Decide(Request.Retry(id, ev));
      var row, e := RequireActive(id);
      if e.Some? {
        return e;
      }
      if row.retryCount >= RETRY_BUDGET {
        return Some(RetryExhausted(id));
      }
      row.retryCount := row.retryCount + 1;
      row.state := NotStarted;
      row.evidence := Some(ev);
      assert View() == before[i := rows[i].View()];
      return None;
    }

    method Block(id: string, ev: Evidence) returns (err: Option<LedgerError>)
      requires Valid()
      modifies rows
      ensures err.None? <==> Grants(old(View()), Request.Block(id, ev))
      ensures View() == After(old(View()), Request.Block(id, ev))
      ensures err.Some? ==> Refuses(old(View()), Request.Block(id, ev), err.value)
    {
      ghost var before := View();
      ghost var i := Decide(Request.Block(id, ev));
      var row, e := RequireActive(id);
      if e.Some? {
        return e;
      }
      row.state := GivenUp;
      row.evidence := Some(ev);
      assert View() == before[i := rows[i].View()];
      return None;
    }

    method AllSettled() returns (b: bool)
      requires Valid()
      ensures b <==> Settled(View())
    {
      for i := 0 to |rows|
        invariant forall j :: 0 <= j < i ==> View()[j].state.Passed? || View()[j].state.GivenUp?
      {
        if rows[i].state.NotStarted? || rows[i].state.InFlight? {
          assert View()[i].state == rows[i].state;
          return false;
        }
      }
      return true;
    }
  }

  // ----- reading the ledger -----

  function FirstNotStarted(view: seq<RowView>): Option<RowView> {
    if view == [] then None
    else if view[0].state.NotStarted? then Some(view[0])
    else FirstNotStarted(view[1..])
  }

  lemma {:induction false} FirstNotStartedAt(view: seq<RowView>, i: nat)
    requires i < |view| && view[i].state.NotStarted?
    requires forall j :: 0 <= j < i ==> !view[j].state.NotStarted?
    ensures FirstNotStarted(view) == Some(view[i])
  {
    if i > 0 { FirstNotStartedAt(view[1..], i - 1); }
  }

  lemma {:induction false} NoneNotStarted(view: seq<RowView>)
    requires forall j :: 0 <= j < |view| ==> !view[j].state.NotStarted?
    ensures FirstNotStarted(view) == None
  {
    if view != [] { NoneNotStarted(view[1..]); }
  }

  ghost predicate Settled(view: seq<RowView>) {
    forall i :: 0 <= i < |view| ==> view[i].state.Passed? || view[i].state.GivenUp?
  }
}
