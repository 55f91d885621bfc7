// Where everything in a feature ledger comes from: after any run a row is in the state its last granted request
// has put it in, with the evidence of the last one that carried some.
module LedgerHistory {
  import opened Wrappers
  import opened FeatureLedgers
  import opened LedgerRuns

  /** Request n of the run is granted, for row k. */
  ghost predicate GrantedTo(view: seq<RowView>, reqs: seq<Request>, n: nat, k: nat) {
    n < |reqs| && IsRowOf(view, reqs[n].id, k) && Grants(LRun(view, reqs[..n]), reqs[n])
  }

  /** The last request granted to row k; with evidence only, the last one that is no activation. */
  ghost function LastGrant(view: seq<RowView>, reqs: seq<Request>, k: nat, evidenceOnly: bool): (n: Option<nat>)
    ensures n.Some? ==> n.value < |reqs|
  {
    if reqs == [] then None
    else
      var n := |reqs| - 1;
      if GrantedTo(view, reqs, n, k) && !(evidenceOnly && reqs[n].Activate?) then Some(n)
      else LastGrant(view, reqs[..n], k, evidenceOnly)
  }

  lemma GrantedInFront(view: seq<RowView>, reqs: seq<Request>, m: nat, n: nat, k: nat)
    requires n < m <= |reqs|
    ensures GrantedTo(view, reqs, n, k) <==> GrantedTo(view, reqs[..m], n, k)
  {
    assert reqs[..m][..n] == reqs[..n];
  }

  lemma {:induction false} LastGrantExactly(view: seq<RowView>, reqs: seq<Request>, k: nat, evidenceOnly: bool)
    ensures var last := LastGrant(view, reqs, k, evidenceOnly);
            last.Some? ==> GrantedTo(view, reqs, last.value, k) && !(evidenceOnly && reqs[last.value].Activate?)
    ensures var last := LastGrant(view, reqs, k, evidenceOnly);
            forall n: nat :: n < |reqs| && GrantedTo(view, reqs, n, k) && !(evidenceOnly && reqs[n].Activate?) ==>
              last.Some? && n <= last.value
  {
    if reqs != [] {
      var m := |reqs| - 1;
      LastGrantExactly(view, reqs[..m], k, evidenceOnly);
      var front := LastGrant(view, reqs[..m], k, evidenceOnly);
      if front.Some? { GrantedInFront(view, reqs, m, front.value, k); }
      forall n: nat | n < |reqs| && GrantedTo(view, reqs, n, k) && !(evidenceOnly && reqs[n].Activate?)
        ensures LastGrant(view, reqs, k, evidenceOnly).Some? && n <= LastGrant(view, reqs, k, evidenceOnly).value
      {
        if n < m { GrantedInFront(view, reqs, m, n, k); }
      }
    }
  }

  /** How many retries of row k the run grants. */
  ghost function Retries(view: seq<RowView>, reqs: seq<Request>, k: nat): nat {
    if reqs == [] then 0
    else
      var n := |reqs| - 1;
      Retries(view, reqs[..n], k) + (if GrantedTo(view, reqs, n, k) && reqs[n].Retry? then 1 else 0)
  }

  /** Row k as its history has left it. */
  ghost predicate RowAsSet(view: seq<RowView>, reqs: seq<Request>, k: nat, now: RowView)
    requires k < |view|
  {
    && now.feature == view[k].feature
    && now.retryCount == view[k].retryCount + Retries(view, reqs, k)
    && (match LastGrant(view, reqs, k, false)
        case None => now.state == view[k].state
        case Some(n) =>
          match reqs[n]
          case Activate(_) => now.state == InFlight
          case Pass(_, _) => now.state == Passed
          case Retry(_, _) => now.state == NotStarted
          case Block(_, _) => now.state == GivenUp)
    && match LastGrant(view, reqs, k, true)
       case None => now.evidence == view[k].evidence
       case Some(n) => !reqs[n].Activate? && now.evidence == Some(reqs[n].ev)
  }

  lemma RowIsFixed(view: seq<RowView>, now: seq<RowView>, id: string, k: nat)
    requires |now| == |view| && forall i :: 0 <= i < |view| ==> now[i].feature == view[i].feature
    ensures IsRowOf(view, id, k) <==> IsRowOf(now, id, k)
  {
  }

  /** One more request: only the row it is granted to changes. */
  lemma OneMore(view: seq<RowView>, reqs: seq<Request>, k: nat)
    requires reqs != [] && k < |view|
    ensures var n := |reqs| - 1;
            var before := LRun(view, reqs[..n]);
            && |before| == |view| && |LRun(view, reqs)| == |view|
            && LRun(view, reqs)[k] == if GrantedTo(view, reqs, n, k) then RowAfter(before[k], reqs[n]) else before[k]
  {
    var n := |reqs| - 1;
    var before := LRun(view, reqs[..n]);
    LRunFeatures(view, reqs[..n]);
    AfterCases(before, reqs[n]);
    RowIsFixed(view, before, reqs[n].id, k);
    if IsRowOf(before, reqs[n].id, k) { AfterAt(before, reqs[n], k); }
  }

  /** After any run of requests each row is what its granted requests have made of it. */
  lemma {:induction false} RowHistory(view: seq<RowView>, reqs: seq<Request>, k: nat)
    requires k < |view|
    ensures |LRun(view, reqs)| == |view| && RowAsSet(view, reqs, k, LRun(view, reqs)[k])
  {
    if reqs != [] {
      RowHistory(view, reqs[..|reqs| - 1], k);
      OneMore(view, reqs, k);
    }
  }

  /** Exact: what is granted. Of several rows with one id, a request is made against the last. */
  lemma GrantsExactly(view: seq<RowView>, req: Request, i: nat)
    requires i < |view| && view[i].feature.id == req.id && forall j :: i < j < |view| ==> view[j].feature.id != req.id
    ensures Grants(view, req) <==>
            match req
            case Activate(_) => view[i].state == NotStarted && forall j :: 0 <= j < |view| ==> view[j].state != InFlight
            case Pass(_, _) => view[i].state == InFlight
            case Retry(_, _) => view[i].state == InFlight && view[i].retryCount < 2
            case Block(_, _) => view[i].state == InFlight
  {
    AfterAt(view, req, i);
  }

  /** And nothing is granted for an id without a row. */
  lemma UnknownIsRefused(view: seq<RowView>, req: Request)
    requires forall i :: 0 <= i < |view| ==> view[i].feature.id != req.id
    ensures !Grants(view, req)
  {
  }
}
