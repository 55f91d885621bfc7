// What one retrying save stores and reports, attempt by attempt; and that it is a run of the protocol of all
// clients, so that what is proved of that protocol holds of it.
module LedgerEpisodes {
  import opened Wrappers
  import opened BuilderLedgers
  import opened LedgerProtocol

  // ----- reading and writing the row -----

  /** Exact, row by row: a current ledger is read as it is; of one with another schema only the turn count is
      kept; without a ledger that decodes there is a new one. */
  lemma LoadExactly<C>(row: Row<C>, empty: C)
    ensures match row
            case Stored(l) =>
              LoadFrom(row, empty) == if l.schemaVersion == 1 then l else Ledger(0, 1, Body(l.body.turnCount, empty))
            case _ => LoadFrom(row, empty) == Ledger(0, 1, Body(0, empty))
  {
  }

  /** Exact: a save is stored, one version on, if there is a thread whose stored version, 0 without a ledger, is the
      one it was made against; and otherwise the row is as it was. */
  lemma SaveExactly<C>(row: Row<C>, body: Body<C>, oldVersion: int)
    ensures SaveTo(row, body, oldVersion) ==
            match row
            case NoThread => row
            case NoLedger => if oldVersion == 0 then Stored(Ledger(1, 1, body)) else row
            case Undecodable(v) => if v == oldVersion then Stored(Ledger(v + 1, 1, body)) else row
            case Stored(l) => if l.version == oldVersion then Stored(Ledger(l.version + 1, 1, body)) else row
    ensures Lands(row, oldVersion) <==> SaveTo(row, body, oldVersion) == Stored(Ledger(oldVersion + 1, 1, body))
                                        && !row.NoThread? && DbVersion(row) == oldVersion
  {
  }

  // ----- attempt by attempt -----

  /** What the others attempt before our retry i. */
  function WritesBefore<C>(beforeFirst: seq<Write<C>>, others: seq<Interference<C>>, i: nat): seq<Write<C>>
    requires i <= |others|
  {
    if i == 0 then beforeFirst
    else WritesBefore(beforeFirst, others, i - 1) + others[i - 1].beforeLoad + others[i - 1].beforeSave
  }

  /** The row as retry i reloads it: nothing but the others' writes has changed it. */
  function RowAtReload<C>(row: Row<C>, beforeFirst: seq<Write<C>>, others: seq<Interference<C>>, i: nat): Row<C>
    requires i < |others|
  {
    AfterOthers(row, WritesBefore(beforeFirst, others, i) + others[i].beforeLoad)
  }

  /** The row as retry i tries to save to it. */
  function RowAtSave<C>(row: Row<C>, beforeFirst: seq<Write<C>>, others: seq<Interference<C>>, i: nat): Row<C>
    requires i < |others|
  {
    AfterOthers(row, WritesBefore(beforeFirst, others, i + 1))
  }

  /** The ledger that retry i reloads. */
  function Told<C>(row: Row<C>, empty: C, beforeFirst: seq<Write<C>>, others: seq<Interference<C>>, i: nat): Ledger<C>
    requires i < |others|
  {
    LoadFrom(RowAtReload(row, beforeFirst, others, i), empty)
  }

  /** Retry i finds something to save and is beaten to it. */
  ghost predicate Loses<C>(row: Row<C>, empty: C, reapply: Ledger<C> -> Option<Body<C>>,
                           beforeFirst: seq<Write<C>>, others: seq<Interference<C>>, i: nat)
    requires i < |others|
  {
    var told := Told(row, empty, beforeFirst, others, i);
    reapply(told).Some? && !Lands(RowAtSave(row, beforeFirst, others, i), told.version)
  }

  lemma {:induction false} OthersCompose<C>(row: Row<C>, a: seq<Write<C>>, b: seq<Write<C>>)
    ensures AfterOthers(row, a + b) == AfterOthers(AfterOthers(row, a), b)
    decreases |a|
  {
    if a == [] {
      assert a + b == b;
    } else {
      assert (a + b)[1..] == a[1..] + b;
      OthersCompose(SaveTo(row, a[0].body, a[0].oldVersion), a[1..], b);
    }
  }

  /** What the retries from k on do, when the first k have lost. */
  ghost function FromRetry<C>(row: Row<C>, empty: C, reapply: Ledger<C> -> Option<Body<C>>,
                              beforeFirst: seq<Write<C>>, others: seq<Interference<C>>, k: nat): Episode<C>
    requires k <= |others|
  {
    RetryFrom(AfterOthers(row, WritesBefore(beforeFirst, others, k)), empty, reapply, others[k..])
  }

  lemma OneRetry<C>(row: Row<C>, empty: C, reapply: Ledger<C> -> Option<Body<C>>,
                    beforeFirst: seq<Write<C>>, others: seq<Interference<C>>, k: nat)
    requires k < |others|
    ensures var told := Told(row, empty, beforeFirst, others, k);
            var e := FromRetry(row, empty, reapply, beforeFirst, others, k);
            && (Loses(row, empty, reapply, beforeFirst, others, k) ==>
                  var rest := FromRetry(row, empty, reapply, beforeFirst, others, k + 1);
                  e.row == rest.row && e.outcome == rest.outcome)
            && (reapply(told).None? ==>
                  e.outcome == Abandoned && e.row == RowAtReload(row, beforeFirst, others, k))
            && (reapply(told).Some? && !Loses(row, empty, reapply, beforeFirst, others, k) ==>
                  e.outcome == Saved && e.row == Stored(Ledger(told.version + 1, 1, reapply(told).value)))
  {
    var before, o := WritesBefore(beforeFirst, others, k), others[k];
    assert others[k..][0] == o && others[k..][1..] == others[k + 1..];
    OthersCompose(row, before, o.beforeLoad);
    OthersCompose(row, before + o.beforeLoad, o.beforeSave);
  }

  /** The first retry that does not lose decides the call. */
  lemma {:induction false} DecidedBy<C>(row: Row<C>, empty: C, reapply: Ledger<C> -> Option<Body<C>>,
                                        beforeFirst: seq<Write<C>>, others: seq<Interference<C>>, k: nat, i: nat)
    requires k <= i < |others|
    requires forall j :: k <= j < i ==> Loses(row, empty, reapply, beforeFirst, others, j)
    requires !Loses(row, empty, reapply, beforeFirst, others, i)
    ensures var told := Told(row, empty, beforeFirst, others, i);
            var e := FromRetry(row, empty, reapply, beforeFirst, others, k);
            if reapply(told).None? then e.outcome == Abandoned && e.row == RowAtReload(row, beforeFirst, others, i)
            else e.outcome == Saved && e.row == Stored(Ledger(told.version + 1, 1, reapply(told).value))
    decreases i - k
  {
    OneRetry(row, empty, reapply, beforeFirst, others, k);
    if k < i { DecidedBy(row, empty, reapply, beforeFirst, others, k + 1, i); }
  }

  lemma {:induction false} AllLose<C>(row: Row<C>, empty: C, reapply: Ledger<C> -> Option<Body<C>>,
                                      beforeFirst: seq<Write<C>>, others: seq<Interference<C>>, k: nat)
    requires k <= |others|
    requires forall j :: k <= j < |others| ==> Loses(row, empty, reapply, beforeFirst, others, j)
    ensures var e := FromRetry(row, empty, reapply, beforeFirst, others, k);
            e.outcome == VersionConflict && e.row == AfterOthers(row, WritesBefore(beforeFirst, others, |others|))
    decreases |others| - k
  {
    if k < |others| {
      OneRetry(row, empty, reapply, beforeFirst, others, k);
      AllLose(row, empty, reapply, beforeFirst, others, k + 1);
    } else {
      assert others[k..] == [];
    }
  }

  lemma EpisodeOpens<C>(row: Row<C>, empty: C, body: Body<C>, oldVersion: int, reapply: Ledger<C> -> Option<Body<C>>,
                        beforeFirst: seq<Write<C>>, others: seq<Interference<C>>)
    ensures var e := SaveEpisode(row, empty, body, oldVersion, reapply, beforeFirst, others);
            var rest := FromRetry(row, empty, reapply, beforeFirst, others, 0);
            if Lands(AfterOthers(row, beforeFirst), oldVersion) then
              e.outcome == Saved && e.row == Stored(Ledger(oldVersion + 1, 1, body))
            else e.row == rest.row && e.outcome == rest.outcome
  {
    assert others[0..] == others;
  }

  /** Exact: the first attempt stores the ledger passed in if it lands. Otherwise the first retry that is not beaten
      decides: without a reapplied ledger the call is abandoned and the row is what the others left; else it
      stores the ledger reapplied to the one it reloaded, one version on. When all are beaten there is a conflict,
      and the row is what the others left. */
  lemma EpisodeExactly<C>(row: Row<C>, empty: C, body: Body<C>, oldVersion: int, reapply: Ledger<C> -> Option<Body<C>>,
                          beforeFirst: seq<Write<C>>, others: seq<Interference<C>>)
    ensures var e := SaveEpisode(row, empty, body, oldVersion, reapply, beforeFirst, others);
            if Lands(AfterOthers(row, beforeFirst), oldVersion) then
              e.outcome == Saved && e.row == Stored(Ledger(oldVersion + 1, 1, body))
            else if forall j :: 0 <= j < |others| ==> Loses(row, empty, reapply, beforeFirst, others, j) then
              e.outcome == VersionConflict && e.row == AfterOthers(row, WritesBefore(beforeFirst, others, |others|))
            else
              exists i: nat :: i < |others|
                && (forall j :: 0 <= j < i ==> Loses(row, empty, reapply, beforeFirst, others, j))
                && !Loses(row, empty, reapply, beforeFirst, others, i)
                && var told := Told(row, empty, beforeFirst, others, i);
                   if reapply(told).None? then e.outcome == Abandoned && e.row == RowAtReload(row, beforeFirst, others, i)
                   else e.outcome == Saved && e.row == Stored(Ledger(told.version + 1, 1, reapply(told).value))
  {
    EpisodeOpens(row, empty, body, oldVersion, reapply, beforeFirst, others);
    if forall j :: 0 <= j < |others| ==> Loses(row, empty, reapply, beforeFirst, others, j) {
      AllLose(row, empty, reapply, beforeFirst, others, 0);
    } else {
      var i := FirstUnbeaten(row, empty, reapply, beforeFirst, others, 0);
      DecidedBy(row, empty, reapply, beforeFirst, others, 0, i);
    }
  }

  lemma {:induction false} FirstUnbeaten<C>(row: Row<C>, empty: C, reapply: Ledger<C> -> Option<Body<C>>,
                                            beforeFirst: seq<Write<C>>, others: seq<Interference<C>>, k: nat)
    returns (i: nat)
    requires exists j :: k <= j < |others| && !Loses(row, empty, reapply, beforeFirst, others, j)
    ensures k <= i < |others| && !Loses(row, empty, reapply, beforeFirst, others, i)
    ensures forall j :: k <= j < i ==> Loses(row, empty, reapply, beforeFirst, others, j)
    decreases |others| - k
  {
    if Loses(row, empty, reapply, beforeFirst, others, k) {
      i := FirstUnbeaten(row, empty, reapply, beforeFirst, others, k + 1);
    } else {
      i := k;
    }
  }

  // ----- a run of the protocol -----

  lemma ExecOne<C>(row: Row<C>, steps: seq<Step<C>>, step: Step<C>, empty: C, r: Reapply<C>)
    ensures Exec(row, steps + [step], empty, r) == Apply(Exec(row, steps, empty, r), step, empty, r)
  {
    assert (steps + [step])[..|steps|] == steps;
  }

  /** We are client 0, and whoever else writes is client 1: it reads the ledger and saves what it has to save. */
  lemma OtherIsSteps<C(!new)>(start: Row<C>, steps: seq<Step<C>>, w: Write<C>, empty: C, r: Reapply<C>)
    returns (more: seq<Step<C>>)
    requires var s := Exec(start, steps, empty, r); Loadable(s.row, empty) && ClientOf(s, 1).Idle?
    ensures var s, t := Exec(start, steps, empty, r), Exec(start, more, empty, r);
            && t.row == SaveTo(s.row, w.body, w.oldVersion) && ClientOf(t, 0) == ClientOf(s, 0) && ClientOf(t, 1).Idle?
            && Loadable(t.row, empty)
            && |t.commits| == |s.commits| + if Lands(s.row, w.oldVersion) then 1 else 0
  {
    var s := Exec(start, steps, empty, r);
    if Lands(s.row, w.oldVersion) {
      ExecOne(start, steps, Begin(1, Put(w.body)), empty, r);
      ExecOne(start, steps + [Begin(1, Put(w.body))], TrySave(1), empty, r);
      more := steps + [Begin(1, Put(w.body))] + [TrySave(1)];
    } else {
      more := steps;
    }
  }

  lemma {:induction false} OthersAreSteps<C(!new)>(start: Row<C>, steps: seq<Step<C>>, ws: seq<Write<C>>, empty: C, r: Reapply<C>)
    returns (more: seq<Step<C>>)
    requires var s := Exec(start, steps, empty, r); Loadable(s.row, empty) && ClientOf(s, 1).Idle?
    ensures var s, t := Exec(start, steps, empty, r), Exec(start, more, empty, r);
            && t.row == AfterOthers(s.row, ws) && ClientOf(t, 0) == ClientOf(s, 0) && ClientOf(t, 1).Idle?
            && Loadable(t.row, empty) && |t.commits| == |s.commits| + OthersLanded(s.row, ws)
    decreases |ws|
  {
    if ws == [] {
      more := steps;
    } else {
      more := OtherIsSteps(start, steps, ws[0], empty, r);
      more := OthersAreSteps(start, more, ws[1..], empty, r);
    }
  }

  /** The closure of the call rebuilds each draft in play as the protocol's reapply does, or gives up. */
  ghost predicate Agrees<C(!new)>(reapply: Ledger<C> -> Option<Body<C>>, r: Reapply<C>, change: Change<C>,
                                  inPlay: Body<C> -> bool) {
    forall l: Ledger<C>, d: Body<C> :: inPlay(d) && reapply(l).Some? ==>
      reapply(l).value == r(change, d, l.body) && inPlay(r(change, d, l.body))
  }

  /** How the run stands to the episode: the same row, a commit for each save that landed, the last one ours if
      we have saved. */
  ghost predicate Ends<C>(s: System<C>, e: Episode<C>, before: nat, change: Change<C>) {
    && s.row == e.row
    && |s.commits| == before + e.landed + (if e.outcome == Saved then 1 else 0)
    && (e.outcome == Saved ==> s.commits != [] && var last := s.commits[|s.commits| - 1]; last.client == 0 && last.change == change)
    && (ClientOf(s, 0).Conflicted? <==> e.outcome == VersionConflict)
  }

  /** Our own save, made against the version we were told. */
  lemma OwnSave<C(!new)>(start: Row<C>, steps: seq<Step<C>>, empty: C, r: Reapply<C>)
    returns (more: seq<Step<C>>)
    requires ClientOf(Exec(start, steps, empty, r), 0).Ready?
    ensures var s, t := Exec(start, steps, empty, r), Exec(start, more, empty, r);
            var me := ClientOf(s, 0);
            && ClientOf(t, 1) == ClientOf(s, 1)
            && (Lands(s.row, me.oldVersion) ==>
                  t.row == SaveTo(s.row, me.draft, me.oldVersion) && ClientOf(t, 0).Idle?
                  && t.commits == s.commits + [Commit(0, me.change, me.oldVersion)])
            && (!Lands(s.row, me.oldVersion) ==>
                  t.row == s.row && ClientOf(t, 0) == Conflicted(me.change, me.draft) && t.commits == s.commits)
  {
    ExecOne(start, steps, TrySave(0), empty, r);
    more := steps + [TrySave(0)];
  }

  /** The retries, from a state in which our save has lost. */
  lemma {:induction false} RetriesAreSteps<C(!new)>(
    start: Row<C>, steps: seq<Step<C>>, empty: C, r: Reapply<C>, change: Change<C>, draft: Body<C>,
    reapply: Ledger<C> -> Option<Body<C>>, inPlay: Body<C> -> bool, others: seq<Interference<C>>)
    returns (more: seq<Step<C>>)
    requires var s := Exec(start, steps, empty, r);
             Loadable(s.row, empty) && ClientOf(s, 0) == Conflicted(change, draft) && ClientOf(s, 1).Idle?
    requires Agrees(reapply, r, change, inPlay) && inPlay(draft)
    ensures var s := Exec(start, steps, empty, r);
            Ends(Exec(start, more, empty, r), RetryFrom(s.row, empty, reapply, others), |s.commits|, change)
    decreases |others|
  {
    if others == [] {
      more := steps;
    } else {
      var s1 := OthersAreSteps(start, steps, others[0].beforeLoad, empty, r);
      var reloaded := Exec(start, s1, empty, r);
      var told := LoadFrom(reloaded.row, empty);
      if reapply(told).None? {
        ExecOne(start, s1, GiveUp(0), empty, r);
        more := s1 + [GiveUp(0)];
      } else {
        ExecOne(start, s1, Reload(0), empty, r);
        var draft' := r(change, draft, told.body);
        var s2 := OthersAreSteps(start, s1 + [Reload(0)], others[0].beforeSave, empty, r);
        more := OwnSave(start, s2, empty, r);
        if !Lands(Exec(start, s2, empty, r).row, told.version) {
          more := RetriesAreSteps(start, more, empty, r, change, draft', reapply, inPlay, others[1..]);
        }
      }
    }
  }

  /** Every retrying save of a reader, whatever the others write around its attempts, is a run of the protocol: the
      run leaves the same row, and commits every save that landed, ours last if it did. */
  lemma EpisodeIsRun<C(!new)>(row: Row<C>, empty: C, change: Change<C>, r: Reapply<C>,
                              reapply: Ledger<C> -> Option<Body<C>>, inPlay: Body<C> -> bool,
                              beforeFirst: seq<Write<C>>, others: seq<Interference<C>>)
    returns (steps: seq<Step<C>>)
    requires Loadable(row, empty)
    requires Agrees(reapply, r, change, inPlay) && inPlay(change(LoadFrom(row, empty).body))
    ensures var seen := LoadFrom(row, empty);
            Ends(Exec(row, steps, empty, r),
                 SaveEpisode(row, empty, change(seen.body), seen.version, reapply, beforeFirst, others), 0, change)
  {
    var seen := LoadFrom(row, empty);
    ExecOne(row, [], Begin(0, change), empty, r);
    steps := [] + [Begin(0, change)];
    steps := OthersAreSteps(row, steps, beforeFirst, empty, r);
    var first := Exec(row, steps, empty, r).row;
    steps := OwnSave(row, steps, empty, r);
    if !Lands(first, seen.version) {
      steps := RetriesAreSteps(row, steps, empty, r, change, change(seen.body), reapply, inPlay, others);
    }
  }

  /** So a closure that makes its change to the reloaded ledger loses nothing: what a reader gets afterwards is
      every landed change in commit order, and ours is the last of them if the call reports that it has saved. */
  lemma EpisodeLosesNothing<C(!new)>(row: Row<C>, empty: C, change: Change<C>, reapply: Ledger<C> -> Option<Body<C>>,
                                     beforeFirst: seq<Write<C>>, others: seq<Interference<C>>)
    returns (commits: seq<Commit<C>>)
    requires Loadable(row, empty) && forall l :: reapply(l).Some? ==> reapply(l).value == change(l.body)
    ensures var seen := LoadFrom(row, empty);
            var e := SaveEpisode(row, empty, change(seen.body), seen.version, reapply, beforeFirst, others);
            && LoadFrom(e.row, empty).body == Fold(seen.body, commits)
            && |commits| == e.landed + (if e.outcome == Saved then 1 else 0)
            && (e.outcome == Saved ==> commits[|commits| - 1].client == 0 && commits[|commits| - 1].change == change)
  {
    var r: Reapply<C> := (ch: Change<C>, d: Body<C>, now: Body<C>) => ch(now);
    var steps := EpisodeIsRun(row, empty, change, r, reapply, (d: Body<C>) => true, beforeFirst, others);
    NoLostUpdate(row, steps, empty, r);
    commits := Exec(row, steps, empty, r).commits;
  }
}
