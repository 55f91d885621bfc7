// The builder ledger's row in the thread table and its optimistic-concurrency save
// (services/agent-server/builder_ledger/load.go and save.go). The ledger's merged content is any type C;
// other requests to the same thread appear as the writes they attempt between two of our own accesses.
module BuilderLedgers {
  import opened Wrappers

  const SCHEMA_VERSION := 1

  /** What a turn changes: the turn counter and the merged content. */
  datatype Body<C> = Body(turnCount: int, content: C)

  datatype Ledger<C> = Ledger(version: int, schemaVersion: int, body: Body<C>)

  /** The thread's row: missing, without a ledger, with one that does not decode, or with a ledger. */
  datatype Row<C> =
    | NoThread
    | NoLedger
    | Undecodable(storedVersion: int)
    | Stored(ledger: Ledger<C>)

  function New<C>(empty: C): Ledger<C> {
    Ledger(0, SCHEMA_VERSION, Body(0, empty))
  }

  /** The version the UPDATE compares against. */
  function DbVersion<C>(row: Row<C>): int {
    match row
    case NoThread => 0
    case NoLedger => 0
    case Undecodable(v) => v
    case Stored(l) => l.version
  }

  /** What a reader gets: the stored ledger, or a new one if there is none it can use. */
  function LoadFrom<C>(row: Row<C>, empty: C): Ledger<C> {
    match row
    case NoThread => New(empty)
    case NoLedger => New(empty)
    case Undecodable(_) => New(empty)
    case Stored(l) =>
      if l.schemaVersion == SCHEMA_VERSION then l
      else New(empty).(body := Body(l.body.turnCount, empty))
  }

  predicate Lands<C>(row: Row<C>, oldVersion: int) {
    !row.NoThread? && DbVersion(row) == oldVersion
  }

  function Stamped<C>(body: Body<C>, oldVersion: int): Ledger<C> {
    Ledger(oldVersion + 1, SCHEMA_VERSION, body)
  }

  function SaveTo<C>(row: Row<C>, body: Body<C>, oldVersion: int): Row<C> {
    if Lands(row, oldVersion) then Stored(Stamped(body, oldVersion)) else row
  }

  /** A save some other request attempts. */
  datatype Write<C> = Write(body: Body<C>, oldVersion: int)

  function AfterOthers<C>(row: Row<C>, ws: seq<Write<C>>): Row<C>
    decreases |ws|
  {
    if ws == [] then row else AfterOthers(SaveTo(row, ws[0].body, ws[0].oldVersion), ws[1..])
  }

  function OthersLanded<C>(row: Row<C>, ws: seq<Write<C>>): nat
    decreases |ws|
  {
    if ws == [] then 0
    else (if Lands(row, ws[0].oldVersion) then 1 else 0)
         + OthersLanded(SaveTo(row, ws[0].body, ws[0].oldVersion), ws[1..])
  }

  datatype Outcome = Saved | VersionConflict | Abandoned | NilLedger

  // ----- what one retrying save does, given what the others do meanwhile -----

  datatype Episode<C> = Episode(row: Row<C>, outcome: Outcome, landed: nat)

  /** The others' writes just before one attempt of ours, and between its reload and its save. */
  datatype Interference<C> = Interference(beforeLoad: seq<Write<C>>, beforeSave: seq<Write<C>>)

  function RetryFrom<C>(row: Row<C>, empty: C, reapply: Ledger<C> -> Option<Body<C>>, others: seq<Interference<C>>)
    : Episode<C>
    decreases |others|
  {
    if others == [] then Episode(row, VersionConflict, 0)
    else
      var reloadRow := AfterOthers(row, others[0].beforeLoad);
      var landedBefore := OthersLanded(row, others[0].beforeLoad);
      var current := LoadFrom(reloadRow, empty);
      match reapply(current)
      case None => Episode(reloadRow, Abandoned, landedBefore)
      case Some(body) =>
        var saveRow := AfterOthers(reloadRow, others[0].beforeSave);
        var landed := landedBefore + OthersLanded(reloadRow, others[0].beforeSave);
        if Lands(saveRow, current.version) then Episode(SaveTo(saveRow, body, current.version), Saved, landed)
        else
          var rest := RetryFrom(saveRow, empty, reapply, others[1..]);
          Episode(rest.row, rest.outcome, landed + rest.landed)
  }

  /** The whole call: a first save of what we hold, then one retry per remaining interference. */
  function SaveEpisode<C>(row: Row<C>, empty: C, body: Body<C>, oldVersion: int,
                          reapply: Ledger<C> -> Option<Body<C>>,
                          beforeFirst: seq<Write<C>>, others: seq<Interference<C>>): Episode<C>
  {
    var firstRow := AfterOthers(row, beforeFirst);
    var landed := OthersLanded(row, beforeFirst);
    if Lands(firstRow, oldVersion) then Episode(SaveTo(firstRow, body, oldVersion), Saved, landed)
    else
      var rest := RetryFrom(firstRow, empty, reapply, others);
      Episode(rest.row, rest.outcome, landed + rest.landed)
  }

  // ----- the objects -----

  class BuilderLedger<C> {
    var version: int
    var schemaVersion: int
    var turnCount: int
    var content: C

    function Value(): Ledger<C>
      reads this
    {
      Ledger(version, schemaVersion, Body(turnCount, content))
    }

    constructor (l: Ledger<C>)
      ensures Value() == l
    {
      version, schemaVersion := l.version, l.schemaVersion;
      turnCount, content := l.body.turnCount, l.body.content;
    }
  }

  class ThreadTable<C> {
    var row: Row<C>

    /** Never fails to give a ledger; its version is what Save must be handed back. */
    method Load(empty: C) returns (l: BuilderLedger<C>)
      ensures fresh(l) && l.Value() == LoadFrom(row, empty)
    {
      if row.NoThread? || row.NoLedger? || row.Undecodable? {
        l := new BuilderLedger(New(empty));
        return;
      }
      l := new BuilderLedger(row.ledger);
      if l.schemaVersion != SCHEMA_VERSION {
        var reset := new BuilderLedger(New(empty));
        reset.turnCount := l.turnCount;
        return reset;
      }
    }

    /** Compare-and-swap on the stored version. The ledger is stamped even when the swap fails. */
    method Save(l: BuilderLedger?<C>, oldVersion: int) returns (r: Outcome)
      modifies this, l
      ensures l == null ==> r == NilLedger && row == old(row)
      ensures l != null ==> l.Value() == Stamped(old(l.Value()).body, oldVersion)
      ensures l != null ==> row == SaveTo(old(row), old(l.Value()).body, oldVersion)
      ensures l != null ==> r == if Lands(old(row), oldVersion) then Saved else VersionConflict
    {
      if l == null {
        return NilLedger;
      }
      l.version := oldVersion + 1;
      l.schemaVersion := SCHEMA_VERSION;
      if row.NoThread? || DbVersion(row) != oldVersion {
        return VersionConflict;
      }
      row := Stored(l.Value());
      return Saved;
    }

    /** The writes other requests attempt while we are not looking. */
    method Interfere(ws: seq<Write<C>>)
      modifies this
      ensures row == AfterOthers(old(row), ws)
    {
      for k := 0 to |ws|
        invariant AfterOthers(row, ws[k..]) == AfterOthers(old(row), ws)
      {
        assert ws[k..][0] == ws[k] && ws[k..][1..] == ws[k + 1..];
        row := SaveTo(row, ws[k].body, ws[k].oldVersion);
      }
    }

    /** Save, and on conflict reload, reapply and save again, up to maxRetries times. The writes of others
        around each retry are given as the entries of others. */
    method SaveWithRetry(l: BuilderLedger<C>, oldVersion: int, empty: C, reapply: Ledger<C> -> Option<Body<C>>,
                         maxRetries: int, beforeFirst: seq<Write<C>>, others: seq<Interference<C>>) returns (r: Outcome)
      requires |others| == if maxRetries > 0 then maxRetries else 0
      modifies this, l
      ensures var e := SaveEpisode(old(row), empty, old(l.Value()).body, oldVersion, reapply, beforeFirst, others);
              row == e.row && r == e.outcome
    {
      ghost var body := l.Value().body;
      Interfere(beforeFirst);
      r := Save(l, oldVersion);
      if r != VersionConflict {
        return;
      }
      ghost var start := row;
      var attempt := 0;
      while attempt < maxRetries
        invariant 0 <= attempt <= |others|
        invariant RetryFrom(row, empty, reapply, others[attempt..]).row == RetryFrom(start, empty, reapply, others).row
        invariant RetryFrom(row, empty, reapply, others[attempt..]).outcome
                  == RetryFrom(start, empty, reapply, others).outcome
      {
        assert others[attempt..][0] == others[attempt] && others[attempt..][1..] == others[attempt + 1..];
        Interfere(others[attempt].beforeLoad);
        var current := Load(empty);
        var newBody := reapply(current.Value());
        if newBody.None? {
          return Abandoned;
        }
        var freshVersion := current.version;
        var newL := new BuilderLedger(current.Value().(body := newBody.value));
        Interfere(others[attempt].beforeSave);
        r := Save(newL, freshVersion);
        if r != VersionConflict {
          return;
        }
        attempt := attempt + 1;
      }
      return VersionConflict;
    }
  }

  // ----- a failed save means the others got through -----

  /** A reader of this row is told the version a save will be checked against. */
  predicate Loadable<C>(row: Row<C>, empty: C) {
    !row.NoThread? && LoadFrom(row, empty).version == DbVersion(row)
  }

  /** Loadable rows are exactly those without a ledger, with a current ledger, or stuck at version 0. */
  lemma LoadableCases<C>(row: Row<C>, empty: C)
    ensures Loadable(row, empty) <==>
              row.NoLedger? || row == Undecodable(0) ||
              (row.Stored? && (row.ledger.schemaVersion == SCHEMA_VERSION || row.ledger.version == 0))
  {
    match row
    case NoThread =>
    case NoLedger =>
    case Undecodable(_) =>
    case Stored(_) =>
  }

  lemma {:induction false} OthersKeep<C>(row: Row<C>, empty: C, ws: seq<Write<C>>)
    requires Loadable(row, empty)
    ensures Loadable(AfterOthers(row, ws), empty)
    ensures DbVersion(AfterOthers(row, ws)) == DbVersion(row) + OthersLanded(row, ws)
    ensures OthersLanded(row, ws) == 0 ==> AfterOthers(row, ws) == row
    decreases |ws|
  {
    if ws != [] {
      OthersKeep(SaveTo(row, ws[0].body, ws[0].oldVersion), empty, ws[1..]);
    }
  }

  lemma {:induction false} FailedRetriesCount<C>(row: Row<C>, empty: C, reapply: Ledger<C> -> Option<Body<C>>,
                                                 others: seq<Interference<C>>)
    requires Loadable(row, empty)
    ensures RetryFrom(row, empty, reapply, others).outcome == VersionConflict ==>
              RetryFrom(row, empty, reapply, others).landed >= |others|
    decreases |others|
  {
    if others != [] {
      var reloadRow := AfterOthers(row, others[0].beforeLoad);
      OthersKeep(row, empty, others[0].beforeLoad);
      OthersKeep(reloadRow, empty, others[0].beforeSave);
      FailedRetriesCount(AfterOthers(reloadRow, others[0].beforeSave), empty, reapply, others[1..]);
    }
  }

  /** A conflict is reported only after the first try and every retry each lost to a different save that
      landed: with maxRetries retries, at least maxRetries + 1 of them since our load. */
  lemma ConflictMeansProgress<C>(row: Row<C>, empty: C, body: Body<C>, reapply: Ledger<C> -> Option<Body<C>>,
                                 beforeFirst: seq<Write<C>>, others: seq<Interference<C>>)
    requires Loadable(row, empty)
    ensures var e := SaveEpisode(row, empty, body, LoadFrom(row, empty).version, reapply, beforeFirst, others);
            e.outcome == VersionConflict ==> e.landed >= |others| + 1
  {
    OthersKeep(row, empty, beforeFirst);
    FailedRetriesCount(AfterOthers(row, beforeFirst), empty, reapply, others);
  }

  // ----- a row whose schema is not current -----

  predicate AllFromLoads<C>(ws: seq<Write<C>>) {
    forall i | 0 <= i < |ws| :: ws[i].oldVersion == 0
  }

  lemma {:induction false} StuckRowIgnoresOthers<C>(row: Row<C>, empty: C, ws: seq<Write<C>>)
    requires !Loadable(row, empty) && AllFromLoads(ws)
    ensures AfterOthers(row, ws) == row && OthersLanded(row, ws) == 0
  {
    if ws != [] { StuckRowIgnoresOthers(row, empty, ws[1..]); }
  }

  /** When a reader is told another version than the stored one, every retrying save of every reader
      conflicts, with nobody else writing, and the row never changes. */
  lemma {:induction false} StuckRowConflictsForever<C>(row: Row<C>, empty: C, body: Body<C>, reapply: Ledger<C> -> Option<Body<C>>,
                                    beforeFirst: seq<Write<C>>, others: seq<Interference<C>>)
    requires !Loadable(row, empty)
    requires AllFromLoads(beforeFirst)
    requires forall i :: 0 <= i < |others| ==> AllFromLoads(others[i].beforeLoad) && AllFromLoads(others[i].beforeSave)
    requires forall l :: reapply(l).Some?
    ensures SaveEpisode(row, empty, body, LoadFrom(row, empty).version, reapply, beforeFirst, others)
            == Episode(row, VersionConflict, 0)
  {
    StuckRowIgnoresOthers(row, empty, beforeFirst);
    StuckRetries(row, empty, reapply, others);
  }

  lemma {:induction false} StuckRetries<C>(row: Row<C>, empty: C, reapply: Ledger<C> -> Option<Body<C>>,
                                           others: seq<Interference<C>>)
    requires !Loadable(row, empty)
    requires forall i :: 0 <= i < |others| ==> AllFromLoads(others[i].beforeLoad) && AllFromLoads(others[i].beforeSave)
    requires forall l :: reapply(l).Some?
    ensures RetryFrom(row, empty, reapply, others) == Episode(row, VersionConflict, 0)
  {
    if others != [] {
      StuckRowIgnoresOthers(row, empty, others[0].beforeLoad);
      StuckRowIgnoresOthers(row, empty, others[0].beforeSave);
      StuckRetries(row, empty, reapply, others[1..]);
    }
  }
}
