// Any number of clients turning over one ledger row: load, change, compare-and-swap, and on conflict
// reload, reapply and try again, in any interleaving. What is kept and what can be lost.
module LedgerProtocol {
  import opened BuilderLedgers

  /** What one turn does to the ledger it works on. */
  type Change<!C> = Body<C> -> Body<C>

  /** How a client rebuilds its draft from its change, the draft that lost, and the reloaded ledger. */
  type Reapply<!C> = (Change<C>, Body<C>, Body<C>) -> Body<C>

  datatype Client<!C> =
    | Idle
    | Ready(change: Change<C>, draft: Body<C>, oldVersion: int)
    | Conflicted(change: Change<C>, draft: Body<C>)

  datatype Commit<!C> = Commit(client: nat, change: Change<C>, oldVersion: int)

  /** The shared row, each client's turn, and the log of saves that landed. */
  datatype System<!C> = System(row: Row<C>, clients: map<nat, Client<C>>, commits: seq<Commit<C>>)

  datatype Step<!C> =
    | Begin(client: nat, change: Change<C>)
    | TrySave(client: nat)
    | Reload(client: nat)
    | GiveUp(client: nat)

  function ClientOf<C>(s: System<C>, c: nat): Client<C> {
    if c in s.clients then s.clients[c] else Idle
  }

  /** One step of one client; a step the client is not ready for does nothing. */
  function Apply<C>(s: System<C>, step: Step<C>, empty: C, reapply: Reapply<C>): System<C> {
    var c := step.client;
    var now := ClientOf(s, c);
    var current := LoadFrom(s.row, empty);
    match step
    case Begin(_, change) =>
      if !now.Idle? then s
      else s.(clients := s.clients[c := Ready(change, change(current.body), current.version)])
    case TrySave(_) =>
      if !now.Ready? then s
      else if Lands(s.row, now.oldVersion) then
        System(SaveTo(s.row, now.draft, now.oldVersion), s.clients[c := Idle],
               s.commits + [Commit(c, now.change, now.oldVersion)])
      else s.(clients := s.clients[c := Conflicted(now.change, now.draft)])
    case Reload(_) =>
      if !now.Conflicted? then s
      else s.(clients := s.clients[c := Ready(now.change, reapply(now.change, now.draft, current.body), current.version)])
    case GiveUp(_) =>
      if !now.Conflicted? then s else s.(clients := s.clients[c := Idle])
  }

  function Start<C>(row: Row<C>): System<C> {
    System(row, map[], [])
  }

  function Exec<C>(row: Row<C>, steps: seq<Step<C>>, empty: C, reapply: Reapply<C>): System<C> {
    if steps == [] then Start(row)
    else Apply(Exec(row, steps[..|steps| - 1], empty, reapply), steps[|steps| - 1], empty, reapply)
  }

  // ----- versions, for any reapply -----

  /** Versions grow by one per commit, and the k-th commit is the only winner of version start + k. */
  ghost predicate Versioned<C>(row: Row<C>, s: System<C>) {
    && DbVersion(s.row) == DbVersion(row) + |s.commits|
    && (forall k :: 0 <= k < |s.commits| ==> s.commits[k].oldVersion == DbVersion(row) + k)
    && (s.commits == [] ==> s.row == row)
    && (s.commits != [] ==> s.row.Stored? && s.row.ledger.schemaVersion == SCHEMA_VERSION)
  }

  lemma {:induction false} VersionsGrowByOne<C>(row: Row<C>, steps: seq<Step<C>>, empty: C, reapply: Reapply<C>)
    ensures Versioned(row, Exec(row, steps, empty, reapply))
  {
    if steps != [] {
      VersionsGrowByOne(row, steps[..|steps| - 1], empty, reapply);
    }
  }

  /** No two saves ever win the same version, whatever the clients do. */
  lemma OneWinnerPerVersion<C>(row: Row<C>, steps: seq<Step<C>>, empty: C, reapply: Reapply<C>, i: nat, j: nat)
    requires i < |Exec(row, steps, empty, reapply).commits| && j < |Exec(row, steps, empty, reapply).commits|
    requires Exec(row, steps, empty, reapply).commits[i].oldVersion == Exec(row, steps, empty, reapply).commits[j].oldVersion
    ensures i == j
  {
    VersionsGrowByOne(row, steps, empty, reapply);
  }

  // ----- no lost update -----

  /** The winners' changes, applied in commit order to what the first reader saw. */
  function Fold<C>(start: Body<C>, commits: seq<Commit<C>>): Body<C> {
    if commits == [] then start
    else commits[|commits| - 1].change(Fold(start, commits[..|commits| - 1]))
  }

  /** The reapplied draft is the client's own change made to the reloaded ledger. */
  ghost predicate BuildsOnFresh<C(!new)>(reapply: Reapply<C>) {
    forall change: Change<C>, seen: Body<C>, now: Body<C> :: reapply(change, change(seen), now) == change(now)
  }

  /** Nothing any winner did is missing from what a reader now gets. */
  ghost predicate NothingLost<C>(row: Row<C>, s: System<C>, empty: C) {
    LoadFrom(s.row, empty).body == Fold(LoadFrom(row, empty).body, s.commits)
  }

  /** A draft made against a version is the client's change applied to the ledger as of that version. */
  ghost predicate InStep<C(!new)>(row: Row<C>, commits: seq<Commit<C>>, client: Client<C>, empty: C) {
    match client
    case Idle => true
    case Conflicted(change, draft) => exists seen :: draft == change(seen)
    case Ready(change, draft, v) =>
      var k := v - DbVersion(row);
      0 <= k <= |commits| && draft == change(Fold(LoadFrom(row, empty).body, commits[..k]))
  }

  ghost predicate AllInStep<C(!new)>(row: Row<C>, s: System<C>, empty: C) {
    forall c :: c in s.clients ==> InStep(row, s.commits, s.clients[c], empty)
  }

  lemma StaysInStep<C(!new)>(row: Row<C>, s: System<C>, empty: C, extra: seq<Commit<C>>)
    requires AllInStep(row, s, empty)
    ensures forall c :: c in s.clients ==> InStep(row, s.commits + extra, s.clients[c], empty)
  {
    forall c | c in s.clients ensures InStep(row, s.commits + extra, s.clients[c], empty) {
      assert InStep(row, s.commits, s.clients[c], empty);
      if s.clients[c].Ready? {
        var k := s.clients[c].oldVersion - DbVersion(row);
        assert (s.commits + extra)[..k] == s.commits[..k];
      }
    }
  }

  lemma FoldOne<C>(start: Body<C>, commits: seq<Commit<C>>, last: Commit<C>)
    ensures Fold(start, commits + [last]) == last.change(Fold(start, commits))
  {
    assert (commits + [last])[..|commits|] == commits;
  }

  /** A landed save commits the client's change to everything committed so far. */
  lemma SaveKeepsAll<C(!new)>(row: Row<C>, s: System<C>, empty: C, c: nat)
    requires Versioned(row, s) && NothingLost(row, s, empty) && AllInStep(row, s, empty)
    requires ClientOf(s, c).Ready? && Lands(s.row, ClientOf(s, c).oldVersion)
    ensures var now := ClientOf(s, c);
            LoadFrom(SaveTo(s.row, now.draft, now.oldVersion), empty).body
            == Fold(LoadFrom(row, empty).body, s.commits + [Commit(c, now.change, now.oldVersion)])
  {
    var now := ClientOf(s, c);
    FoldOne(LoadFrom(row, empty).body, s.commits, Commit(c, now.change, now.oldVersion));
    DraftIsCurrent(row, s, empty, now);
  }

  /** A draft whose version is the stored one was made against everything committed so far. */
  lemma DraftIsCurrent<C(!new)>(row: Row<C>, s: System<C>, empty: C, now: Client<C>)
    requires Versioned(row, s) && now.Ready? && InStep(row, s.commits, now, empty) && DbVersion(s.row) == now.oldVersion
    ensures now.draft == now.change(Fold(LoadFrom(row, empty).body, s.commits))
  {
    assert s.commits[..|s.commits|] == s.commits;
  }

  lemma OneClientMoves<C(!new)>(row: Row<C>, s: System<C>, empty: C, c: nat, client: Client<C>)
    requires AllInStep(row, s, empty) && InStep(row, s.commits, client, empty)
    ensures AllInStep(row, s.(clients := s.clients[c := client]), empty)
  {
  }

  /** A draft made from what a reader now gets. */
  lemma FreshDraft<C(!new)>(row: Row<C>, s: System<C>, empty: C, change: Change<C>)
    requires Versioned(row, s) && Loadable(s.row, empty) && NothingLost(row, s, empty)
    ensures var current := LoadFrom(s.row, empty);
            InStep(row, s.commits, Ready(change, change(current.body), current.version), empty)
  {
    assert s.commits[..|s.commits|] == s.commits;
  }

  lemma LandedKeepsAll<C(!new)>(row: Row<C>, s: System<C>, empty: C, c: nat)
    requires Versioned(row, s) && NothingLost(row, s, empty) && AllInStep(row, s, empty)
    requires ClientOf(s, c).Ready? && Lands(s.row, ClientOf(s, c).oldVersion)
    ensures var now := ClientOf(s, c);
            var t := System(SaveTo(s.row, now.draft, now.oldVersion), s.clients[c := Idle],
                            s.commits + [Commit(c, now.change, now.oldVersion)]);
            NothingLost(row, t, empty) && AllInStep(row, t, empty) && Loadable(t.row, empty)
  {
    SaveKeepsAll(row, s, empty, c);
    StaysInStep(row, s, empty, [Commit(c, ClientOf(s, c).change, ClientOf(s, c).oldVersion)]);
  }

  lemma ApplyKeepsAll<C(!new)>(row: Row<C>, s: System<C>, step: Step<C>, empty: C, reapply: Reapply<C>)
    requires BuildsOnFresh(reapply)
    requires Versioned(row, s) && Loadable(s.row, empty)
    requires NothingLost(row, s, empty) && AllInStep(row, s, empty)
    ensures var t := Apply(s, step, empty, reapply);
            NothingLost(row, t, empty) && AllInStep(row, t, empty) && Loadable(t.row, empty)
  {
    var c := step.client;
    var now := ClientOf(s, c);
    var current := LoadFrom(s.row, empty);
    match step
    case Begin(_, change) =>
      FreshDraft(row, s, empty, change);
      OneClientMoves(row, s, empty, c, Ready(change, change(current.body), current.version));
    case TrySave(_) =>
      if now.Ready? && Lands(s.row, now.oldVersion) {
        LandedKeepsAll(row, s, empty, c);
      } else if now.Ready? {
        assert InStep(row, s.commits, now, empty);
        OneClientMoves(row, s, empty, c, Conflicted(now.change, now.draft));
      }
    case Reload(_) =>
      if now.Conflicted? {
        assert InStep(row, s.commits, now, empty);
        RebuiltDraft(now, current.body, reapply);
        FreshDraft(row, s, empty, now.change);
        OneClientMoves(row, s, empty, c, Ready(now.change, now.change(current.body), current.version));
      }
    case GiveUp(_) =>
      OneClientMoves(row, s, empty, c, Idle);
  }

  /** What a conflicted client reapplies is its own change to the reloaded ledger. */
  lemma RebuiltDraft<C(!new)>(now: Client<C>, current: Body<C>, reapply: Reapply<C>)
    requires BuildsOnFresh(reapply) && now.Conflicted? && exists seen :: now.draft == now.change(seen)
    ensures reapply(now.change, now.draft, current) == now.change(current)
  {
    var seen :| now.draft == now.change(seen);
    assert reapply(now.change, now.change(seen), current) == now.change(current);
  }

  /** When a reader is told another version than the stored one, no draft can ever match it. */
  ghost predicate Stuck<C>(row: Row<C>, s: System<C>, empty: C) {
    && s.row == row && s.commits == []
    && forall c :: c in s.clients && s.clients[c].Ready? ==> s.clients[c].oldVersion == LoadFrom(row, empty).version
  }

  lemma {:induction false} StuckForever<C>(row: Row<C>, steps: seq<Step<C>>, empty: C, reapply: Reapply<C>)
    requires !Loadable(row, empty)
    ensures Stuck(row, Exec(row, steps, empty, reapply), empty)
  {
    if steps != [] {
      StuckForever(row, steps[..|steps| - 1], empty, reapply);
    }
  }

  lemma {:induction false} LoadableRunKeepsAll<C(!new)>(row: Row<C>, steps: seq<Step<C>>, empty: C, reapply: Reapply<C>)
    requires BuildsOnFresh(reapply) && Loadable(row, empty)
    ensures var s := Exec(row, steps, empty, reapply);
            NothingLost(row, s, empty) && AllInStep(row, s, empty) && Loadable(s.row, empty)
  {
    if steps != [] {
      var n := |steps| - 1;
      LoadableRunKeepsAll(row, steps[..n], empty, reapply);
      VersionsGrowByOne(row, steps[..n], empty, reapply);
      ApplyKeepsAll(row, Exec(row, steps[..n], empty, reapply), steps[n], empty, reapply);
    }
  }

  /** With a reapply that builds on the reloaded ledger, in every interleaving of any number of clients
      the stored ledger is every winner's change folded in commit order. */
  lemma NoLostUpdate<C(!new)>(row: Row<C>, steps: seq<Step<C>>, empty: C, reapply: Reapply<C>)
    requires BuildsOnFresh(reapply)
    ensures NothingLost(row, Exec(row, steps, empty, reapply), empty)
  {
    if Loadable(row, empty) {
      LoadableRunKeepsAll(row, steps, empty, reapply);
    } else {
      StuckForever(row, steps, empty, reapply);
    }
  }

  // ----- exactly which reapply functions lose nothing -----

  function Put<C>(now: Body<C>): Change<C> {
    b => now
  }

  /** Client 0 loads, client 1 commits `now` over it, client 0 conflicts, reloads, reapplies and commits. */
  function Race<C>(change: Change<C>, now: Body<C>): seq<Step<C>> {
    [Begin(0, change), Begin(1, Put(now)), TrySave(1), TrySave(0), Reload(0), TrySave(0)]
  }

  lemma ExecStep<C>(row: Row<C>, steps: seq<Step<C>>, k: nat, empty: C, reapply: Reapply<C>)
    requires k < |steps|
    ensures Exec(row, steps[..k + 1], empty, reapply) ==
            Apply(Exec(row, steps[..k], empty, reapply), steps[k], empty, reapply)
  {
    assert steps[..k + 1][..k] == steps[..k];
  }

  lemma RaceFirstHalf<C(!new)>(seen: Body<C>, change: Change<C>, now: Body<C>, empty: C, reapply: Reapply<C>)
    ensures var s := Exec(Stored(Ledger(1, SCHEMA_VERSION, seen)), Race(change, now)[..3], empty, reapply);
            && s.row == Stored(Ledger(2, SCHEMA_VERSION, now))
            && ClientOf(s, 0) == Ready(change, change(seen), 1)
            && s.commits == [Commit(1, Put(now), 1)]
  {
    var row := Stored(Ledger(1, SCHEMA_VERSION, seen));
    var steps := Race(change, now);
    ExecStep(row, steps, 0, empty, reapply);
    ExecStep(row, steps, 1, empty, reapply);
    ExecStep(row, steps, 2, empty, reapply);
    assert steps[..0] == [];
    var s2 := Exec(row, steps[..2], empty, reapply);
    assert s2.row == row && s2.commits == [];
    assert ClientOf(s2, 0) == Ready(change, change(seen), 1) && ClientOf(s2, 1) == Ready(Put(now), now, 1);
  }

  lemma RaceSecondHalf<C(!new)>(seen: Body<C>, change: Change<C>, now: Body<C>, empty: C, reapply: Reapply<C>)
    ensures var s := Exec(Stored(Ledger(1, SCHEMA_VERSION, seen)), Race(change, now), empty, reapply);
            && s.row == Stored(Ledger(3, SCHEMA_VERSION, reapply(change, change(seen), now)))
            && s.commits == [Commit(1, Put(now), 1), Commit(0, change, 2)]
  {
    var row := Stored(Ledger(1, SCHEMA_VERSION, seen));
    var steps := Race(change, now);
    RaceFirstHalf(seen, change, now, empty, reapply);
    ExecStep(row, steps, 3, empty, reapply);
    ExecStep(row, steps, 4, empty, reapply);
    ExecStep(row, steps, 5, empty, reapply);
    assert steps[..6] == steps;
    var s5 := Exec(row, steps[..5], empty, reapply);
    assert ClientOf(s5, 0) == Ready(change, reapply(change, change(seen), now), 2);
  }

  /** After the race the row holds the reapplied draft, while the winners' changes fold to change(now). */
  lemma RaceOutcome<C(!new)>(seen: Body<C>, change: Change<C>, now: Body<C>, empty: C, reapply: Reapply<C>)
    ensures var row := Stored(Ledger(1, SCHEMA_VERSION, seen));
            var s := Exec(row, Race(change, now), empty, reapply);
            && LoadFrom(s.row, empty).body == reapply(change, change(seen), now)
            && Fold(LoadFrom(row, empty).body, s.commits) == change(now)
  {
    RaceSecondHalf(seen, change, now, empty, reapply);
    var one: seq<Commit<C>> := [Commit(1, Put(now), 1)];
    var two: seq<Commit<C>> := [Commit(1, Put(now), 1), Commit(0, change, 2)];
    assert two[..1] == one && one[..0] == [];
    assert Fold(seen, one) == now;
  }

  /** Exact: updates are never lost, in any run from any row, if and only if reapply builds on the
      reloaded ledger. */
  lemma NoLostUpdateExactly<C(!new)>(empty: C, reapply: Reapply<C>)
    ensures BuildsOnFresh(reapply) <==>
            forall row: Row<C>, steps: seq<Step<C>> :: NothingLost(row, Exec(row, steps, empty, reapply), empty)
  {
    if BuildsOnFresh(reapply) {
      forall row: Row<C>, steps: seq<Step<C>> ensures NothingLost(row, Exec(row, steps, empty, reapply), empty) {
        NoLostUpdate(row, steps, empty, reapply);
      }
    } else {
      var change: Change<C>, seen: Body<C>, now: Body<C> :| reapply(change, change(seen), now) != change(now);
      RaceOutcome(seen, change, now, empty, reapply);
      assert !NothingLost(Stored(Ledger(1, SCHEMA_VERSION, seen)),
          Exec(Stored(Ledger(1, SCHEMA_VERSION, seen)), Race(change, now), empty, reapply), empty);
    }
  }

  /** The builder turn's own closure returns its draft and never looks at the reloaded ledger. */
  function KeepDraft<C>(change: Change<C>, draft: Body<C>, reloaded: Body<C>): Body<C> {
    draft
  }

  /** So, as soon as a ledger can hold two different values, some run loses an update. */
  lemma KeepDraftLosesUpdates<C(!new)>(empty: C, a: Body<C>, b: Body<C>) returns (row: Row<C>, steps: seq<Step<C>>)
    requires a != b
    ensures !NothingLost(row, Exec(row, steps, empty, KeepDraft), empty)
  {
    var identity: Change<C> := x => x;
    row := Stored(Ledger(1, SCHEMA_VERSION, a));
    steps := Race(identity, b);
    RaceOutcome(a, identity, b, empty, KeepDraft);
  }

  // ----- when anybody can commit at all -----

  /** Exact: some client can get a save through if and only if a reader of the row is told the version the
      save will be checked against. A ledger of another schema with a positive version never changes again. */
  lemma CanCommit<C(!new)>(row: Row<C>, empty: C, reapply: Reapply<C>)
    ensures (exists steps: seq<Step<C>> :: Exec(row, steps, empty, reapply).commits != []) <==> Loadable(row, empty)
  {
    if Loadable(row, empty) {
      var change: Change<C> := b => b;
      var steps: seq<Step<C>> := [Begin(0, change), TrySave(0)];
      ExecStep(row, steps, 0, empty, reapply);
      ExecStep(row, steps, 1, empty, reapply);
      assert steps[..0] == [] && steps[..2] == steps;
      assert ClientOf(Exec(row, steps[..1], empty, reapply), 0).Ready?;
      assert |Exec(row, steps, empty, reapply).commits| == 1;
    } else {
      forall steps: seq<Step<C>> ensures Exec(row, steps, empty, reapply).commits == [] {
        StuckForever(row, steps, empty, reapply);
      }
    }
  }
}
