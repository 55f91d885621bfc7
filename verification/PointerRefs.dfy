// The reference grammar of the pointer gate (refPattern in pkg/mission/pointer.go), character by character.
module PointerRefs {
  import opened Text
  import opened Pointer

  predicate Digits(s: string) {
    s != "" && forall i | 0 <= i < |s| :: '0' <= s[i] <= '9'
  }

  /** A name without dot and brackets. */
  predicate Name(s: string) {
    s != "" && forall i | 0 <= i < |s| :: s[i] != '.' && s[i] != '[' && s[i] != ']'
  }

  /** m, one or more letters, digits, underscores or hyphens, and a dot; or nothing. */
  predicate MissionPart(s: string) {
    s == "" ||
    (|s| > 2 && s[0] == 'm' && s[|s| - 1] == '.'
     && forall i | 1 <= i < |s| - 1 ::
          '0' <= s[i] <= '9' || 'A' <= s[i] <= 'Z' || 'a' <= s[i] <= 'z' || s[i] == '_' || s[i] == '-')
  }

  /** A column name, with or without a row number in brackets. */
  ghost predicate Column(s: string) {
    Name(s) || exists name, row :: Name(name) && Digits(row) && s == name + "[" + row + "]"
  }

  /** A dot and a column; or nothing. */
  ghost predicate CellPart(s: string) {
    s == "" || (s[0] == '.' && Column(s[1..]))
  }

  /** These three parts make up the text: which mission, which step, which cell. */
  ghost predicate Spells(s: string, mission: string, step: string, cell: string) {
    s == mission + "t" + step + cell && MissionPart(mission) && Digits(step) && CellPart(cell)
  }

  lemma ColumnMade(name: string, row: string)
    requires Name(name) && Digits(row)
    ensures IsCellSuffix(name + "[" + row + "]")
  {
    var s, k := name + "[" + row + "]", |name|;
    assert s[..k] == name && s[k] == '[' && s[k + 1..|s| - 1] == row;
  }

  lemma SuffixCases(s: string)
    ensures IsCellSuffix(s) <==> Column(s)
  {
    if IsCellSuffix(s) && !IsColumnName(s) {
      var k :| 1 <= k < |s| - 2 && IsColumnName(s[..k]) && s[k] == '[' && s[|s| - 1] == ']' && IsDigits(s[k + 1..|s| - 1]);
      assert Name(s[..k]) && Digits(s[k + 1..|s| - 1]);
      assert s == s[..k] + "[" + s[k + 1..|s| - 1] + "]";
    }
    if name, row :| Name(name) && Digits(row) && s == name + "[" + row + "]" { ColumnMade(name, row); }
  }

  lemma Cut(s: string, k: nat)
    requires k < |s|
    ensures s == s[..k] + s[k..] && s[k..][1..] == s[k + 1..] && s[k..][0] == s[k]
    ensures s == s[..k + 1] + s[k + 1..] && s[..k + 1][..k] == s[..k] && s[..k + 1][k] == s[k]
  {
  }

  lemma StepParts(id: string)
    requires IsStepId(id)
    ensures Digits(id[1..]) && id == "t" + id[1..]
  {
  }

  lemma LocalParts(s: string) returns (step: string, cell: string)
    requires IsLocalRef(s)
    ensures Digits(step) && CellPart(cell) && s == "t" + step + cell
  {
    if IsStepId(s) {
      StepParts(s);
      step, cell := s[1..], "";
    } else {
      var k :| 0 <= k < |s| && IsStepId(s[..k]) && s[k] == '.' && IsCellSuffix(s[k + 1..]);
      StepParts(s[..k]);
      SuffixCases(s[k + 1..]);
      Cut(s, k);
      step, cell := s[..k][1..], s[k..];
    }
  }

  lemma LocalMade(step: string, cell: string)
    requires Digits(step) && CellPart(cell)
    ensures IsLocalRef("t" + step + cell)
  {
    var s, k := "t" + step + cell, 1 + |step|;
    assert s[..k] == "t" + step && ("t" + step)[1..] == step;
    if cell == "" {
      assert s == "t" + step;
    } else {
      SuffixCases(cell[1..]);
      assert s[k] == '.' && s[k + 1..] == cell[1..];
    }
  }

  ghost predicate HasMission(t: string) {
    exists k | 0 <= k < |t| :: IsMissionId(t[..k]) && t[k] == '.' && IsLocalRef(t[k + 1..])
  }

  lemma MissionCases(s: string)
    requires s != ""
    ensures MissionPart(s) <==> s[|s| - 1] == '.' && IsMissionId(s[..|s| - 1])
  {
  }

  lemma MissionMade(mission: string, rest: string)
    requires mission != "" && MissionPart(mission) && IsLocalRef(rest)
    ensures HasMission(mission + rest)
  {
    var t, k := mission + rest, |mission| - 1;
    MissionCases(mission);
    assert t[..k] == mission[..k] && t[k] == '.' && t[k + 1..] == rest;
  }

  lemma Regrouped(mission: string, step: string, cell: string)
    ensures mission + ("t" + step + cell) == mission + "t" + step + cell
    ensures "" + "t" + step + cell == "t" + step + cell
  {
  }

  lemma RefParts(t: string) returns (mission: string, step: string, cell: string)
    requires IsLocalRef(t) || HasMission(t)
    ensures Spells(t, mission, step, cell)
  {
    if IsLocalRef(t) {
      step, cell := LocalParts(t);
      mission := "";
      Regrouped("", step, cell);
    } else {
      var k :| 0 <= k < |t| && IsMissionId(t[..k]) && t[k] == '.' && IsLocalRef(t[k + 1..]);
      step, cell := LocalParts(t[k + 1..]);
      mission := t[..k + 1];
      Cut(t, k);
      MissionCases(mission);
      Regrouped(mission, step, cell);
    }
  }

  lemma RefMade(t: string, mission: string, step: string, cell: string)
    requires Spells(t, mission, step, cell)
    ensures IsLocalRef(t) || HasMission(t)
  {
    LocalMade(step, cell);
    assert t == mission + ("t" + step + cell);
    if mission == "" { assert t == "t" + step + cell; } else { MissionMade(mission, "t" + step + cell); }
  }

  /** Exact: a text is a reference if and only if, trimmed, it is t and a number, with a mission before it or
      none, and a column behind it, a cell of a column, or nothing. */
  lemma RefExactly(s: string)
    ensures IsRef(s) <==> exists mission, step, cell :: Spells(TrimSpace(s), mission, step, cell)
  {
    var t := TrimSpace(s);
    assert IsRef(s) <==> IsLocalRef(t) || HasMission(t);
    if IsRef(s) { var mission, step, cell := RefParts(t); }
    if mission, step, cell :| Spells(t, mission, step, cell) { RefMade(t, mission, step, cell); }
  }
}
