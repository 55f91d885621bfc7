// The correction the pointer gate asks for (pkg/mission/pointer.go): writing, in place of each copied literal,
// the reference the violation names; and exactly when that satisfies the gate.
module PointerRepair {
  import opened Wrappers
  import opened MissionTypes
  import opened Text
  import opened Pointer
  import opened PointerPaths
  import opened PointerGate

  // ----- which references are references -----

  /** A mission id, a dot and a step id. */
  ghost predicate IsMissionStep(s: string) {
    exists k | 0 <= k < |s| :: IsMissionId(s[..k]) && s[k] == '.' && IsStepId(s[k + 1..])
  }

  /** A step id, a dot and a column name. */
  ghost predicate IsStepColumn(s: string) {
    exists k | 0 <= k < |s| :: IsStepId(s[..k]) && s[k] == '.' && IsColumnName(s[k + 1..])
  }

  /** A step id and a column name that a reference can spell: a task's step, perhaps of a named mission, and a
      column without dot or bracket. White space before the step id is trimmed away. */
  ghost predicate Spelled(step: string, col: string) {
    var s := TrimLeft(step);
    || ((IsStepId(s) || IsMissionStep(s)) && IsColumnName(col))
    || (IsMissionId(s) && IsStepColumn(col))
  }

  function Brackets(row: string): string {
    "[" + row + "]"
  }

  lemma BracketsAt(col: string, row: string)
    requires row != ""
    ensures var s, n := col + Brackets(row), |col|;
            |s| > n + 2 && s[..n] == col && s[n] == '[' && s[|s| - 1] == ']' && s[n + 1..|s| - 1] == row
  {
  }

  /** Neither a column name nor a row number holds a bracket. */
  lemma OneBracket(s: string, n: nat, k: nat)
    requires n < |s| - 1 && s[n] == '[' && k < |s| - 1
    requires IsColumnName(s[..k]) && IsDigits(s[k + 1..|s| - 1])
    ensures k == n
  {
    var front, back := s[..k], s[k + 1..|s| - 1];
    assert forall i :: 0 <= i < k ==> s[i] == front[i];
    assert forall i :: k < i < |s| - 1 ==> s[i] == back[i - k - 1];
  }

  lemma SuffixExactly(col: string, row: string)
    requires IsDigits(row)
    ensures IsCellSuffix(col + Brackets(row)) <==> IsColumnName(col)
  {
    var s := col + Brackets(row);
    BracketsAt(col, row);
    if IsCellSuffix(s) {
      var k :| 1 <= k < |s| - 2 && IsColumnName(s[..k]) && s[k] == '[' && IsDigits(s[k + 1..|s| - 1]);
      OneBracket(s, |col|, k);
    }
  }

  /** What follows the dot of a local reference holds no dot. */
  lemma SuffixHasNoDot(s: string, i: nat)
    requires IsCellSuffix(s) && i < |s|
    ensures s[i] != '.'
  {
    if !IsColumnName(s) {
      var k :| 1 <= k < |s| - 2 && IsColumnName(s[..k]) && s[k] == '[' && IsDigits(s[k + 1..|s| - 1]);
      if i < k { assert s[..k][i] == s[i]; }
      if k < i < |s| - 1 { assert s[k + 1..|s| - 1][i - k - 1] == s[i]; }
    }
  }

  lemma StepIdHasNoDot(s: string, i: nat)
    requires IsStepId(s) && i < |s|
    ensures s[i] != '.' && s[i] != '[' && s[i] != ']'
  {
    if i > 0 { assert s[1..][i - 1] == s[i]; }
  }

  /** A step id is cut off at the first dot of a local reference. */
  lemma LocalExactly(step: string, suffix: string)
    requires suffix != "" && suffix[|suffix| - 1] == ']'
    ensures IsLocalRef(step + "." + suffix) <==> IsStepId(step) && IsCellSuffix(suffix)
  {
    var s := step + "." + suffix;
    var n := |step|;
    assert s[..n] == step && s[n] == '.' && s[n + 1..] == suffix;
    if IsStepId(s) { StepIdHasNoDot(s, n); }
    if IsLocalRef(s) {
      var k :| 0 <= k < |s| && IsStepId(s[..k]) && s[k] == '.' && IsCellSuffix(s[k + 1..]);
      if k > n { StepIdHasNoDot(s[..k], n); }
      if k < n { SuffixHasNoDot(s[k + 1..], n - k - 1); }
    }
  }

  /** Of a cell's suffix without a step before it: a local reference only by a dot in the column name. */
  lemma ColumnAsLocal(col: string, row: string)
    requires IsDigits(row)
    ensures IsLocalRef(col + Brackets(row)) <==> IsStepColumn(col)
  {
    var s := col + Brackets(row);
    if IsStepColumn(col) {
      var k :| 0 <= k < |col| && IsStepId(col[..k]) && col[k] == '.' && IsColumnName(col[k + 1..]);
      assert s == col[..k] + "." + (col[k + 1..] + Brackets(row));
      SuffixExactly(col[k + 1..], row);
      LocalExactly(col[..k], col[k + 1..] + Brackets(row));
    }
    if IsLocalRef(s) {
      if IsStepId(s) { StepIdHasNoDot(s, |s| - 1); }
      var k :| 0 <= k < |s| && IsStepId(s[..k]) && s[k] == '.' && IsCellSuffix(s[k + 1..]);
      if k > |col| { StepIdHasNoDot(s[..k], |col|); }
      if k < |col| {
        ColumnCut(col, row, k);
      } else {
        assert false;
      }
    }
  }

  lemma ColumnCut(col: string, row: string, k: nat)
    requires IsDigits(row) && k < |col|
    requires var s := col + Brackets(row); IsStepId(s[..k]) && s[k] == '.' && IsCellSuffix(s[k + 1..])
    ensures IsStepColumn(col)
  {
    var s := col + Brackets(row);
    assert s[..k] == col[..k] && s[k + 1..] == col[k + 1..] + Brackets(row);
    SuffixExactly(col[k + 1..], row);
  }

  lemma MissionIdHasNoDot(s: string, i: nat)
    requires IsMissionId(s) && i < |s|
    ensures s[i] != '.'
  {
  }

  /** A mission id before a local reference, wherever its dot is. */
  lemma MissionExactly(s: string, suffix: string, col: string, row: string)
    requires suffix == col + Brackets(row) && IsDigits(row)
    ensures IsMissionRef(s + "." + suffix) <==>
              (IsMissionStep(s) && IsColumnName(col)) || (IsMissionId(s) && IsStepColumn(col))
  {
    var t, n := s + "." + suffix, |s|;
    assert t[..n] == s && t[n] == '.' && t[n + 1..] == suffix;
    SuffixExactly(col, row);
    ColumnAsLocal(col, row);
    if IsMissionRef(t) {
      var k :| 0 <= k < |t| && IsMissionId(t[..k]) && t[k] == '.' && IsLocalRef(t[k + 1..]);
      if k > n { MissionIdHasNoDot(t[..k], n); }
      if k < n { MissionCut(s, suffix, k); }
    }
    if IsMissionStep(s) && IsColumnName(col) {
      var k :| 0 <= k < |s| && IsMissionId(s[..k]) && s[k] == '.' && IsStepId(s[k + 1..]);
      MissionCut(s, suffix, k);
    }
  }

  /** A dot inside s cuts both texts alike. */
  lemma MissionCut(s: string, suffix: string, k: nat)
    requires k < |s| && suffix != "" && suffix[|suffix| - 1] == ']'
    ensures var t := s + "." + suffix;
            && t[..k] == s[..k] && t[k] == s[k]
            && (IsLocalRef(t[k + 1..]) <==> IsStepId(s[k + 1..]) && IsCellSuffix(suffix))
  {
    var t := s + "." + suffix;
    assert t[k + 1..] == s[k + 1..] + "." + suffix;
    LocalExactly(s[k + 1..], suffix);
  }

  ghost predicate IsMissionRef(t: string) {
    exists k | 0 <= k < |t| :: IsMissionId(t[..k]) && t[k] == '.' && IsLocalRef(t[k + 1..])
  }

  lemma {:induction false} TrimBeforeDot(step: string, rest: string)
    requires rest != "" && rest[0] == '.' && !IsSpace(rest[|rest| - 1])
    ensures TrimSpace(step + rest) == TrimLeft(step) + rest
  {
    if step != "" && IsSpace(step[0]) {
      assert (step + rest)[1..] == step[1..] + rest;
      TrimBeforeDot(step[1..], rest);
    } else {
      NothingToTrim(step + rest);
    }
  }

  /** The reference printed for a cell, as the gate reads it. */
  lemma RefTrimmed(c: Cell)
    ensures TrimSpace(RefTo(c)) == TrimLeft(c.step) + "." + (c.col + Brackets(Decimal(c.row)))
  {
    var rest := "." + (c.col + Brackets(Decimal(c.row)));
    assert RefTo(c) == c.step + rest;
    assert rest[|rest| - 1] == ']';
    TrimBeforeDot(c.step, rest);
    assert TrimLeft(c.step) + rest == TrimLeft(c.step) + "." + (c.col + Brackets(Decimal(c.row)));
  }

  /** Exact, for any step id and column name: the reference printed for a cell is recognised as a reference. */
  lemma RefToIsRef(c: Cell)
    ensures IsRef(RefTo(c)) <==> Spelled(c.step, c.col)
  {
    var s, row := TrimLeft(c.step), Decimal(c.row);
    var suffix := c.col + Brackets(row);
    RefTrimmed(c);
    LocalExactly(s, suffix);
    SuffixExactly(c.col, row);
    MissionExactly(s, suffix, c.col, row);
    assert IsRef(RefTo(c)) <==> IsLocalRef(s + "." + suffix) || IsMissionRef(s + "." + suffix);
  }

  // ----- the repaired value -----

  /** The value with every offending literal replaced by the reference the violation names. */
  function Repair(v: Value, index: map<string, string>, exempt: Exempt): Value {
    match v
    case Text(t) => if Offends(t, index, exempt) then Text(index[TrimSpace(t)]) else v
    case Object(fields) => Object(map k | k in fields :: Repair(fields[k], index, exempt))
    case Items(items) => Items(seq(|items|, i requires 0 <= i < |items| => Repair(items[i], index, exempt)))
    case Scalar => v
  }

  function RepairText(text: string, index: map<string, string>, exempt: Exempt): string {
    if Offends(text, index, exempt) then index[TrimSpace(text)] else text
  }

  function RepairLeaves(leaves: seq<Leaf>, index: map<string, string>, exempt: Exempt): seq<Leaf> {
    if leaves == [] then []
    else [Leaf(leaves[0].path, RepairText(leaves[0].text, index, exempt))] + RepairLeaves(leaves[1..], index, exempt)
  }

  lemma {:induction false} RepairLeavesAppend(a: seq<Leaf>, b: seq<Leaf>, index: map<string, string>, exempt: Exempt)
    ensures RepairLeaves(a + b, index, exempt) == RepairLeaves(a, index, exempt) + RepairLeaves(b, index, exempt)
  {
    if a == [] {
      assert a + b == b;
    } else {
      assert (a + b)[1..] == a[1..] + b;
      RepairLeavesAppend(a[1..], b, index, exempt);
    }
  }

  /** Repairing a value repairs its leaves in place. */
  lemma {:induction false} RepairedLeaves(v: Value, path: string, index: map<string, string>, exempt: Exempt)
    ensures Leaves(Repair(v, index, exempt), path) == RepairLeaves(Leaves(v, path), index, exempt)
    decreases v, 1, 0
  {
    match v
    case Text(s) => assert [Leaf(path, s)][1..] == [];
    case Object(fields) =>
      var w := Repair(v, index, exempt);
      assert w.fields.Keys == fields.Keys;
      RepairedFields(v, w, Sorted(fields.Keys), path, index, exempt);
    case Items(items) => RepairedItems(v, Repair(v, index, exempt), 0, path, index, exempt);
    case Scalar =>
  }

  lemma {:induction false} RepairedFields(v: Value, w: Value, keys: seq<string>, path: string,
                                          index: map<string, string>, exempt: Exempt)
    requires v.Object? && w == Repair(v, index, exempt) && forall k :: k in keys ==> k in v.fields
    ensures FieldLeaves(w, keys, path) == RepairLeaves(FieldLeaves(v, keys, path), index, exempt)
    decreases v, 0, |keys|
  {
    if keys != [] {
      var sub := path + "." + keys[0];
      RepairedLeaves(v.fields[keys[0]], sub, index, exempt);
      RepairedFields(v, w, keys[1..], path, index, exempt);
      RepairLeavesAppend(Leaves(v.fields[keys[0]], sub), FieldLeaves(v, keys[1..], path), index, exempt);
    }
  }

  lemma {:induction false} RepairedItems(v: Value, w: Value, from: nat, path: string,
                                         index: map<string, string>, exempt: Exempt)
    requires v.Items? && w == Repair(v, index, exempt) && from <= |v.items|
    ensures ItemLeaves(w, from, path) == RepairLeaves(ItemLeaves(v, from, path), index, exempt)
    decreases v, 0, |v.items| - from
  {
    if from < |v.items| {
      var sub := path + "[" + Decimal(from) + "]";
      RepairedLeaves(v.items[from], sub, index, exempt);
      RepairedItems(v, w, from + 1, path, index, exempt);
      RepairLeavesAppend(Leaves(v.items[from], sub), ItemLeaves(v, from + 1, path), index, exempt);
    }
  }

  /** The reference written for this text, if it offends, does not offend itself. */
  predicate Repairable(text: string, index: map<string, string>, exempt: Exempt) {
    Offends(text, index, exempt) ==> !Offends(index[TrimSpace(text)], index, exempt)
  }

  lemma {:induction false} RepairedOffence(leaves: seq<Leaf>, index: map<string, string>, exempt: Exempt)
    ensures FirstOffence(RepairLeaves(leaves, index, exempt), index, exempt).None? <==>
              forall k :: 0 <= k < |leaves| ==> Repairable(leaves[k].text, index, exempt)
  {
    if leaves != [] {
      var tail := leaves[1..];
      RepairedOffence(tail, index, exempt);
      var first := Leaf(leaves[0].path, RepairText(leaves[0].text, index, exempt));
      assert ([first] + RepairLeaves(tail, index, exempt))[1..] == RepairLeaves(tail, index, exempt);
      assert Offends(first.text, index, exempt) <==> !Repairable(leaves[0].text, index, exempt);
      assert leaves == [leaves[0]] + tail;
    }
  }

  lemma RepairedScan(v: Value, path: string, index: map<string, string>, exempt: Exempt)
    ensures Scan(Repair(v, index, exempt), path, index, exempt).None? <==>
              forall k :: 0 <= k < |Leaves(v, path)| ==> Repairable(Leaves(v, path)[k].text, index, exempt)
  {
    ScanFindsFirst(Repair(v, index, exempt), path, index, exempt);
    RepairedLeaves(v, path, index, exempt);
    RepairedOffence(Leaves(v, path), index, exempt);
  }

  // ----- when the repaired value passes -----

  lemma HolderIsUnique(steps: Steps, c: Cell, d: Cell)
    requires FirstHolder(steps, c) && FirstHolder(steps, d) && c.value == d.value
    ensures c == d
  {
    if c != d {
      assert Before(c, d) && Before(d, c);
      LessEqTotal(c.step, d.step);
      LessEqTotal(c.col, d.col);
      assert false;
    }
  }

  /** What the index says of a text: it offends iff it copies a cell, and is sent to the first cell that holds it. */
  lemma OffendsIsCopying(steps: Steps, text: string, exempt: Exempt) returns (c: Cell)
    ensures var index := IndexOf(AllCells(steps));
            && (Offends(text, index, exempt) <==> CopiesCell(text, steps, exempt))
            && (Offends(text, index, exempt) ==>
                  FirstHolder(steps, c) && c.value == TrimSpace(text) && index[c.value] == RefTo(c))
  {
    var s, index := TrimSpace(text), IndexOf(AllCells(steps));
    IndexSpec(steps, s);
    if s in index {
      c :| FirstHolder(steps, c) && c.value == s && index[s] == RefTo(c);
    } else {
      c := Cell("", 0, "", s);
    }
  }

  /** The reference to this cell is no reference by its names, is not exempt, and is the value of a cell. */
  ghost predicate RefIsLiteral(steps: Steps, c: Cell, exempt: Exempt) {
    var r := TrimSpace(RefTo(c));
    && !Spelled(c.step, c.col) && !(exempt.Some? && exempt.value(r))
    && exists d :: IsCell(steps, d) && d.value == r
  }

  lemma RefOffends(steps: Steps, c: Cell, exempt: Exempt)
    ensures Offends(RefTo(c), IndexOf(AllCells(steps)), exempt) <==> RefIsLiteral(steps, c, exempt)
  {
    var d := OffendsIsCopying(steps, RefTo(c), exempt);
    RefToIsRef(c);
    RefTrimmed(c);
    TrimIsIdempotent(RefTo(c));
  }

  /** This text copies a cell, and the first cell it copies has a reference that is rejected in its turn. */
  ghost predicate Unrepairable(steps: Steps, text: string, exempt: Exempt) {
    CopiesCell(text, steps, exempt)
    && exists c :: FirstHolder(steps, c) && c.value == TrimSpace(text) && RefIsLiteral(steps, c, exempt)
  }

  lemma RepairableExactly(steps: Steps, text: string, exempt: Exempt)
    ensures Repairable(text, IndexOf(AllCells(steps)), exempt) <==> !Unrepairable(steps, text, exempt)
  {
    var c := OffendsIsCopying(steps, text, exempt);
    if CopiesCell(text, steps, exempt) {
      RefOffends(steps, c, exempt);
      forall d | FirstHolder(steps, d) && d.value == TrimSpace(text) ensures d == c {
        HolderIsUnique(steps, c, d);
      }
    }
  }

  /** Some leaf has this text. */
  ghost predicate HasText(leaves: seq<Leaf>, text: string) {
    exists k :: 0 <= k < |leaves| && leaves[k].text == text
  }

  /** The texts of the leaves are the strings that paths lead to. */
  lemma LeafTexts(v: Value, base: string, text: string)
    ensures HasText(Leaves(v, base), text) <==> exists path :: LeadsToText(v, path, text)
  {
    var leaves := Leaves(v, base);
    var paths := LeavesExactly(v, base);
    if HasText(leaves, text) {
      var k :| 0 <= k < |leaves| && leaves[k].text == text;
      assert LeadsToText(v, paths[k], text);
    }
    if path :| LeadsToText(v, path, text) {
      assert path in paths;
      var k := PathOf(v, path, paths, leaves, base);
      assert leaves[k].text == text;
    }
  }

  lemma RepairedTexts(steps: Steps, v: Value, base: string, exempt: Exempt)
    ensures var index := IndexOf(AllCells(steps));
            Scan(Repair(v, index, exempt), base, index, exempt).None? <==>
              forall text :: HasText(Leaves(v, base), text) ==> !Unrepairable(steps, text, exempt)
  {
    var index, leaves := IndexOf(AllCells(steps)), Leaves(v, base);
    RepairedScan(v, base, index, exempt);
    forall k | 0 <= k < |leaves|
      ensures Repairable(leaves[k].text, index, exempt) <==> !Unrepairable(steps, leaves[k].text, exempt)
      ensures HasText(leaves, leaves[k].text)
    {
      RepairableExactly(steps, leaves[k].text, exempt);
    }
  }

  /** Exact, for any step ids, column names and exemptions: writing the named references in place of the literals
      satisfies the gate unless some copied cell has names that no reference spells, and its printed reference is
      itself the value of a cell. */
  lemma RepairPassesExactly(steps: Steps, v: Value, base: string, exempt: Exempt)
    ensures var index := IndexOf(AllCells(steps));
            Scan(Repair(v, index, exempt), base, index, exempt).None? <==>
              forall path, text :: LeadsToText(v, path, text) ==> !Unrepairable(steps, text, exempt)
  {
    RepairedTexts(steps, v, base, exempt);
    forall text ensures HasText(Leaves(v, base), text) <==> exists path :: LeadsToText(v, path, text) {
      LeafTexts(v, base, text);
    }
  }

  /** In particular always when references can spell the step ids and column names. */
  lemma RepairPasses(steps: Steps, v: Value, path: string, exempt: Exempt)
    requires forall c :: IsCell(steps, c) ==> Spelled(c.step, c.col)
    ensures var index := IndexOf(AllCells(steps));
            Scan(Repair(v, index, exempt), path, index, exempt).None?
  {
    RepairPassesExactly(steps, v, path, exempt);
  }

  /** A step s1 whose column a holds "X", and whose column b holds the text that is printed as the reference to it. */
  const ODD: Steps := map["s1" := StepResult([map["a" := Value.Text("X"), "b" := Value.Text("s1.a[0]")]], "", [])]

  lemma OddCells(c: Cell)
    ensures IsCell(ODD, c) <==> c == Cell("s1", 0, "a", "X") || c == Cell("s1", 0, "b", "s1.a[0]")
  {
    NothingToTrim("X");
    NothingToTrim("s1.a[0]");
    assert ODD["s1"].rows[0].Keys == {"a", "b"};
  }

  lemma OddFirst()
    ensures FirstHolder(ODD, Cell("s1", 0, "a", "X")) && RefIsLiteral(ODD, Cell("s1", 0, "a", "X"), None)
    ensures RefTo(Cell("s1", 0, "a", "X")) == "s1.a[0]"
  {
    var c, d := Cell("s1", 0, "a", "X"), Cell("s1", 0, "b", "s1.a[0]");
    forall e ensures IsCell(ODD, e) <==> e == c || e == d { OddCells(e); }
    assert RefTo(c) == "s1.a[0]" && TrimLeft("s1") == "s1";
    NothingToTrim("s1.a[0]");
    assert !IsMissionStep("s1");
  }

  lemma OddCopied()
    ensures CopiesCell("X", ODD, None) && TrimSpace("X") == "X"
  {
    OddFirst();
    NothingToTrim("X");
    assert !IsRef("X");
  }

  /** There the literal X is rejected, and so is the reference that the gate names for it. */
  lemma RepairFails()
    ensures var index := IndexOf(AllCells(ODD));
            && Repair(Value.Text("X"), index, None) == Value.Text("s1.a[0]")
            && Scan(Repair(Value.Text("X"), index, None), "$", index, None).Some?
  {
    OddFirst();
    OddCopied();
    var c := OffendsIsCopying(ODD, "X", None);
    HolderIsUnique(ODD, c, Cell("s1", 0, "a", "X"));
    RefOffends(ODD, c, None);
    OffendingTextIsFound("s1.a[0]", IndexOf(AllCells(ODD)));
  }

  lemma OffendingTextIsFound(text: string, index: map<string, string>)
    requires Offends(text, index, None)
    ensures Scan(Value.Text(text), "$", index, None).Some?
  {
  }
}
