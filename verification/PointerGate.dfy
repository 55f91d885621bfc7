// The pointer gate (pkg/mission/pointer.go and GateDispatch in pkg/mission/mutator.go): exactly which values are
// rejected, and what the rejection names.
module PointerGate {
  import opened Wrappers
  import opened MissionTypes
  import opened Text
  import opened Pointer
  import opened PointerPaths

  /** A string that copies the value of some cell, is no reference and is not exempt. */
  ghost predicate CopiesCell(text: string, steps: Steps, exempt: Exempt) {
    var s := TrimSpace(text);
    && s != "" && !IsRef(s) && !(exempt.Some? && exempt.value(s))
    && exists c :: IsCell(steps, c) && c.value == s
  }

  /** At the end of this path stands such a string. */
  ghost predicate CopiesAt(v: Value, path: seq<Access>, steps: Steps, exempt: Exempt) {
    At(v, path).Some? && At(v, path).value.Text? && CopiesCell(At(v, path).value.text, steps, exempt)
  }

  /** The report names the first path to a copied string, and the first cell that holds its value. */
  ghost predicate Reports(v: Value, steps: Steps, exempt: Exempt, r: Violation) {
    exists path: seq<Access>, c: Cell ::
      && CopiesAt(v, path, steps, exempt)
      && (forall q: seq<Access> :: CopiesAt(v, q, steps, exempt) && q != path ==> Earlier(path, q))
      && FirstHolder(steps, c) && c.value == TrimSpace(At(v, path).value.text)
      && r == Violation(c.value, Written("$", path), RefTo(c))
  }

  /** A leaf offends against the index of all cells exactly if it copies a cell. */
  lemma OffendsExactly(steps: Steps, text: string, exempt: Exempt)
    ensures Offends(text, IndexOf(AllCells(steps)), exempt) <==> CopiesCell(text, steps, exempt)
  {
    IndexSpec(steps, TrimSpace(text));
  }

  lemma PathOf(v: Value, path: seq<Access>, paths: seq<seq<Access>>, leaves: seq<Leaf>, base: string) returns (i: nat)
    requires Aligned(v, base, paths, leaves) && path in paths
    ensures i < |paths| && paths[i] == path && At(v, path) == Some(Value.Text(leaves[i].text))
  {
    i :| 0 <= i < |paths| && paths[i] == path;
    assert LeadsToText(v, paths[i], leaves[i].text);
  }

  /** Nothing offends among the leaves: no path leads to a copied string. */
  lemma NoneCopies(v: Value, steps: Steps, exempt: Exempt)
    ensures FirstOffence(Leaves(v, "$"), IndexOf(AllCells(steps)), exempt).None? <==>
              forall path :: !CopiesAt(v, path, steps, exempt)
  {
    var leaves, index := Leaves(v, "$"), IndexOf(AllCells(steps));
    var paths := LeavesExactly(v, "$");
    FirstOffenceSpec(leaves, index, exempt);
    if FirstOffence(leaves, index, exempt).None? {
      forall path ensures !CopiesAt(v, path, steps, exempt) {
        if CopiesAt(v, path, steps, exempt) {
          var i := PathOf(v, path, paths, leaves, "$");
          OffendsExactly(steps, leaves[i].text, exempt);
        }
      }
    } else {
      var k: nat :| FirstOffending(leaves, k, index, exempt);
      OffendsExactly(steps, leaves[k].text, exempt);
      assert LeadsToText(v, paths[k], leaves[k].text);
      assert CopiesAt(v, paths[k], steps, exempt);
    }
  }

  /** Every other path to a copied string is visited later than the one of the first offending leaf. */
  lemma FirstPath(v: Value, steps: Steps, exempt: Exempt, paths: seq<seq<Access>>, k: nat, q: seq<Access>)
    requires var leaves := Leaves(v, "$");
             Aligned(v, "$", paths, leaves) && InVisitOrder(paths) && FirstOffending(leaves, k, IndexOf(AllCells(steps)), exempt)
    requires q in paths && CopiesAt(v, q, steps, exempt) && q != paths[k]
    ensures Earlier(paths[k], q)
  {
    var leaves := Leaves(v, "$");
    var i := PathOf(v, q, paths, leaves, "$");
    OffendsExactly(steps, leaves[i].text, exempt);
    assert EarlierAt(paths, k, i);
  }

  lemma FirstIsReported(v: Value, steps: Steps, exempt: Exempt)
    requires FirstOffence(Leaves(v, "$"), IndexOf(AllCells(steps)), exempt).Some?
    ensures Reports(v, steps, exempt, FirstOffence(Leaves(v, "$"), IndexOf(AllCells(steps)), exempt).value)
  {
    var leaves, index := Leaves(v, "$"), IndexOf(AllCells(steps));
    var paths := LeavesExactly(v, "$");
    FirstOffenceSpec(leaves, index, exempt);
    var k: nat :| FirstOffending(leaves, k, index, exempt) && FirstOffence(leaves, index, exempt).value == ViolationOf(leaves[k], index);
    var path := paths[k];
    assert LeadsToText(v, path, leaves[k].text) && leaves[k].path == Written("$", path);
    OffendsExactly(steps, leaves[k].text, exempt);
    IndexSpec(steps, TrimSpace(leaves[k].text));
    var c :| FirstHolder(steps, c) && c.value == TrimSpace(leaves[k].text) && index[c.value] == RefTo(c);
    forall q: seq<Access> | CopiesAt(v, q, steps, exempt) && q != path ensures Earlier(path, q) {
      assert q in paths;
      FirstPath(v, steps, exempt, paths, k, q);
    }
    assert CopiesAt(v, path, steps, exempt);
  }

  /** Exact, over every path into the value: there is a violation if and only if some path leads to a string that
      copies a cell, and then the first such path is reported. */
  method ScanForLiteral(value: Value, steps: Steps, exempt: Exempt) returns (r: Option<Violation>)
    ensures r.Some? <==> exists path :: CopiesAt(value, path, steps, exempt)
    ensures r.Some? ==> Reports(value, steps, exempt, r.value)
  {
    var index := BuildCellIndex(steps);
    r := Scan(value, "$", index, exempt);
    ScanFindsFirst(value, "$", index, exempt);
    NoneCopies(value, steps, exempt);
    if r.Some? { FirstIsReported(value, steps, exempt); }
  }

  /** Rejects a dispatch exactly when some string anywhere in its arguments copies a cell. */
  method GateDispatch(args: map<string, Value>, steps: Steps, exempt: Exempt) returns (r: Option<Violation>)
    ensures r.Some? <==> exists path :: CopiesAt(Object(args), path, steps, exempt)
    ensures r.Some? ==> Reports(Object(args), steps, exempt, r.value)
  {
    if |args| == 0 {
      NoArguments(args, steps, exempt);
      return None;
    }
    r := ScanForLiteral(Object(args), steps, exempt);
  }

  lemma NoArguments(args: map<string, Value>, steps: Steps, exempt: Exempt)
    requires |args| == 0
    ensures forall path :: !CopiesAt(Object(args), path, steps, exempt)
  {
    assert args.Keys == {};
  }

  /** A cell copied character by character is caught exactly when its trimmed text is itself the value of a cell:
      so always when the cell has no white space at its ends, and otherwise only by way of another cell. */
  lemma VerbatimCopies(steps: Steps, c: Cell, exempt: Exempt)
    requires IsCell(steps, c) && !IsRef(c.value) && !(exempt.Some? && exempt.value(TrimSpace(c.value)))
    ensures CopiesCell(c.value, steps, exempt) <==> exists d :: IsCell(steps, d) && d.value == TrimSpace(c.value)
    ensures TrimSpace(c.value) == c.value ==> CopiesCell(c.value, steps, exempt)
  {
    TrimIsIdempotent(c.value);
  }

  /** The cell " X " alone: a copy of it passes the gate. */
  lemma PaddedCopyPasses(steps: Steps, exempt: Exempt)
    requires steps == map["t1" := StepResult([map["a" := Value.Text(" X ")]], "", [])]
    ensures IsCell(steps, Cell("t1", 0, "a", " X ")) && !CopiesCell(" X ", steps, exempt)
  {
    assert TrimLeft(" X ") == "X " by { assert " X "[1..] == "X "; }
    assert TrimSpace(" X ") == "X" by { assert "X "[..1] == "X"; }
  }
}
