// The pointer invariant (pkg/mission/pointer.go): a value copied out of an earlier step result must be
// written as a reference to its cell. References are recognised by shape, literals by an index of cells.
module Pointer {
  import opened Wrappers
  import opened MissionTypes
  import opened Text

  type Steps = map<string, StepResult>

  /** Approves single literals; None approves nothing. */
  type Exempt = Option<string -> bool>

  datatype Violation = Violation(literal: string, path: string, shouldBe: string)

  // ----- references -----

  /** A column name inside a reference: anything without a dot or a bracket. */
  predicate IsColumnName(c: string) {
    c != "" && forall i | 0 <= i < |c| :: c[i] != '.' && c[i] != '[' && c[i] != ']'
  }

  predicate IsCellSuffix(c: string) {
    IsColumnName(c) ||
    exists k | 1 <= k < |c| - 2 :: IsColumnName(c[..k]) && c[k] == '[' && c[|c| - 1] == ']' && IsDigits(c[k + 1..|c| - 1])
  }

  predicate IsStepId(s: string) {
    |s| > 1 && s[0] == 't' && IsDigits(s[1..])
  }

  predicate IsLocalRef(s: string) {
    IsStepId(s) || exists k | 0 <= k < |s| :: IsStepId(s[..k]) && s[k] == '.' && IsCellSuffix(s[k + 1..])
  }

  predicate IsMissionChar(c: char) {
    IsDigit(c) || 'A' <= c <= 'Z' || 'a' <= c <= 'z' || c == '_' || c == '-'
  }

  predicate IsMissionId(s: string) {
    |s| > 1 && s[0] == 'm' && forall i | 1 <= i < |s| :: IsMissionChar(s[i])
  }

  predicate IsRef(s: string) {
    var t := TrimSpace(s);
    IsLocalRef(t) || exists k | 0 <= k < |t| :: IsMissionId(t[..k]) && t[k] == '.' && IsLocalRef(t[k + 1..])
  }

  // ----- cells -----

  datatype Cell = Cell(step: string, row: nat, col: string, value: string)

  function RefTo(c: Cell): string {
    c.step + "." + c.col + "[" + Decimal(c.row) + "]"
  }

  function CellAt(steps: Steps, step: string, row: nat, col: string): (r: Option<Cell>)
    requires step in steps && row < |steps[step].rows| && col in steps[step].rows[row]
  {
    match steps[step].rows[row][col]
    case Text(s) => if TrimSpace(s) == "" then None else Some(Cell(step, row, col, s))
    case _ => None
  }

  function RowCells(steps: Steps, step: string, row: nat, cols: seq<string>): seq<Cell>
    requires step in steps && row < |steps[step].rows|
    requires forall c :: c in cols ==> c in steps[step].rows[row]
  {
    if cols == [] then []
    else
      var n := |cols| - 1;
      var cell := CellAt(steps, step, row, cols[n]);
      RowCells(steps, step, row, cols[..n]) + if cell.Some? then [cell.value] else []
  }

  /** One row, its columns sorted. */
  function SortedRow(steps: Steps, step: string, row: nat): seq<Cell>
    requires step in steps && row < |steps[step].rows|
  {
    RowCells(steps, step, row, Sorted(steps[step].rows[row].Keys))
  }

  /** The first n rows of one step. */
  function StepCells(steps: Steps, step: string, n: nat): seq<Cell>
    requires step in steps && n <= |steps[step].rows|
  {
    if n == 0 then []
    else StepCells(steps, step, n - 1) + SortedRow(steps, step, n - 1)
  }

  function CellsOf(steps: Steps, ids: seq<string>): seq<Cell>
    requires forall id :: id in ids ==> id in steps
  {
    if ids == [] then []
    else
      var id := ids[|ids| - 1];
      CellsOf(steps, ids[..|ids| - 1]) + StepCells(steps, id, |steps[id].rows|)
  }

  /** Every non-blank string cell, by step id, then row, then column. */
  function AllCells(steps: Steps): seq<Cell> {
    CellsOf(steps, Sorted(steps.Keys))
  }

  ghost predicate IsCell(steps: Steps, c: Cell) {
    && c.step in steps && c.row < |steps[c.step].rows| && c.col in steps[c.step].rows[c.row]
    && CellAt(steps, c.step, c.row, c.col) == Some(c)
  }

  ghost predicate Before(a: Cell, b: Cell) {
    if a.step != b.step then LessEq(a.step, b.step)
    else if a.row != b.row then a.row < b.row
    else a.col != b.col && LessEq(a.col, b.col)
  }

  ghost predicate InOrderAt(cells: seq<Cell>, i: nat, j: nat) {
    i < j < |cells| ==> Before(cells[i], cells[j])
  }

  ghost predicate InOrder(cells: seq<Cell>) {
    forall i: nat, j: nat :: InOrderAt(cells, i, j)
  }

  lemma {:induction false} RowCellsSpec(steps: Steps, step: string, row: nat, cols: seq<string>)
    requires step in steps && row < |steps[step].rows|
    requires forall c :: c in cols ==> c in steps[step].rows[row]
    requires Ascending(cols)
    ensures var cells := RowCells(steps, step, row, cols);
            && InOrder(cells)
            && forall c :: c in cells <==> IsCell(steps, c) && c.step == step && c.row == row && c.col in cols
  {
    if cols != [] {
      var n := |cols| - 1;
      AscendingFront(cols);
      RowCellsSpec(steps, step, row, cols[..n]);
      assert cols == cols[..n] + [cols[n]];
      var front := RowCells(steps, step, row, cols[..n]);
      forall c | c in front ensures LessEq(c.col, cols[n]) && c.col != cols[n] {
        assert c.col in cols[..n];
      }
      var cells := RowCells(steps, step, row, cols);
      forall i: nat, j: nat ensures InOrderAt(cells, i, j) {
        assert InOrderAt(front, i, j);
        if i < j == |front| { assert i < |cells| ==> cells[i] in front; }
      }
    }
  }

  lemma InOrderConcat(a: seq<Cell>, b: seq<Cell>)
    requires InOrder(a) && InOrder(b) && forall x, y :: x in a && y in b ==> Before(x, y)
    ensures InOrder(a + b)
  {
    forall i: nat, j: nat ensures InOrderAt(a + b, i, j) {
      assert InOrderAt(a, i, j);
      if |a| <= i < j { assert InOrderAt(b, i - |a|, j - |a|); }
    }
  }

  lemma InConcat<T>(x: T, a: seq<T>, b: seq<T>)
    ensures x in a + b <==> x in a || x in b
  {
  }

  lemma SortedRowSpec(steps: Steps, step: string, row: nat)
    requires step in steps && row < |steps[step].rows|
    ensures InOrder(SortedRow(steps, step, row))
    ensures forall c :: c in SortedRow(steps, step, row) <==> IsCell(steps, c) && c.step == step && c.row == row
  {
    RowCellsSpec(steps, step, row, Sorted(steps[step].rows[row].Keys));
  }

  lemma {:induction false} StepMember(steps: Steps, step: string, n: nat, c: Cell)
    requires step in steps && n <= |steps[step].rows|
    ensures c in StepCells(steps, step, n) <==> IsCell(steps, c) && c.step == step && c.row < n
  {
    if n > 0 {
      StepMember(steps, step, n - 1, c);
      SortedRowSpec(steps, step, n - 1);
      InConcat(c, StepCells(steps, step, n - 1), SortedRow(steps, step, n - 1));
    }
  }

  /** The cells of the first rows come before those of the next one. */
  lemma EarlierRows(steps: Steps, step: string, n: nat)
    requires step in steps && n < |steps[step].rows|
    ensures forall x, y :: x in StepCells(steps, step, n) && y in SortedRow(steps, step, n) ==> Before(x, y)
  {
    forall x, y | x in StepCells(steps, step, n) && y in SortedRow(steps, step, n) ensures Before(x, y) {
      StepMember(steps, step, n, x);
      SortedRowSpec(steps, step, n);
    }
  }

  lemma RowInOrder(steps: Steps, step: string, row: nat)
    requires step in steps && row < |steps[step].rows|
    ensures InOrder(SortedRow(steps, step, row))
  {
    SortedRowSpec(steps, step, row);
  }

  lemma {:induction false} StepOrder(steps: Steps, step: string, n: nat)
    requires step in steps && n <= |steps[step].rows|
    ensures InOrder(StepCells(steps, step, n))
  {
    if n > 0 {
      StepOrder(steps, step, n - 1);
      EarlierRows(steps, step, n - 1);
      RowInOrder(steps, step, n - 1);
      InOrderConcat(StepCells(steps, step, n - 1), SortedRow(steps, step, n - 1));
    }
  }

  lemma StepCellsSpec(steps: Steps, step: string, n: nat)
    requires step in steps && n <= |steps[step].rows|
    ensures InOrder(StepCells(steps, step, n))
    ensures forall c :: c in StepCells(steps, step, n) <==> IsCell(steps, c) && c.step == step && c.row < n
  {
    StepOrder(steps, step, n);
    forall c ensures c in StepCells(steps, step, n) <==> IsCell(steps, c) && c.step == step && c.row < n {
      StepMember(steps, step, n, c);
    }
  }

  lemma {:induction false} CellsOfSpec(steps: Steps, ids: seq<string>)
    requires forall id :: id in ids ==> id in steps
    requires Ascending(ids)
    ensures var cells := CellsOf(steps, ids);
            && InOrder(cells)
            && forall c :: c in cells <==> IsCell(steps, c) && c.step in ids
  {
    if ids != [] {
      var n := |ids| - 1;
      var id := ids[n];
      AscendingFront(ids);
      CellsOfSpec(steps, ids[..n]);
      StepCellsSpec(steps, id, |steps[id].rows|);
      assert ids == ids[..n] + [id];
      var front, back := CellsOf(steps, ids[..n]), StepCells(steps, id, |steps[id].rows|);
      forall x, y | x in front && y in back ensures Before(x, y) {
        assert x.step in ids[..n];
      }
      InOrderConcat(front, back);
    }
  }

  /** The list of cells is complete and in (step, row, column) order. */
  lemma AllCellsSpec(steps: Steps)
    ensures InOrder(AllCells(steps))
    ensures forall c :: c in AllCells(steps) <==> IsCell(steps, c)
  {
    CellsOfSpec(steps, Sorted(steps.Keys));
  }

  // ----- the index -----

  /** First occurrence wins. */
  function IndexOf(cells: seq<Cell>): map<string, string> {
    if cells == [] then map[]
    else
      var n := |cells| - 1;
      var rest := IndexOf(cells[..n]);
      if cells[n].value in rest then rest else rest[cells[n].value := RefTo(cells[n])]
  }

  lemma {:induction false} IndexAppend(a: seq<Cell>, c: Cell)
    ensures IndexOf(a + [c]) == if c.value in IndexOf(a) then IndexOf(a) else IndexOf(a)[c.value := RefTo(c)]
  {
    assert (a + [c])[..|a|] == a;
  }

  /** c is the cell that comes first among the ones holding its value. */
  ghost predicate FirstHolder(steps: Steps, c: Cell) {
    IsCell(steps, c) && forall d :: IsCell(steps, d) && d.value == c.value && d != c ==> Before(c, d)
  }

  ghost predicate FirstWith(cells: seq<Cell>, v: string, k: nat) {
    k < |cells| && cells[k].value == v && forall j :: 0 <= j < k ==> cells[j].value != v
  }

  lemma {:induction false} IndexOfSpec(cells: seq<Cell>, v: string)
    ensures v in IndexOf(cells) <==> exists c :: c in cells && c.value == v
    ensures v in IndexOf(cells) ==> exists k: nat :: FirstWith(cells, v, k) && IndexOf(cells)[v] == RefTo(cells[k])
  {
    if cells != [] {
      var n := |cells| - 1;
      IndexOfSpec(cells[..n], v);
      assert cells == cells[..n] + [cells[n]];
      if v in IndexOf(cells[..n]) {
        var k: nat :| FirstWith(cells[..n], v, k) && IndexOf(cells[..n])[v] == RefTo(cells[..n][k]);
        assert FirstWith(cells, v, k);
      } else if cells[n].value == v {
        forall j | 0 <= j < n ensures cells[j].value != v { assert cells[j] in cells[..n]; }
        assert FirstWith(cells, v, n);
      }
    }
  }

  lemma FirstInOrder(steps: Steps, cells: seq<Cell>, v: string, k: nat)
    requires InOrder(cells) && FirstWith(cells, v, k)
    requires forall c :: c in cells <==> IsCell(steps, c)
    ensures FirstHolder(steps, cells[k])
  {
    forall d | IsCell(steps, d) && d.value == v && d != cells[k] ensures Before(cells[k], d) {
      assert d in cells;
      var j: nat :| j < |cells| && cells[j] == d;
      assert InOrderAt(cells, k, j);
    }
  }

  /** The index knows exactly the values of the cells, each under the reference of its first holder. */
  lemma IndexSpec(steps: Steps, v: string)
    ensures v in IndexOf(AllCells(steps)) <==> exists c :: IsCell(steps, c) && c.value == v
    ensures v in IndexOf(AllCells(steps)) ==>
              exists c :: FirstHolder(steps, c) && c.value == v && IndexOf(AllCells(steps))[v] == RefTo(c)
  {
    var cells := AllCells(steps);
    AllCellsSpec(steps);
    IndexOfSpec(cells, v);
    if v in IndexOf(cells) {
      var k: nat :| FirstWith(cells, v, k) && IndexOf(cells)[v] == RefTo(cells[k]);
      FirstInOrder(steps, cells, v, k);
    }
  }

  /** What visiting one more cell position does to the index. */
  lemma IndexVisit(steps: Steps, above: seq<Cell>, step: string, row: nat, cols: seq<string>, k: nat)
    requires step in steps && row < |steps[step].rows| && k < |cols|
    requires forall c :: c in cols ==> c in steps[step].rows[row]
    ensures var cell := CellAt(steps, step, row, cols[k]);
            var idx := IndexOf(above + RowCells(steps, step, row, cols[..k]));
            IndexOf(above + RowCells(steps, step, row, cols[..k + 1])) ==
              if cell.Some? && cell.value.value !in idx then idx[cell.value.value := RefTo(cell.value)] else idx
  {
    var cell := CellAt(steps, step, row, cols[k]);
    var left := above + RowCells(steps, step, row, cols[..k]);
    assert cols[..k + 1][..k] == cols[..k];
    if cell.Some? {
      assert above + RowCells(steps, step, row, cols[..k + 1]) == left + [cell.value];
      IndexAppend(left, cell.value);
    } else {
      assert above + RowCells(steps, step, row, cols[..k + 1]) == left;
    }
  }

  lemma StepCellsGrow(steps: Steps, before: seq<Cell>, step: string, row: nat)
    requires step in steps && row < |steps[step].rows|
    ensures (before + StepCells(steps, step, row)) + SortedRow(steps, step, row) == before + StepCells(steps, step, row + 1)
  {
  }

  lemma CellsOfGrow(steps: Steps, ids: seq<string>, i: nat)
    requires i < |ids| && forall id :: id in ids ==> id in steps
    ensures CellsOf(steps, ids[..i]) + StepCells(steps, ids[i], |steps[ids[i]].rows|) == CellsOf(steps, ids[..i + 1])
  {
    assert ids[..i + 1][..i] == ids[..i];
  }

  /** The innermost loop of the original: the cells of one row, below those already indexed. */
  method IndexRow(steps: Steps, step: string, row: nat, idx: map<string, string>, ghost above: seq<Cell>)
    returns (r: map<string, string>)
    requires step in steps && row < |steps[step].rows| && idx == IndexOf(above)
    ensures r == IndexOf(above + SortedRow(steps, step, row))
  {
    r := idx;
    var cols := Sorted(steps[step].rows[row].Keys);
    assert above + [] == above;
    for c := 0 to |cols|
      invariant r == IndexOf(above + RowCells(steps, step, row, cols[..c]))
    {
      var cell := CellAt(steps, step, row, cols[c]);
      IndexVisit(steps, above, step, row, cols, c);
      if cell.Some? && cell.value.value !in r {
        r := r[cell.value.value := RefTo(cell.value)];
      }
    }
    assert cols[..|cols|] == cols;
  }

  /** The middle loop: the rows of one step. */
  method IndexStep(steps: Steps, step: string, idx: map<string, string>, ghost before: seq<Cell>)
    returns (r: map<string, string>)
    requires step in steps && idx == IndexOf(before)
    ensures r == IndexOf(before + StepCells(steps, step, |steps[step].rows|))
  {
    r := idx;
    assert before + [] == before;
    for row := 0 to |steps[step].rows|
      invariant r == IndexOf(before + StepCells(steps, step, row))
    {
      r := IndexRow(steps, step, row, r, before + StepCells(steps, step, row));
      StepCellsGrow(steps, before, step, row);
    }
  }

  method BuildCellIndex(steps: Steps) returns (idx: map<string, string>)
    ensures idx == IndexOf(AllCells(steps))
  {
    idx := map[];
    var ids := Sorted(steps.Keys);
    for i := 0 to |ids|
      invariant idx == IndexOf(CellsOf(steps, ids[..i]))
    {
      idx := IndexStep(steps, ids[i], idx, CellsOf(steps, ids[..i]));
      CellsOfGrow(steps, ids, i);
    }
    assert ids[..|ids|] == ids;
  }

  // ----- leaves -----

  datatype Leaf = Leaf(path: string, text: string)

  /** Every string inside a value with where it stands: object fields by sorted key, lists by position. */
  function Leaves(v: Value, path: string): seq<Leaf>
    decreases v, 1, 0
  {
    match v
    case Text(s) => [Leaf(path, s)]
    case Object(fields) => FieldLeaves(v, Sorted(fields.Keys), path)
    case Items(items) => ItemLeaves(v, 0, path)
    case Scalar => []
  }

  function FieldLeaves(v: Value, keys: seq<string>, path: string): seq<Leaf>
    requires v.Object? && forall k :: k in keys ==> k in v.fields
    decreases v, 0, |keys|
  {
    if keys == [] then []
    else Leaves(v.fields[keys[0]], path + "." + keys[0]) + FieldLeaves(v, keys[1..], path)
  }

  function ItemLeaves(v: Value, from: nat, path: string): seq<Leaf>
    requires v.Items? && from <= |v.items|
    decreases v, 0, |v.items| - from
  {
    if from == |v.items| then []
    else Leaves(v.items[from], path + "[" + Decimal(from) + "]") + ItemLeaves(v, from + 1, path)
  }

  /** A literal that should have been a reference. */
  predicate Offends(text: string, index: map<string, string>, exempt: Exempt) {
    var s := TrimSpace(text);
    s != "" && !IsRef(s) && !(exempt.Some? && exempt.value(s)) && s in index
  }

  function ViolationOf(leaf: Leaf, index: map<string, string>): Violation
    requires TrimSpace(leaf.text) in index
  {
    Violation(TrimSpace(leaf.text), leaf.path, index[TrimSpace(leaf.text)])
  }

  ghost function FirstOffence(leaves: seq<Leaf>, index: map<string, string>, exempt: Exempt): Option<Violation> {
    if leaves == [] then None
    else if Offends(leaves[0].text, index, exempt) then Some(ViolationOf(leaves[0], index))
    else FirstOffence(leaves[1..], index, exempt)
  }

  // ----- the scan -----

  function Scan(v: Value, path: string, index: map<string, string>, exempt: Exempt): Option<Violation>
    decreases v, 1, 0
  {
    match v
    case Text(text) =>
      var s := TrimSpace(text);
      if s == "" || IsRef(s) then None
      else if exempt.Some? && exempt.value(s) then None
      else if s in index then Some(Violation(s, path, index[s]))
      else None
    case Object(fields) => ScanFields(v, Sorted(fields.Keys), path, index, exempt)
    case Items(items) => ScanItems(v, 0, path, index, exempt)
    case Scalar => None
  }

  function ScanFields(v: Value, keys: seq<string>, path: string, index: map<string, string>, exempt: Exempt)
    : Option<Violation>
    requires v.Object? && forall k :: k in keys ==> k in v.fields
    decreases v, 0, |keys|
  {
    if keys == [] then None
    else
      var first := Scan(v.fields[keys[0]], path + "." + keys[0], index, exempt);
      if first.Some? then first else ScanFields(v, keys[1..], path, index, exempt)
  }

  function ScanItems(v: Value, from: nat, path: string, index: map<string, string>, exempt: Exempt): Option<Violation>
    requires v.Items? && from <= |v.items|
    decreases v, 0, |v.items| - from
  {
    if from == |v.items| then None
    else
      var first := Scan(v.items[from], path + "[" + Decimal(from) + "]", index, exempt);
      if first.Some? then first else ScanItems(v, from + 1, path, index, exempt)
  }

  lemma {:induction false} FirstOffenceAppend(a: seq<Leaf>, b: seq<Leaf>, index: map<string, string>, exempt: Exempt)
    ensures FirstOffence(a + b, index, exempt) ==
            if FirstOffence(a, index, exempt).Some? then FirstOffence(a, index, exempt)
            else FirstOffence(b, index, exempt)
  {
    if a == [] {
      assert a + b == b;
    } else {
      assert (a + b)[1..] == a[1..] + b;
      FirstOffenceAppend(a[1..], b, index, exempt);
    }
  }

  /** The recursive scan stops at the first offending leaf, in leaf order. */
  lemma {:induction false} ScanFindsFirst(v: Value, path: string, index: map<string, string>, exempt: Exempt)
    ensures Scan(v, path, index, exempt) == FirstOffence(Leaves(v, path), index, exempt)
    decreases v, 1, 0
  {
    match v
    case Text(s) =>
      TrimIsIdempotent(s);
      assert [Leaf(path, s)][1..] == [];
    case Object(fields) => ScanFieldsFindsFirst(v, Sorted(fields.Keys), path, index, exempt);
    case Items(items) => ScanItemsFindsFirst(v, 0, path, index, exempt);
    case Scalar =>
  }

  lemma {:induction false} ScanFieldsFindsFirst(v: Value, keys: seq<string>, path: string,
                                                index: map<string, string>, exempt: Exempt)
    requires v.Object? && forall k :: k in keys ==> k in v.fields
    ensures ScanFields(v, keys, path, index, exempt) == FirstOffence(FieldLeaves(v, keys, path), index, exempt)
    decreases v, 0, |keys|
  {
    if keys != [] {
      var sub := path + "." + keys[0];
      ScanFindsFirst(v.fields[keys[0]], sub, index, exempt);
      ScanFieldsFindsFirst(v, keys[1..], path, index, exempt);
      FirstOffenceAppend(Leaves(v.fields[keys[0]], sub), FieldLeaves(v, keys[1..], path), index, exempt);
    }
  }

  lemma {:induction false} ScanItemsFindsFirst(v: Value, from: nat, path: string,
                                               index: map<string, string>, exempt: Exempt)
    requires v.Items? && from <= |v.items|
    ensures ScanItems(v, from, path, index, exempt) == FirstOffence(ItemLeaves(v, from, path), index, exempt)
    decreases v, 0, |v.items| - from
  {
    if from < |v.items| {
      var sub := path + "[" + Decimal(from) + "]";
      ScanFindsFirst(v.items[from], sub, index, exempt);
      ScanItemsFindsFirst(v, from + 1, path, index, exempt);
      FirstOffenceAppend(Leaves(v.items[from], sub), ItemLeaves(v, from + 1, path), index, exempt);
    }
  }

  ghost predicate FirstOffending(leaves: seq<Leaf>, k: nat, index: map<string, string>, exempt: Exempt) {
    && k < |leaves| && Offends(leaves[k].text, index, exempt)
    && forall j :: 0 <= j < k ==> !Offends(leaves[j].text, index, exempt)
  }

  lemma {:induction false} FirstOffenceSpec(leaves: seq<Leaf>, index: map<string, string>, exempt: Exempt)
    ensures FirstOffence(leaves, index, exempt).None? ==>
              forall k :: 0 <= k < |leaves| ==> !Offends(leaves[k].text, index, exempt)
    ensures FirstOffence(leaves, index, exempt).Some? ==>
              exists k: nat :: FirstOffending(leaves, k, index, exempt)
                          && FirstOffence(leaves, index, exempt).value == ViolationOf(leaves[k], index)
  {
    if leaves == [] {
    } else if Offends(leaves[0].text, index, exempt) {
      assert FirstOffending(leaves, 0, index, exempt);
    } else {
      var tail := leaves[1..];
      FirstOffenceSpec(tail, index, exempt);
      assert leaves == [leaves[0]] + tail;
      if FirstOffence(leaves, index, exempt).Some? {
        var k: nat :| FirstOffending(tail, k, index, exempt)
                 && FirstOffence(tail, index, exempt).value == ViolationOf(tail[k], index);
        forall j | 0 <= j < k + 1 ensures !Offends(leaves[j].text, index, exempt) {
          if j > 0 { assert leaves[j] == tail[j - 1]; }
        }
        assert FirstOffending(leaves, k + 1, index, exempt);
      }
    }
  }
}
