// Long-to-wide pivoting of query results (applyIntentPivot in
// services/agent-server/handler/handler_agent_lakehouse.go): the phases, each a loop proved against what
// it computes. Amounts are exact reals. Case-insensitive comparison is equality after a folding that is a
// parameter.
module Pivot {
  import opened Text

  /** One result row: its dimension values as printed, its pivot value, and its metric. */
  datatype LongRow = LongRow(dims: seq<string>, pivot: string, metric: real)

  datatype Config = Config(
    pivotValues: seq<string>,
    pivotLabels: seq<string>,
    columnAxis: bool,
    limit: int)

  type Fold = string -> string

  // ----- bucketing -----

  const BARS := "||"

  function KeyOf(r: LongRow): string {
    Join(r.dims, BARS)
  }

  datatype Bucket = Bucket(dims: seq<string>, values: map<string, real>)

  datatype Buckets = Buckets(order: seq<string>, byKey: map<string, Bucket>)

  function AddRow(bs: Buckets, r: LongRow): Buckets {
    var k := KeyOf(r);
    if k in bs.byKey then
      bs.(byKey := bs.byKey[k := bs.byKey[k].(values := bs.byKey[k].values[r.pivot := r.metric])])
    else Buckets(bs.order + [k], bs.byKey[k := Bucket(r.dims, map[r.pivot := r.metric])])
  }

  function BucketsOf(rows: seq<LongRow>): Buckets {
    if rows == [] then Buckets([], map[])
    else AddRow(BucketsOf(rows[..|rows| - 1]), rows[|rows| - 1])
  }

  function Observed(rows: seq<LongRow>): set<string> {
    set r | r in rows :: r.pivot
  }

  lemma OneMoreRow(rows: seq<LongRow>, i: nat)
    requires i < |rows|
    ensures BucketsOf(rows[..i + 1]) == AddRow(BucketsOf(rows[..i]), rows[i])
    ensures Observed(rows[..i + 1]) == Observed(rows[..i]) + {rows[i].pivot}
  {
    assert rows[..i + 1][..i] == rows[..i];
    assert rows[..i + 1] == rows[..i] + [rows[i]];
  }

  /** The keys in order of first appearance, each bucket holding its latest value per pivot value. */
  method BucketRows(rows: seq<LongRow>) returns (bs: Buckets, observed: set<string>)
    ensures bs == BucketsOf(rows)
    ensures observed == Observed(rows)
  {
    var buckets: map<string, Bucket> := map[];
    var order: seq<string> := [];
    observed := {};
    for i := 0 to |rows|
      invariant Buckets(order, buckets) == BucketsOf(rows[..i])
      invariant observed == Observed(rows[..i])
    {
      var r := rows[i];
      OneMoreRow(rows, i);
      var k := KeyOf(r);
      if k !in buckets {
        buckets := buckets[k := Bucket(r.dims, map[])];
        order := order + [k];
      }
      observed := observed + {r.pivot};
      buckets := buckets[k := buckets[k].(values := buckets[k].values[r.pivot := r.metric])];
    }
    assert rows[..|rows|] == rows;
    bs := Buckets(order, buckets);
  }

  // ----- columns -----

  predicate ContainsFold(ss: seq<string>, v: string, fold: Fold) {
    exists i | 0 <= i < |ss| :: fold(ss[i]) == fold(v)
  }

  /** Pivot values to show, in order: the configured ones, else the observed ones sorted. */
  function Columns(cfg: Config, observed: set<string>): seq<string> {
    if |cfg.pivotValues| > 0 then cfg.pivotValues else Sorted(observed)
  }

  /** Observed values the configuration does not know, sorted. */
  function Extras(cfg: Config, observed: set<string>, fold: Fold): seq<string> {
    if |cfg.pivotValues| > 0 then Sorted(set v | v in observed && !ContainsFold(cfg.pivotValues, v, fold)) else []
  }

  function LabelFrom(v: string, cols: seq<string>, labels: seq<string>, fold: Fold, i: nat): string
    requires i <= |cols|
    decreases |cols| - i
  {
    if i == |cols| then v
    else if i < |labels| && labels[i] != "" && fold(v) == fold(cols[i]) then labels[i]
    else LabelFrom(v, cols, labels, fold, i + 1)
  }

  function LabelFor(v: string, cfg: Config, observed: set<string>, fold: Fold): string {
    LabelFrom(v, Columns(cfg, observed), cfg.pivotLabels, fold, 0)
  }

  predicate Taken(before: seq<string>, v: string, cfg: Config, observed: set<string>, fold: Fold) {
    exists i | 0 <= i < |before| :: LabelFor(before[i], cfg, observed, fold) == LabelFor(v, cfg, observed, fold)
  }

  /** The candidates whose label no earlier candidate has. */
  function Unlabelled(cands: seq<string>, cfg: Config, observed: set<string>, fold: Fold): seq<string> {
    if cands == [] then []
    else
      var n := |cands| - 1;
      var before := Unlabelled(cands[..n], cfg, observed, fold);
      if Taken(before, cands[n], cfg, observed, fold) then before else before + [cands[n]]
  }

  function Candidates(cfg: Config, observed: set<string>, fold: Fold): seq<string> {
    Columns(cfg, observed) + Extras(cfg, observed, fold)
  }

  /** The pivot values that get a column. */
  function Sources(cfg: Config, observed: set<string>, fold: Fold): seq<string> {
    Unlabelled(Candidates(cfg, observed, fold), cfg, observed, fold)
  }

  ghost predicate Labelled(labels: seq<string>, sources: seq<string>, cfg: Config, observed: set<string>, fold: Fold) {
    |labels| == |sources| && forall i :: 0 <= i < |labels| ==> labels[i] == LabelFor(sources[i], cfg, observed, fold)
  }

  lemma TakenIsListed(labels: seq<string>, sources: seq<string>, v: string, cfg: Config, observed: set<string>, fold: Fold)
    requires Labelled(labels, sources, cfg, observed, fold)
    ensures Taken(sources, v, cfg, observed, fold) <==> LabelFor(v, cfg, observed, fold) in labels
  {
    var l := LabelFor(v, cfg, observed, fold);
    if l in labels {
      var i :| 0 <= i < |labels| && labels[i] == l;
      assert LabelFor(sources[i], cfg, observed, fold) == l;
    }
  }

  lemma UnlabelledGrows(cands: seq<string>, k: nat, cfg: Config, observed: set<string>, fold: Fold)
    requires k < |cands|
    ensures var before := Unlabelled(cands[..k], cfg, observed, fold);
            Unlabelled(cands[..k + 1], cfg, observed, fold) ==
              if Taken(before, cands[k], cfg, observed, fold) then before else before + [cands[k]]
  {
    assert cands[..k + 1][..k] == cands[..k];
  }

  method OrderLabels(cfg: Config, observed: set<string>, fold: Fold) returns (labels: seq<string>, sources: seq<string>)
    ensures sources == Sources(cfg, observed, fold)
    ensures Labelled(labels, sources, cfg, observed, fold)
  {
    var cands := Columns(cfg, observed) + Extras(cfg, observed, fold);
    var seen: set<string> := {};
    labels, sources := [], [];
    for k := 0 to |cands|
      invariant sources == Unlabelled(cands[..k], cfg, observed, fold)
      invariant Labelled(labels, sources, cfg, observed, fold)
      invariant forall l :: l in seen <==> l in labels
    {
      UnlabelledGrows(cands, k, cfg, observed, fold);
      TakenIsListed(labels, sources, cands[k], cfg, observed, fold);
      var lbl := LabelFor(cands[k], cfg, observed, fold);
      if lbl !in seen {
        labels := labels + [lbl];
        sources := sources + [cands[k]];
        seen := seen + {lbl};
      }
    }
    assert cands[..|cands|] == cands;
  }

  // ----- wide rows -----

  function Sum(xs: seq<real>): real {
    if xs == [] then 0.0 else Sum(xs[..|xs| - 1]) + xs[|xs| - 1]
  }

  /** Cells are aligned with the labels. */
  datatype WideRow = WideRow(dims: seq<string>, total: real, cells: seq<real>)

  function CellOf(b: Bucket, v: string): real {
    if v in b.values then b.values[v] else 0.0
  }

  function CellsOf(b: Bucket, src: seq<string>): seq<real> {
    seq(|src|, i requires 0 <= i < |src| => CellOf(b, src[i]))
  }

  function WideOf(b: Bucket, src: seq<string>): WideRow {
    WideRow(b.dims, Sum(CellsOf(b, src)), CellsOf(b, src))
  }

  ghost predicate Sound(bs: Buckets) {
    && (forall k :: k in bs.order <==> k in bs.byKey)
    && forall i, j :: 0 <= i < j < |bs.order| ==> bs.order[i] != bs.order[j]
  }

  function WideRows(bs: Buckets, src: seq<string>): seq<WideRow>
    requires forall k :: k in bs.order ==> k in bs.byKey
  {
    seq(|bs.order|, i requires 0 <= i < |bs.order| => WideOf(bs.byKey[bs.order[i]], src))
  }

  function Totals(ws: seq<WideRow>): seq<real> {
    seq(|ws|, i requires 0 <= i < |ws| => ws[i].total)
  }

  /** One column of the table. */
  function Column(ws: seq<WideRow>, j: nat): seq<real>
    requires forall w :: w in ws ==> j < |w.cells|
  {
    seq(|ws|, i requires 0 <= i < |ws| => ws[i].cells[j])
  }

  lemma SumAppend(xs: seq<real>, x: real)
    ensures Sum(xs + [x]) == Sum(xs) + x
  {
    assert (xs + [x])[..|xs|] == xs;
  }

  /** The inner loop of pass 1: one row, its total, and its cells added to the column totals. */
  method BuildRow(b: Bucket, src: seq<string>, before: seq<real>) returns (row: WideRow, columnTotals: seq<real>)
    requires |before| == |src|
    ensures row == WideOf(b, src)
    ensures |columnTotals| == |src| && forall j :: 0 <= j < |src| ==> columnTotals[j] == before[j] + row.cells[j]
  {
    var cells: seq<real> := [];
    var rowTotal := 0.0;
    columnTotals := before;
    for j := 0 to |src|
      invariant |cells| == j && |columnTotals| == |src| && rowTotal == Sum(cells)
      invariant forall m :: 0 <= m < j ==> cells[m] == CellOf(b, src[m])
      invariant forall m :: 0 <= m < j ==> columnTotals[m] == before[m] + cells[m]
      invariant columnTotals[j..] == before[j..]
    {
      var v := CellOf(b, src[j]);
      SumAppend(cells, v);
      RestUnchanged(columnTotals, before, j, columnTotals[j] + v);
      cells := cells + [v];
      rowTotal := rowTotal + v;
      columnTotals := columnTotals[j := columnTotals[j] + v];
    }
    assert cells == CellsOf(b, src);
    row := WideRow(b.dims, rowTotal, cells);
  }

  lemma RestUnchanged(xs: seq<real>, ys: seq<real>, j: nat, x: real)
    requires |xs| == |ys| && j < |xs| && xs[j..] == ys[j..]
    ensures xs[j] == ys[j] && xs[j := x][j + 1..] == ys[j + 1..]
  {
    assert xs[j] == xs[j..][0] && ys[j] == ys[j..][0];
    assert xs[j + 1..] == xs[j..][1..] && ys[j + 1..] == ys[j..][1..];
  }

  lemma TotalsAppend(ws: seq<WideRow>, w: WideRow)
    ensures Sum(Totals(ws + [w])) == Sum(Totals(ws)) + w.total
  {
    assert Totals(ws + [w]) == Totals(ws) + [w.total];
    SumAppend(Totals(ws), w.total);
  }

  lemma ColumnAppend(ws: seq<WideRow>, w: WideRow, j: nat)
    requires j < |w.cells| && forall u :: u in ws ==> j < |u.cells|
    ensures Sum(Column(ws + [w], j)) == Sum(Column(ws, j)) + w.cells[j]
  {
    assert Column(ws + [w], j) == Column(ws, j) + [w.cells[j]];
    SumAppend(Column(ws, j), w.cells[j]);
  }

  /** The column totals after one more row. */
  lemma ColumnsAppend(ws: seq<WideRow>, w: WideRow, before: seq<real>, after: seq<real>)
    requires |before| == |after| == |w.cells| && forall u :: u in ws ==> |u.cells| == |w.cells|
    requires forall j :: 0 <= j < |before| ==> before[j] == Sum(Column(ws, j))
    requires forall j :: 0 <= j < |after| ==> after[j] == before[j] + w.cells[j]
    ensures forall j :: 0 <= j < |after| ==> after[j] == Sum(Column(ws + [w], j))
  {
    forall j | 0 <= j < |after| ensures after[j] == Sum(Column(ws + [w], j)) {
      ColumnAppend(ws, w, j);
    }
  }

  /** Pass 1: every bucket becomes a row; row totals, column totals and the grand total are summed on the way. */
  method BuildWide(bs: Buckets, src: seq<string>)
    returns (wide: seq<WideRow>, columnTotals: seq<real>, grandTotal: real)
    requires Sound(bs)
    ensures wide == WideRows(bs, src)
    ensures grandTotal == Sum(Totals(wide))
    ensures |columnTotals| == |src| && forall j :: 0 <= j < |src| ==> columnTotals[j] == Sum(Column(wide, j))
  {
    wide := [];
    columnTotals := seq(|src|, i => 0.0);
    grandTotal := 0.0;
    for i := 0 to |bs.order|
      invariant wide == WideRows(bs, src)[..i]
      invariant grandTotal == Sum(Totals(wide))
      invariant |columnTotals| == |src| && forall j :: 0 <= j < |src| ==> columnTotals[j] == Sum(Column(wide, j))
    {
      var row, totals := BuildRow(bs.byKey[bs.order[i]], src, columnTotals);
      TotalsAppend(wide, row);
      ColumnsAppend(wide, row, columnTotals, totals);
      columnTotals := totals;
      grandTotal := grandTotal + row.total;
      wide := wide + [row];
    }
  }

  // ----- dropping empty rows -----

  function NonZero(ws: seq<WideRow>): seq<WideRow> {
    if ws == [] then []
    else NonZero(ws[..|ws| - 1]) + if ws[|ws| - 1].total == 0.0 then [] else [ws[|ws| - 1]]
  }

  method DropZeroRows(wide: seq<WideRow>) returns (kept: seq<WideRow>)
    ensures kept == NonZero(wide)
  {
    kept := [];
    for i := 0 to |wide|
      invariant kept == NonZero(wide[..i])
    {
      assert wide[..i + 1][..i] == wide[..i];
      if wide[i].total != 0.0 {
        kept := kept + [wide[i]];
      }
    }
    assert wide[..|wide|] == wide;
  }

  // ----- percentages -----

  /** Conversion of a float to an integer: towards zero. */
  function Truncate(x: real): int {
    if x >= 0.0 then x.Floor else -((-x).Floor)
  }

  function RoundPct(x: real): real {
    Truncate(x * 100.0 + 0.5) as real / 100.0
  }

  function Percent(part: real, whole: real): real {
    if whole > 0.0 then part / whole * 100.0 else 0.0
  }

  /** Rounded shares of a total. */
  function Shares(parts: seq<real>, whole: real): seq<real> {
    seq(|parts|, i requires 0 <= i < |parts| => RoundPct(Percent(parts[i], whole)))
  }

  /** Pass 2 for one row: each cell against the row's total, or against its column's. */
  method RowPercents(row: WideRow, columnTotals: seq<real>, cfg: Config) returns (ps: seq<real>)
    requires |columnTotals| == |row.cells|
    ensures |ps| == |row.cells|
    ensures !cfg.columnAxis ==> ps == Shares(row.cells, row.total)
    ensures forall j :: 0 <= j < |ps| ==>
              var whole := if cfg.columnAxis then columnTotals[j] else row.total;
              ps[j] == if whole > 0.0 then RoundPct(row.cells[j] / whole * 100.0) else 0.0
  {
    ps := [];
    for j := 0 to |row.cells|
      invariant |ps| == j
      invariant forall m :: 0 <= m < j ==>
                  ps[m] == RoundPct(Percent(row.cells[m], if cfg.columnAxis then columnTotals[m] else row.total))
    {
      var pct := 0.0;
      if cfg.columnAxis {
        if columnTotals[j] > 0.0 {
          pct := row.cells[j] / columnTotals[j] * 100.0;
        }
      } else if row.total > 0.0 {
        pct := row.cells[j] / row.total * 100.0;
      }
      ps := ps + [RoundPct(pct)];
    }
  }

  // ----- sorting and the limit -----

  /** Where index k goes among already sorted indices: behind everything at least as large. */
  function InsertIndex(idx: seq<nat>, k: nat, totals: seq<real>): seq<nat>
    requires k < |totals| && forall i :: 0 <= i < |idx| ==> idx[i] < |totals|
  {
    if idx == [] then [k]
    else if totals[idx[|idx| - 1]] >= totals[k] then idx + [k]
    else InsertIndex(idx[..|idx| - 1], k, totals) + [idx[|idx| - 1]]
  }

  /** What sort.SliceStable makes of 0..n-1 with larger totals first. */
  function SortedIndices(totals: seq<real>, n: nat): (idx: seq<nat>)
    requires n <= |totals|
    ensures |idx| == n && forall i :: 0 <= i < |idx| ==> idx[i] < n
  {
    if n == 0 then []
    else
      InsertIndices(SortedIndices(totals, n - 1), n - 1, totals);
      InsertIndex(SortedIndices(totals, n - 1), n - 1, totals)
  }

  lemma {:induction false} InsertIndices(idx: seq<nat>, k: nat, totals: seq<real>)
    requires k < |totals| && forall i :: 0 <= i < |idx| ==> idx[i] < |totals|
    ensures |InsertIndex(idx, k, totals)| == |idx| + 1
    ensures multiset(InsertIndex(idx, k, totals)) == multiset(idx) + multiset{k}
    ensures forall i :: 0 <= i <= |idx| ==> InsertIndex(idx, k, totals)[i] == k || InsertIndex(idx, k, totals)[i] in idx
  {
    if idx != [] {
      InsertIndices(idx[..|idx| - 1], k, totals);
      assert idx == idx[..|idx| - 1] + [idx[|idx| - 1]];
    }
  }

  /** Reorders by total and keeps the first `limit` rows when a limit is set. */
  method SortAndLimit(wide: seq<WideRow>, limit: int) returns (top: seq<WideRow>)
    ensures |top| == if limit > 0 && |wide| > limit then limit else |wide|
    ensures forall i :: 0 <= i < |top| ==> top[i] == wide[SortedIndices(Totals(wide), |wide|)[i]]
  {
    var order := SortedIndices(Totals(wide), |wide|);
    var sorted: seq<WideRow> := [];
    for i := 0 to |order|
      invariant |sorted| == i
      invariant forall m :: 0 <= m < i ==> sorted[m] == wide[order[m]]
    {
      sorted := sorted + [wide[order[i]]];
    }
    if limit > 0 && |sorted| > limit {
      top := sorted[..limit];
    } else {
      top := sorted;
    }
  }
}
