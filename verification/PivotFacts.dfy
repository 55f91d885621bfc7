// What pivoting keeps: amounts are conserved except for overwritten and unlisted rows, zero rows carry
// nothing, the order is a stable descending permutation, and rounded shares add up to about 100.
module PivotFacts {
  import opened Pivot

  // ----- sums -----

  lemma {:induction false} SumUpdate(xs: seq<real>, i: nat, x: real)
    requires i < |xs|
    ensures Sum(xs[i := x]) == Sum(xs) - xs[i] + x
  {
    var n := |xs| - 1;
    if i == n {
      assert xs[i := x][..n] == xs[..n];
    } else {
      assert xs[i := x][..n] == xs[..n][i := x];
      SumUpdate(xs[..n], i, x);
    }
  }

  lemma {:induction false} SumZero(xs: seq<real>)
    requires forall i :: 0 <= i < |xs| ==> xs[i] == 0.0
    ensures Sum(xs) == 0.0
  {
    if xs != [] { SumZero(xs[..|xs| - 1]); }
  }

  /** Of two sums over the same places, the smaller terms sum to the same only if they are the same. */
  lemma {:induction false} SumsEqual(xs: seq<real>, ys: seq<real>)
    requires |xs| == |ys| && forall i :: 0 <= i < |xs| ==> xs[i] <= ys[i]
    ensures Sum(xs) <= Sum(ys)
    ensures Sum(xs) == Sum(ys) <==> xs == ys
  {
    if xs != [] {
      var n := |xs| - 1;
      SumsEqual(xs[..n], ys[..n]);
      assert xs == xs[..n] + [xs[n]] && ys == ys[..n] + [ys[n]];
    }
  }

  // ----- conservation -----

  ghost predicate SameCell(a: LongRow, b: LongRow) {
    KeyOf(a) == KeyOf(b) && a.pivot == b.pivot
  }

  ghost predicate Superseded(rows: seq<LongRow>, i: nat)
    requires i < |rows|
  {
    exists j :: i < j < |rows| && SameCell(rows[j], rows[i])
  }

  /** What each input row contributes to the wide table. */
  ghost function Weights(rows: seq<LongRow>, src: seq<string>): seq<real> {
    seq(|rows|, i requires 0 <= i < |rows| =>
      if rows[i].pivot in src && !Superseded(rows, i) then rows[i].metric else 0.0)
  }

  function Metrics(rows: seq<LongRow>): seq<real> {
    seq(|rows|, i requires 0 <= i < |rows| => rows[i].metric)
  }

  /** The bucket cell of a key and pivot value holds the metric of the last row for them. */
  ghost predicate CellIsLast(rows: seq<LongRow>, bs: Buckets, k: string, v: string) {
    if k in bs.byKey && v in bs.byKey[k].values then
      exists i :: 0 <= i < |rows| && KeyOf(rows[i]) == k && rows[i].pivot == v && !Superseded(rows, i)
                  && bs.byKey[k].values[v] == rows[i].metric
    else forall i :: 0 <= i < |rows| ==> !(KeyOf(rows[i]) == k && rows[i].pivot == v)
  }

  lemma {:induction false} BucketsSound(rows: seq<LongRow>)
    ensures Sound(BucketsOf(rows))
  {
    if rows != [] { BucketsSound(rows[..|rows| - 1]); }
  }

  lemma SupersededFront(rows: seq<LongRow>, i: nat)
    requires i < |rows| - 1
    ensures Superseded(rows, i) <==> Superseded(rows[..|rows| - 1], i) || SameCell(rows[|rows| - 1], rows[i])
  {
    var n := |rows| - 1;
    if Superseded(rows[..n], i) {
      var j :| i < j < n && SameCell(rows[..n][j], rows[..n][i]);
      assert SameCell(rows[j], rows[i]);
    }
    if Superseded(rows, i) {
      var j :| i < j < |rows| && SameCell(rows[j], rows[i]);
      if j < n { assert SameCell(rows[..n][j], rows[..n][i]); }
    }
  }

  lemma {:induction false} CellsHoldLast(rows: seq<LongRow>, k: string, v: string)
    ensures CellIsLast(rows, BucketsOf(rows), k, v)
  {
    if rows != [] {
      var n := |rows| - 1;
      var front := rows[..n];
      CellsHoldLast(front, k, v);
      var bs, last := BucketsOf(front), rows[n];
      if k == KeyOf(last) && v == last.pivot {
        assert !Superseded(rows, n);
      } else if k in bs.byKey && v in bs.byKey[k].values {
        var i :| 0 <= i < n && KeyOf(front[i]) == k && front[i].pivot == v && !Superseded(front, i)
                 && bs.byKey[k].values[v] == front[i].metric;
        SupersededFront(rows, i);
        assert KeyOf(rows[i]) == k && rows[i].pivot == v && !Superseded(rows, i);
      } else {
        forall i | 0 <= i < |rows| ensures !(KeyOf(rows[i]) == k && rows[i].pivot == v) {
          if i < n { assert rows[i] == front[i]; }
        }
      }
    }
  }

  ghost predicate DistinctValues(src: seq<string>) {
    forall i, j :: 0 <= i < j < |src| ==> src[i] != src[j]
  }

  /** Changing one pivot value of a bucket changes its row total by that much, if the value has a column. */
  lemma RowTotalChanges(b: Bucket, src: seq<string>, v: string, x: real)
    requires DistinctValues(src)
    ensures var c := b.(values := b.values[v := x]);
            Sum(CellsOf(c, src)) == Sum(CellsOf(b, src)) + if v in src then x - CellOf(b, v) else 0.0
  {
    var c := b.(values := b.values[v := x]);
    if v in src {
      var i :| 0 <= i < |src| && src[i] == v;
      assert CellsOf(c, src) == CellsOf(b, src)[i := x];
      SumUpdate(CellsOf(b, src), i, x);
    } else {
      assert CellsOf(c, src) == CellsOf(b, src);
    }
  }

  /** The amount in the cell that the last row writes to, before it does. */
  function Overwritten(bs: Buckets, r: LongRow): real {
    if KeyOf(r) in bs.byKey then CellOf(bs.byKey[KeyOf(r)], r.pivot) else 0.0
  }

  lemma GridUpdates(bs: Buckets, r: LongRow, src: seq<string>)
    requires Sound(bs) && DistinctValues(src) && Sound(AddRow(bs, r)) && KeyOf(r) in bs.byKey
    ensures Sum(Totals(WideRows(AddRow(bs, r), src))) ==
            Sum(Totals(WideRows(bs, src))) + if r.pivot in src then r.metric - Overwritten(bs, r) else 0.0
  {
    var k := KeyOf(r);
    var before, after := Totals(WideRows(bs, src)), Totals(WideRows(AddRow(bs, r), src));
    var i :| 0 <= i < |bs.order| && bs.order[i] == k;
    var x := Sum(CellsOf(AddRow(bs, r).byKey[k], src));
    RowTotalChanges(bs.byKey[k], src, r.pivot, r.metric);
    assert after == before[i := x];
    SumUpdate(before, i, x);
  }

  lemma GridGrows(bs: Buckets, r: LongRow, src: seq<string>)
    requires Sound(bs) && DistinctValues(src) && Sound(AddRow(bs, r)) && KeyOf(r) !in bs.byKey
    ensures Sum(Totals(WideRows(AddRow(bs, r), src))) ==
            Sum(Totals(WideRows(bs, src))) + if r.pivot in src then r.metric else 0.0
  {
    var before, after := Totals(WideRows(bs, src)), Totals(WideRows(AddRow(bs, r), src));
    var empty := Bucket(r.dims, map[]);
    var x := Sum(CellsOf(AddRow(bs, r).byKey[KeyOf(r)], src));
    RowTotalChanges(empty, src, r.pivot, r.metric);
    assert map[][r.pivot := r.metric] == map[r.pivot := r.metric];
    SumZero(CellsOf(empty, src));
    assert after == before + [x];
    SumAppend(before, x);
  }

  lemma GridChanges(bs: Buckets, r: LongRow, src: seq<string>)
    requires Sound(bs) && DistinctValues(src) && Sound(AddRow(bs, r))
    ensures Sum(Totals(WideRows(AddRow(bs, r), src))) ==
            Sum(Totals(WideRows(bs, src))) + if r.pivot in src then r.metric - Overwritten(bs, r) else 0.0
  {
    if KeyOf(r) in bs.byKey { GridUpdates(bs, r, src); } else { GridGrows(bs, r, src); }
  }

  function WeightOfLast(rows: seq<LongRow>, src: seq<string>): real
    requires rows != []
  {
    if rows[|rows| - 1].pivot in src then rows[|rows| - 1].metric else 0.0
  }

  /** The last row takes over the cell of row i. */
  lemma WeightsReplace(rows: seq<LongRow>, src: seq<string>, i: nat)
    requires i < |rows| - 1 && SameCell(rows[i], rows[|rows| - 1]) && !Superseded(rows[..|rows| - 1], i)
    ensures Weights(rows, src) == Weights(rows[..|rows| - 1], src)[i := 0.0] + [WeightOfLast(rows, src)]
  {
    var n := |rows| - 1;
    var front := rows[..n];
    forall j | 0 <= j < n ensures Weights(rows, src)[j] == Weights(front, src)[i := 0.0][j] {
      SupersededFront(rows, j);
      if j != i && SameCell(front[j], rows[n]) {
        assert j < i ==> SameCell(front[i], front[j]);
      }
    }
  }

  /** The last row has a cell of its own. */
  lemma WeightsFresh(rows: seq<LongRow>, src: seq<string>)
    requires rows != [] && forall j :: 0 <= j < |rows| - 1 ==> !SameCell(rows[|rows| - 1], rows[j])
    ensures Weights(rows, src) == Weights(rows[..|rows| - 1], src) + [WeightOfLast(rows, src)]
  {
    var n := |rows| - 1;
    forall j | 0 <= j < n ensures Weights(rows, src)[j] == Weights(rows[..n], src)[j] {
      SupersededFront(rows, j);
    }
  }

  lemma WeightsChange(rows: seq<LongRow>, src: seq<string>)
    requires rows != []
    ensures var n := |rows| - 1;
            Sum(Weights(rows, src)) == Sum(Weights(rows[..n], src)) +
            if rows[n].pivot in src then rows[n].metric - Overwritten(BucketsOf(rows[..n]), rows[n]) else 0.0
  {
    var n := |rows| - 1;
    var front, last := rows[..n], rows[n];
    var before, w := Weights(front, src), WeightOfLast(rows, src);
    CellsHoldLast(front, KeyOf(last), last.pivot);
    if i: nat :| i < n && SameCell(front[i], last) && !Superseded(front, i) {
      WeightsReplace(rows, src, i);
      SumAppend(before[i := 0.0], w);
      SumUpdate(before, i, 0.0);
      OverwrittenIs(front, last, i);
    } else {
      forall j | 0 <= j < n ensures !SameCell(last, rows[j]) {
        NoneSame(front, last, j);
      }
      WeightsFresh(rows, src);
      SumAppend(before, w);
    }
  }

  lemma OneLast(rows: seq<LongRow>, i: nat, m: nat)
    requires i < |rows| && m < |rows| && SameCell(rows[i], rows[m]) && !Superseded(rows, i) && !Superseded(rows, m)
    ensures i == m
  {
    assert SameCell(rows[m], rows[i]);
  }

  lemma OverwrittenIs(rows: seq<LongRow>, r: LongRow, i: nat)
    requires i < |rows| && SameCell(rows[i], r) && !Superseded(rows, i)
    ensures Overwritten(BucketsOf(rows), r) == rows[i].metric
  {
    CellsHoldLast(rows, KeyOf(r), r.pivot);
    var bs := BucketsOf(rows);
    var m: nat :| m < |rows| && KeyOf(rows[m]) == KeyOf(r) && rows[m].pivot == r.pivot && !Superseded(rows, m)
                  && bs.byKey[KeyOf(r)].values[r.pivot] == rows[m].metric;
    OneLast(rows, i, m);
  }

  /** Rows of one cell have a last one among them. */
  lemma {:induction false} NoneSame(rows: seq<LongRow>, r: LongRow, j: nat)
    requires j < |rows| && forall i :: 0 <= i < |rows| && SameCell(rows[i], r) ==> Superseded(rows, i)
    ensures !SameCell(rows[j], r)
    decreases |rows| - j
  {
    if SameCell(rows[j], r) {
      var m :| j < m < |rows| && SameCell(rows[m], rows[j]);
      NoneSame(rows, r, m);
    }
  }

  /** For all inputs: the grand total is the sum of the metrics of exactly the rows whose pivot value has
      a column and that no later row of the same key and pivot value replaces. */
  lemma {:induction false} Conservation(rows: seq<LongRow>, src: seq<string>)
    requires DistinctValues(src)
    ensures Sound(BucketsOf(rows))
    ensures Sum(Totals(WideRows(BucketsOf(rows), src))) == Sum(Weights(rows, src))
  {
    BucketsSound(rows);
    if rows != [] {
      var n := |rows| - 1;
      Conservation(rows[..n], src);
      GridChanges(BucketsOf(rows[..n]), rows[n], src);
      WeightsChange(rows, src);
    }
  }

  // ----- when nothing is lost -----

  ghost predicate DistinctCells(rows: seq<LongRow>) {
    forall i, j :: 0 <= i < j < |rows| ==> !SameCell(rows[j], rows[i])
  }

  ghost predicate AllShown(rows: seq<LongRow>, src: seq<string>) {
    forall i :: 0 <= i < |rows| ==> rows[i].pivot in src
  }

  /** With one row per key and pivot value, and a column for every pivot value, the grand total is the
      long-format total. */
  lemma NothingLost(rows: seq<LongRow>, src: seq<string>)
    requires DistinctValues(src) && DistinctCells(rows) && AllShown(rows, src)
    ensures Sound(BucketsOf(rows))
    ensures Sum(Totals(WideRows(BucketsOf(rows), src))) == Sum(Metrics(rows))
  {
    Conservation(rows, src);
    forall i | 0 <= i < |rows| ensures !Superseded(rows, i) {
    }
    assert Weights(rows, src) == Metrics(rows);
  }

  /** Exact, for non-negative metrics: the total is conserved if and only if every row with something in
      it has a column and is not replaced by a later row. */
  lemma ConservedExactly(rows: seq<LongRow>, src: seq<string>)
    requires DistinctValues(src) && forall i :: 0 <= i < |rows| ==> rows[i].metric >= 0.0
    ensures Sound(BucketsOf(rows))
    ensures Sum(Totals(WideRows(BucketsOf(rows), src))) == Sum(Metrics(rows)) <==>
              forall i :: 0 <= i < |rows| && rows[i].metric != 0.0 ==> rows[i].pivot in src && !Superseded(rows, i)
  {
    Conservation(rows, src);
    SumsEqual(Weights(rows, src), Metrics(rows));
    FullWeights(rows, src);
  }

  lemma FullWeights(rows: seq<LongRow>, src: seq<string>)
    ensures Weights(rows, src) == Metrics(rows) <==>
              forall i :: 0 <= i < |rows| && rows[i].metric != 0.0 ==> rows[i].pivot in src && !Superseded(rows, i)
  {
    forall i | 0 <= i < |rows|
      ensures Weights(rows, src)[i] == Metrics(rows)[i] <==>
                rows[i].metric == 0.0 || (rows[i].pivot in src && !Superseded(rows, i))
    {
    }
  }

  // ----- which pivot values get a column -----

  lemma {:induction false} UnlabelledAmong(cands: seq<string>, cfg: Config, observed: set<string>, fold: Fold, v: string)
    ensures v in Unlabelled(cands, cfg, observed, fold) ==> v in cands
    ensures v in cands ==> Taken(Unlabelled(cands, cfg, observed, fold), v, cfg, observed, fold)
  {
    if cands != [] {
      var n := |cands| - 1;
      var before, src := Unlabelled(cands[..n], cfg, observed, fold), Unlabelled(cands, cfg, observed, fold);
      UnlabelledAmong(cands[..n], cfg, observed, fold, v);
      assert cands == cands[..n] + [cands[n]];
      if Taken(before, v, cfg, observed, fold) {
        var i :| 0 <= i < |before| && LabelFor(before[i], cfg, observed, fold) == LabelFor(v, cfg, observed, fold);
        assert src[i] == before[i];
      } else if before != src {
        assert src[|before|] == cands[n];
      }
    }
  }

  ghost predicate LabelsDiffer(src: seq<string>, cfg: Config, observed: set<string>, fold: Fold) {
    forall i, j :: 0 <= i < j < |src| ==> LabelFor(src[i], cfg, observed, fold) != LabelFor(src[j], cfg, observed, fold)
  }

  lemma {:induction false} UnlabelledDiffer(cands: seq<string>, cfg: Config, observed: set<string>, fold: Fold)
    ensures LabelsDiffer(Unlabelled(cands, cfg, observed, fold), cfg, observed, fold)
  {
    if cands != [] { UnlabelledDiffer(cands[..|cands| - 1], cfg, observed, fold); }
  }

  /** Columns carry distinct labels, hence distinct pivot values; and every candidate's label has a column. */
  lemma SourcesSpec(cfg: Config, observed: set<string>, fold: Fold)
    ensures LabelsDiffer(Sources(cfg, observed, fold), cfg, observed, fold) && DistinctValues(Sources(cfg, observed, fold))
    ensures forall v :: v in Candidates(cfg, observed, fold) ==> Taken(Sources(cfg, observed, fold), v, cfg, observed, fold)
  {
    var cands := Candidates(cfg, observed, fold);
    UnlabelledDiffer(cands, cfg, observed, fold);
    forall v | v in cands ensures Taken(Sources(cfg, observed, fold), v, cfg, observed, fold) {
      UnlabelledAmong(cands, cfg, observed, fold, v);
    }
  }

  /** No two candidates share a label. */
  ghost predicate DistinctLabels(cfg: Config, observed: set<string>, fold: Fold) {
    forall a, b :: a in Candidates(cfg, observed, fold) && b in Candidates(cfg, observed, fold) && a != b ==>
      LabelFor(a, cfg, observed, fold) != LabelFor(b, cfg, observed, fold)
  }

  /** An observed value that matches a configured one up to case is spelled the same. */
  ghost predicate ExactCase(cfg: Config, observed: set<string>, fold: Fold) {
    forall v :: v in observed && ContainsFold(cfg.pivotValues, v, fold) ==> v in cfg.pivotValues
  }

  lemma TakenExactly(cands: seq<string>, v: string, cfg: Config, observed: set<string>, fold: Fold)
    ensures Taken(Unlabelled(cands, cfg, observed, fold), v, cfg, observed, fold) <==>
              exists j :: 0 <= j < |cands| && LabelFor(cands[j], cfg, observed, fold) == LabelFor(v, cfg, observed, fold)
  {
    var src := Unlabelled(cands, cfg, observed, fold);
    if Taken(src, v, cfg, observed, fold) {
      var i :| 0 <= i < |src| && LabelFor(src[i], cfg, observed, fold) == LabelFor(v, cfg, observed, fold);
      UnlabelledAmong(cands, cfg, observed, fold, src[i]);
    }
    if j :| 0 <= j < |cands| && LabelFor(cands[j], cfg, observed, fold) == LabelFor(v, cfg, observed, fold) {
      UnlabelledAmong(cands, cfg, observed, fold, cands[j]);
    }
  }

  /** v is a candidate, and no earlier candidate has its label. */
  ghost predicate FirstOfLabel(cands: seq<string>, v: string, cfg: Config, observed: set<string>, fold: Fold) {
    exists k :: 0 <= k < |cands| && cands[k] == v && LabelIsNew(cands[..k], v, cfg, observed, fold)
  }

  ghost predicate LabelIsNew(before: seq<string>, v: string, cfg: Config, observed: set<string>, fold: Fold) {
    forall j :: 0 <= j < |before| ==> LabelFor(before[j], cfg, observed, fold) != LabelFor(v, cfg, observed, fold)
  }

  lemma {:induction false} UnlabelledExactly(cands: seq<string>, cfg: Config, observed: set<string>, fold: Fold, v: string)
    ensures v in Unlabelled(cands, cfg, observed, fold) <==> FirstOfLabel(cands, v, cfg, observed, fold)
  {
    if cands != [] {
      var n := |cands| - 1;
      var front := cands[..n];
      UnlabelledExactly(front, cfg, observed, fold, v);
      TakenExactly(front, cands[n], cfg, observed, fold);
      if FirstOfLabel(front, v, cfg, observed, fold) {
        var k :| 0 <= k < n && front[k] == v && LabelIsNew(front[..k], v, cfg, observed, fold);
        assert cands[k] == v && cands[..k] == front[..k];
      }
      if FirstOfLabel(cands, v, cfg, observed, fold) {
        var k :| 0 <= k < |cands| && cands[k] == v && LabelIsNew(cands[..k], v, cfg, observed, fold);
        if k < n { assert front[k] == v && front[..k] == cands[..k]; }
      }
    }
  }

  /** The value is configured, or matches no configured one up to case; and its label is its own or it comes
      first among the candidates of that label. */
  ghost predicate HasColumn(v: string, cfg: Config, observed: set<string>, fold: Fold) {
    && (v in cfg.pivotValues || !ContainsFold(cfg.pivotValues, v, fold))
    && FirstOfLabel(Candidates(cfg, observed, fold), v, cfg, observed, fold)
  }

  /** Exact: which observed values get a column, for every configuration. */
  lemma ShownExactly(cfg: Config, observed: set<string>, fold: Fold, v: string)
    requires v in observed
    ensures v in Sources(cfg, observed, fold) <==> HasColumn(v, cfg, observed, fold)
  {
    var cands := Candidates(cfg, observed, fold);
    UnlabelledExactly(cands, cfg, observed, fold, v);
    UnlabelledAmong(cands, cfg, observed, fold, v);
    assert v in cands <==> (v in cfg.pivotValues || !ContainsFold(cfg.pivotValues, v, fold));
  }

  /** Of several candidates with one label only the first has a column: the amounts of the others are lost. */
  lemma SharedLabelHides(cfg: Config, observed: set<string>, fold: Fold, j: nat, k: nat)
    requires var cands := Candidates(cfg, observed, fold);
             && j < k < |cands| && cands[k] !in cands[..k]
             && LabelFor(cands[j], cfg, observed, fold) == LabelFor(cands[k], cfg, observed, fold)
    ensures Candidates(cfg, observed, fold)[k] !in Sources(cfg, observed, fold)
  {
    var cands := Candidates(cfg, observed, fold);
    var v := cands[k];
    UnlabelledExactly(cands, cfg, observed, fold, v);
    forall m | 0 <= m < |cands| && cands[m] == v ensures !LabelIsNew(cands[..m], v, cfg, observed, fold) {
      assert m >= k;
      assert cands[..m][j] == cands[j];
    }
  }

  /** With distinct labels and exact-case whitelist hits, every observed value has a column. */
  lemma AllAreShown(cfg: Config, observed: set<string>, fold: Fold)
    requires DistinctLabels(cfg, observed, fold) && ExactCase(cfg, observed, fold)
    ensures forall v :: v in observed ==> v in Sources(cfg, observed, fold)
  {
    var src, cands := Sources(cfg, observed, fold), Candidates(cfg, observed, fold);
    forall v | v in observed ensures v in src {
      assert v in cands;
      UnlabelledAmong(cands, cfg, observed, fold, v);
      var i :| 0 <= i < |src| && LabelFor(src[i], cfg, observed, fold) == LabelFor(v, cfg, observed, fold);
      UnlabelledAmong(cands, cfg, observed, fold, src[i]);
    }
  }

  /** End to end and exact, for non-negative metrics: the wide table's total is the long-format total if and
      only if every row with something in it has a column for its pivot value and is not replaced by a later
      row of the same key and pivot value. */
  lemma PivotConservesExactly(rows: seq<LongRow>, cfg: Config, fold: Fold)
    requires forall i :: 0 <= i < |rows| ==> rows[i].metric >= 0.0
    ensures var observed := Observed(rows);
            && Sound(BucketsOf(rows))
            && (Sum(Totals(NonZero(WideRows(BucketsOf(rows), Sources(cfg, observed, fold))))) == Sum(Metrics(rows)) <==>
                forall i :: 0 <= i < |rows| && rows[i].metric != 0.0 ==>
                  HasColumn(rows[i].pivot, cfg, observed, fold) && !Superseded(rows, i))
  {
    var observed := Observed(rows);
    var src := Sources(cfg, observed, fold);
    SourcesSpec(cfg, observed, fold);
    ConservedExactly(rows, src);
    ZeroRowsCarryNothing(WideRows(BucketsOf(rows), src));
    forall i | 0 <= i < |rows| ensures rows[i].pivot in src <==> HasColumn(rows[i].pivot, cfg, observed, fold) {
      assert rows[i] in rows && rows[i].pivot in observed;
      ShownExactly(cfg, observed, fold, rows[i].pivot);
    }
  }

  /** For metrics of either sign: one row per key and pivot value, distinct labels, exact-case whitelist hits. */
  lemma PivotConserves(rows: seq<LongRow>, cfg: Config, fold: Fold)
    requires DistinctCells(rows)
    requires var observed := Observed(rows);
             DistinctLabels(cfg, observed, fold) && ExactCase(cfg, observed, fold)
    ensures var src := Sources(cfg, Observed(rows), fold);
            && Sound(BucketsOf(rows))
            && Sum(Totals(NonZero(WideRows(BucketsOf(rows), src)))) == Sum(Metrics(rows))
  {
    var observed := Observed(rows);
    var src := Sources(cfg, observed, fold);
    SourcesSpec(cfg, observed, fold);
    AllAreShown(cfg, observed, fold);
    forall i | 0 <= i < |rows| ensures rows[i].pivot in src {
      assert rows[i] in rows && rows[i].pivot in observed;
    }
    NothingLost(rows, src);
    ZeroRowsCarryNothing(WideRows(BucketsOf(rows), src));
  }

  // ----- zero rows and column totals -----

  /** Dropping zero-total rows keeps the sum, keeps every other row in order, and leaves no zero total. */
  lemma {:induction false} ZeroRowsCarryNothing(ws: seq<WideRow>)
    ensures Sum(Totals(NonZero(ws))) == Sum(Totals(ws))
    ensures forall w :: w in NonZero(ws) <==> w in ws && w.total != 0.0
  {
    if ws != [] {
      var n := |ws| - 1;
      ZeroRowsCarryNothing(ws[..n]);
      assert ws == ws[..n] + [ws[n]];
      TotalsAppend(ws[..n], ws[n]);
      if ws[n].total != 0.0 {
        TotalsAppend(NonZero(ws[..n]), ws[n]);
      } else {
        assert NonZero(ws[..n]) + [] == NonZero(ws[..n]);
      }
    }
  }

  ghost predicate Rectangular(ws: seq<WideRow>, width: nat) {
    forall i :: 0 <= i < |ws| ==> |ws[i].cells| == width && ws[i].total == Sum(ws[i].cells)
  }

  function ColumnSums(ws: seq<WideRow>, width: nat): seq<real>
    requires forall w :: w in ws ==> |w.cells| == width
  {
    seq(width, j requires 0 <= j < width => Sum(Column(ws, j)))
  }

  lemma {:induction false} SumPlus(xs: seq<real>, ys: seq<real>, zs: seq<real>)
    requires |xs| == |ys| == |zs| && forall i :: 0 <= i < |xs| ==> zs[i] == xs[i] + ys[i]
    ensures Sum(zs) == Sum(xs) + Sum(ys)
  {
    if xs != [] {
      var n := |xs| - 1;
      SumPlus(xs[..n], ys[..n], zs[..n]);
    }
  }

  /** Summing by rows and summing by columns give the same grand total. */
  lemma {:induction false} RowsAndColumnsAgree(ws: seq<WideRow>, width: nat)
    requires Rectangular(ws, width)
    ensures forall w :: w in ws ==> |w.cells| == width
    ensures Sum(ColumnSums(ws, width)) == Sum(Totals(ws))
  {
    if ws == [] {
      SumZero(ColumnSums(ws, width));
    } else {
      var n := |ws| - 1;
      var front, last := ws[..n], ws[n];
      RowsAndColumnsAgree(front, width);
      assert ws == front + [last];
      forall j | 0 <= j < width ensures ColumnSums(ws, width)[j] == ColumnSums(front, width)[j] + last.cells[j] {
        ColumnAppend(front, last, j);
      }
      SumPlus(ColumnSums(front, width), last.cells, ColumnSums(ws, width));
      TotalsAppend(front, last);
    }
  }

  // ----- order -----

  /** Index a may come before index b: larger total, or the same total and earlier. */
  ghost predicate Ahead(totals: seq<real>, a: nat, b: nat)
    requires a < |totals| && b < |totals|
  {
    totals[a] > totals[b] || (totals[a] == totals[b] && a < b)
  }

  ghost predicate StablyDescending(totals: seq<real>, idx: seq<nat>) {
    && (forall i :: 0 <= i < |idx| ==> idx[i] < |totals|)
    && forall i, j :: 0 <= i < j < |idx| ==> Ahead(totals, idx[i], idx[j])
  }

  lemma AppendKeepsOrder(idx: seq<nat>, x: nat, totals: seq<real>)
    requires StablyDescending(totals, idx) && x < |totals|
    requires forall i :: 0 <= i < |idx| ==> Ahead(totals, idx[i], x)
    ensures StablyDescending(totals, idx + [x])
  {
  }

  /** A total at least as large as the last one of a descending list is below all of them. */
  lemma BehindAll(idx: seq<nat>, k: nat, totals: seq<real>)
    requires StablyDescending(totals, idx) && k < |totals| && idx != []
    requires forall i :: 0 <= i < |idx| ==> idx[i] < k
    requires totals[idx[|idx| - 1]] >= totals[k]
    ensures forall i :: 0 <= i < |idx| ==> Ahead(totals, idx[i], k)
  {
    var n := |idx| - 1;
    forall i | 0 <= i < |idx| ensures Ahead(totals, idx[i], k) {
      if i < n { assert Ahead(totals, idx[i], idx[n]); }
    }
  }

  /** What is inserted before a last element, and everything else before it, stays ahead of it. */
  lemma StaysAhead(idx: seq<nat>, k: nat, totals: seq<real>, i: nat)
    requires idx != [] && k < |totals| && StablyDescending(totals, idx) && totals[idx[|idx| - 1]] < totals[k]
    requires i < |idx|
    ensures var r := InsertIndex(idx[..|idx| - 1], k, totals);
            i < |r| && r[i] < |totals| && Ahead(totals, r[i], idx[|idx| - 1])
  {
    var n := |idx| - 1;
    InsertIndices(idx[..n], k, totals);
    var x := InsertIndex(idx[..n], k, totals)[i];
    if x != k {
      var m :| 0 <= m < n && idx[..n][m] == x;
      assert Ahead(totals, idx[m], idx[n]);
    }
  }

  lemma {:induction false} InsertKeepsOrder(idx: seq<nat>, k: nat, totals: seq<real>)
    requires k < |totals| && StablyDescending(totals, idx) && forall i :: 0 <= i < |idx| ==> idx[i] < k
    ensures StablyDescending(totals, InsertIndex(idx, k, totals))
  {
    if idx != [] {
      var n := |idx| - 1;
      if totals[idx[n]] >= totals[k] {
        BehindAll(idx, k, totals);
        AppendKeepsOrder(idx, k, totals);
      } else {
        InsertKeepsOrder(idx[..n], k, totals);
        var r := InsertIndex(idx[..n], k, totals);
        assert |r| == n + 1 by { InsertIndices(idx[..n], k, totals); }
        forall i | 0 <= i < |r| ensures Ahead(totals, r[i], idx[n]) {
          StaysAhead(idx, k, totals, i);
        }
        AppendKeepsOrder(r, idx[n], totals);
      }
    }
  }

  function Positions(n: nat): seq<nat> {
    if n == 0 then [] else Positions(n - 1) + [n - 1]
  }

  lemma {:induction false} SortPermutes(totals: seq<real>, n: nat)
    requires n <= |totals|
    ensures multiset(SortedIndices(totals, n)) == multiset(Positions(n))
  {
    if n > 0 {
      var last: nat := n - 1;
      SortPermutes(totals, last);
      InsertIndices(SortedIndices(totals, last), last, totals);
    }
  }

  lemma {:induction false} SortOrders(totals: seq<real>, n: nat)
    requires n <= |totals|
    ensures StablyDescending(totals, SortedIndices(totals, n))
  {
    if n > 0 {
      var idx := SortedIndices(totals, n - 1);
      SortOrders(totals, n - 1);
      InsertKeepsOrder(idx, n - 1, totals);
      assert SortedIndices(totals, n) == InsertIndex(idx, n - 1, totals);
    }
  }

  /** The sort is a permutation of the positions, in the one stable descending order. */
  lemma SortIsStable(totals: seq<real>, n: nat)
    requires n <= |totals|
    ensures StablyDescending(totals, SortedIndices(totals, n))
    ensures multiset(SortedIndices(totals, n)) == multiset(Positions(n))
  {
    SortPermutes(totals, n);
    SortOrders(totals, n);
  }

  /** No row cut off by the limit beats a row that is kept. */
  lemma LimitKeepsTheBest(wide: seq<WideRow>, kept: nat, i: nat, j: nat)
    requires i < kept <= j < |wide|
    ensures var idx := SortedIndices(Totals(wide), |wide|);
            wide[idx[i]].total >= wide[idx[j]].total
  {
    SortIsStable(Totals(wide), |wide|);
    var idx := SortedIndices(Totals(wide), |wide|);
    assert Ahead(Totals(wide), idx[i], idx[j]);
  }

  // ----- rounding -----

  /** A non-negative percentage moves by at most half of a hundredth. */
  lemma RoundingError(x: real)
    requires x >= 0.0
    ensures -0.005 <= RoundPct(x) - x <= 0.005
  {
    var y := x * 100.0 + 0.5;
    assert y.Floor as real <= y < y.Floor as real + 1.0;
  }

  /** Exact: a whole number of hundredths; the nearest one, the larger when halfway, from -0.005 on, and below that
      what is left of it, plus a half, towards zero. */
  lemma RoundedExactly(x: real) returns (k: int)
    ensures RoundPct(x) * 100.0 == k as real
    ensures x >= -0.005 ==> k as real <= x * 100.0 + 0.5 < k as real + 1.0
    ensures x < -0.005 ==> k as real - 1.0 < x * 100.0 + 0.5 <= k as real
  {
    var y := x * 100.0 + 0.5;
    k := Truncate(y);
    assert y.Floor as real <= y < y.Floor as real + 1.0;
    assert (-y).Floor as real <= -y < (-y).Floor as real + 1.0;
  }

  /** Exact: below -0.005 the conversion goes towards zero, and a percentage then moves by more than half of a
      hundredth unless it lies halfway between two hundredths. */
  lemma RoundingExactly(x: real)
    ensures -0.005 <= RoundPct(x) - x <= 0.005 <==>
              x >= -0.005 || (x * 100.0 + 0.5).Floor as real == x * 100.0 + 0.5
  {
    var y := x * 100.0 + 0.5;
    assert y.Floor as real <= y < y.Floor as real + 1.0;
    assert (-y).Floor as real <= -y < (-y).Floor as real + 1.0;
    if y < 0.0 {
      assert RoundPct(x) - x == (-((-y).Floor as real) - y + 0.5) / 100.0;
      if y.Floor as real == y {
        assert (-y).Floor == -y.Floor;
      }
    } else {
      assert RoundPct(x) - x == (y.Floor as real - y + 0.5) / 100.0;
    }
  }

  lemma ShareSplit(a: real, b: real, t: real)
    requires t > 0.0
    ensures (a + b) / t * 100.0 == a / t * 100.0 + b / t * 100.0
  {
    assert (a + b) / t == a / t + b / t;
  }

  lemma {:induction false} SharesFollowTotal(parts: seq<real>, whole: real)
    requires whole > 0.0 && forall i :: 0 <= i < |parts| ==> parts[i] >= 0.0
    ensures -0.005 * (|parts| as real) <= Sum(Shares(parts, whole)) - Sum(parts) / whole * 100.0 <= 0.005 * (|parts| as real)
  {
    if parts != [] {
      var n := |parts| - 1;
      SharesFollowTotal(parts[..n], whole);
      assert Shares(parts, whole) == Shares(parts[..n], whole) + [RoundPct(Percent(parts[n], whole))];
      SumAppend(Shares(parts[..n], whole), RoundPct(Percent(parts[n], whole)));
      ShareSplit(Sum(parts[..n]), parts[n], whole);
      ShareNonNeg(parts[n], whole);
      RoundingError(Percent(parts[n], whole));
    }
  }

  lemma ShareNonNeg(a: real, t: real)
    requires a >= 0.0 && t > 0.0
    ensures a / t * 100.0 >= 0.0
  {
  }

  /** The k rounded shares of a positive whole that they make up sum to within 0.005 * k of 100: this holds
      along a row, down a column, and for the share-of-grand-total column. */
  lemma SharesSumTo100(parts: seq<real>)
    requires Sum(parts) > 0.0 && forall i :: 0 <= i < |parts| ==> parts[i] >= 0.0
    ensures 100.0 - 0.005 * (|parts| as real) <= Sum(Shares(parts, Sum(parts))) <= 100.0 + 0.005 * (|parts| as real)
  {
    SharesFollowTotal(parts, Sum(parts));
    WholeShare(Sum(parts));
  }

  lemma WholeShare(t: real)
    requires t > 0.0
    ensures t / t * 100.0 == 100.0
  {
    assert t / t == 1.0;
  }
}
