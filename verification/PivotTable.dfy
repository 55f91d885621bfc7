// What the wide table shows, column by column and row by row: which label heads which pivot value, in which order
// the columns and rows stand, and what is in every cell.
module PivotTable {
  import opened Text
  import opened Pivot
  import opened PivotFacts

  // ----- labels -----

  /** The values that labels are aligned with: the configured ones, else the observed ones ascending. */
  ghost predicate AreColumns(cols: seq<string>, cfg: Config, observed: set<string>) {
    if cfg.pivotValues != [] then cols == cfg.pivotValues
    else Ascending(cols) && forall v :: v in cols <==> v in observed
  }

  /** Position i has a label, and its value is v up to case. */
  ghost predicate NamesAt(v: string, cols: seq<string>, labels: seq<string>, fold: Fold, i: nat) {
    i < |cols| && i < |labels| && labels[i] != "" && fold(cols[i]) == fold(v)
  }

  /** Position i is the first such position from k on. */
  ghost predicate FirstNames(v: string, cols: seq<string>, labels: seq<string>, fold: Fold, k: nat, i: nat) {
    k <= i && NamesAt(v, cols, labels, fold, i) && forall j: nat :: k <= j < i ==> !NamesAt(v, cols, labels, fold, j)
  }

  lemma {:induction false} LabelFromExactly(v: string, cols: seq<string>, labels: seq<string>, fold: Fold, k: nat)
    requires k <= |cols|
    ensures forall i: nat :: FirstNames(v, cols, labels, fold, k, i) ==> LabelFrom(v, cols, labels, fold, k) == labels[i]
    ensures (forall i: nat :: k <= i ==> !NamesAt(v, cols, labels, fold, i)) ==> LabelFrom(v, cols, labels, fold, k) == v
    decreases |cols| - k
  {
    if k < |cols| && !NamesAt(v, cols, labels, fold, k) {
      LabelFromExactly(v, cols, labels, fold, k + 1);
      forall i: nat | FirstNames(v, cols, labels, fold, k, i) ensures FirstNames(v, cols, labels, fold, k + 1, i) {
      }
    }
  }

  /** Exact: a value is headed by the first label that is set and stands at a value equal to it up to case, and by
      itself if there is none. */
  lemma LabelExactly(v: string, cfg: Config, observed: set<string>, fold: Fold) returns (cols: seq<string>)
    ensures AreColumns(cols, cfg, observed)
    ensures forall i: nat :: FirstNames(v, cols, cfg.pivotLabels, fold, 0, i) ==>
              LabelFor(v, cfg, observed, fold) == cfg.pivotLabels[i]
    ensures (forall i: nat :: !NamesAt(v, cols, cfg.pivotLabels, fold, i)) ==> LabelFor(v, cfg, observed, fold) == v
  {
    cols := Columns(cfg, observed);
    LabelFromExactly(v, cols, cfg.pivotLabels, fold, 0);
  }

  // ----- the order of the columns -----

  /** The configured values in the order of the configuration, then the observed ones that equal none of them up to
      case, ascending; or all observed ones ascending when none is configured. */
  lemma CandidatesExactly(cfg: Config, observed: set<string>, fold: Fold) returns (cols: seq<string>, extras: seq<string>)
    ensures AreColumns(cols, cfg, observed) && Candidates(cfg, observed, fold) == cols + extras
    ensures Ascending(extras)
    ensures forall v :: v in extras <==>
              cfg.pivotValues != [] && v in observed
              && forall i :: 0 <= i < |cfg.pivotValues| ==> fold(cfg.pivotValues[i]) != fold(v)
  {
    cols, extras := Columns(cfg, observed), Extras(cfg, observed, fold);
  }

  // ----- selections -----

  ghost predicate Rising(at: seq<nat>, n: nat) {
    (forall i :: 0 <= i < |at| ==> at[i] < n) && forall i, j :: 0 <= i < j < |at| ==> at[i] < at[j]
  }

  /** Exactly the positions below n with this property, ascending. */
  ghost predicate Selects(at: seq<nat>, n: nat, p: nat -> bool) {
    Rising(at, n) && forall k: nat :: k < n ==> (k in at <==> p(k))
  }

  lemma SelectsMore(at: seq<nat>, n: nat, p: nat -> bool, q: nat -> bool) returns (more: seq<nat>)
    requires Selects(at, n, p) && forall k: nat :: k < n ==> p(k) == q(k)
    ensures more == (if q(n) then at + [n] else at) && Selects(more, n + 1, q)
  {
    more := if q(n) then at + [n] else at;
    forall k: nat | k < n + 1 ensures k in more <==> q(k) {
      assert q(n) ==> more[|at|] == n;
      assert k in at ==> k in more;
    }
  }

  /** Candidate k is the first of its label. */
  ghost predicate NewLabelAt(cands: seq<string>, k: nat, cfg: Config, observed: set<string>, fold: Fold) {
    k < |cands| && forall j :: 0 <= j < k ==> LabelFor(cands[j], cfg, observed, fold) != LabelFor(cands[k], cfg, observed, fold)
  }

  /** The positions of all candidates that are the first of their label, and the values there. */
  ghost predicate FirstLabels(cands: seq<string>, at: seq<nat>, src: seq<string>, cfg: Config, observed: set<string>, fold: Fold) {
    && Selects(at, |cands|, (k: nat) => NewLabelAt(cands, k, cfg, observed, fold))
    && |src| == |at| && forall i :: 0 <= i < |at| ==> src[i] == cands[at[i]]
  }

  lemma TakenIsOld(cands: seq<string>, cfg: Config, observed: set<string>, fold: Fold)
    requires cands != []
    ensures var n := |cands| - 1;
            Taken(Unlabelled(cands[..n], cfg, observed, fold), cands[n], cfg, observed, fold) <==>
              !NewLabelAt(cands, n, cfg, observed, fold)
  {
    var n := |cands| - 1;
    TakenExactly(cands[..n], cands[n], cfg, observed, fold);
  }

  lemma {:induction false} FirstLabelsOf(cands: seq<string>, cfg: Config, observed: set<string>, fold: Fold) returns (at: seq<nat>)
    ensures FirstLabels(cands, at, Unlabelled(cands, cfg, observed, fold), cfg, observed, fold)
  {
    if cands == [] {
      at := [];
    } else {
      var n := |cands| - 1;
      var front := FirstLabelsOf(cands[..n], cfg, observed, fold);
      TakenIsOld(cands, cfg, observed, fold);
      at := SelectsMore(front, n, (k: nat) => NewLabelAt(cands[..n], k, cfg, observed, fold),
                        (k: nat) => NewLabelAt(cands, k, cfg, observed, fold));
    }
  }

  /** The columns stand in the order of the candidates: each label where its first candidate stands. */
  lemma ColumnOrder(cfg: Config, observed: set<string>, fold: Fold) returns (at: seq<nat>)
    ensures FirstLabels(Candidates(cfg, observed, fold), at, Sources(cfg, observed, fold), cfg, observed, fold)
  {
    at := FirstLabelsOf(Candidates(cfg, observed, fold), cfg, observed, fold);
  }

  // ----- the rows -----

  /** Row k is the first with its key. */
  ghost predicate NewKeyAt(rows: seq<LongRow>, k: nat) {
    k < |rows| && forall j :: 0 <= j < k ==> KeyOf(rows[j]) != KeyOf(rows[k])
  }

  /** Bucket by bucket, the rows at these positions. */
  ghost predicate BucketsAt(bs: Buckets, rows: seq<LongRow>, at: seq<nat>) {
    |bs.order| == |at| && forall i: nat :: BucketAt(bs, rows, at, i)
  }

  ghost predicate BucketAt(bs: Buckets, rows: seq<LongRow>, at: seq<nat>, i: nat) {
    i < |at| ==> at[i] < |rows| && IsBucketOf(bs, i, rows[at[i]])
  }

  /** The positions of all rows that are the first with their key; the buckets are theirs, in that order. */
  ghost predicate FirstKeys(rows: seq<LongRow>, at: seq<nat>, bs: Buckets) {
    Selects(at, |rows|, (k: nat) => NewKeyAt(rows, k)) && BucketsAt(bs, rows, at)
  }

  ghost predicate IsBucketOf(bs: Buckets, i: nat, r: LongRow) {
    i < |bs.order| && bs.order[i] == KeyOf(r) && KeyOf(r) in bs.byKey && bs.byKey[KeyOf(r)].dims == r.dims
  }

  lemma {:induction false} KeyIsOld(rows: seq<LongRow>, r: LongRow)
    ensures KeyOf(r) in BucketsOf(rows).byKey <==> exists j :: 0 <= j < |rows| && KeyOf(rows[j]) == KeyOf(r)
  {
    if rows != [] {
      var n := |rows| - 1;
      KeyIsOld(rows[..n], r);
      if j :| 0 <= j < n && KeyOf(rows[..n][j]) == KeyOf(r) { assert KeyOf(rows[j]) == KeyOf(r); }
      if j :| 0 <= j < n && KeyOf(rows[j]) == KeyOf(r) { assert KeyOf(rows[..n][j]) == KeyOf(r); }
    }
  }

  lemma KeysSelected(rows: seq<LongRow>, front: seq<nat>) returns (at: seq<nat>)
    requires rows != [] && Selects(front, |rows| - 1, (k: nat) => NewKeyAt(rows[..|rows| - 1], k))
    ensures at == (if NewKeyAt(rows, |rows| - 1) then front + [|rows| - 1] else front)
    ensures Selects(at, |rows|, (k: nat) => NewKeyAt(rows, k))
  {
    var n := |rows| - 1;
    at := SelectsMore(front, n, (k: nat) => NewKeyAt(rows[..n], k), (k: nat) => NewKeyAt(rows, k));
  }

  lemma {:induction false} BucketsStep(rows: seq<LongRow>)
    requires rows != []
    ensures BucketsOf(rows) == AddRow(BucketsOf(rows[..|rows| - 1]), rows[|rows| - 1])
  {
  }

  lemma {:induction false} KeysBucketed(rows: seq<LongRow>, before: Buckets, front: seq<nat>)
    requires rows != [] && before == BucketsOf(rows[..|rows| - 1]) && BucketsAt(before, rows[..|rows| - 1], front)
    ensures BucketsAt(AddRow(before, rows[|rows| - 1]), rows, if NewKeyAt(rows, |rows| - 1) then front + [|rows| - 1] else front)
  {
    var n := |rows| - 1;
    NewKeyIsNew(rows);
    assert rows == rows[..n] + [rows[n]];
    BucketsMore(before, rows[..n], rows[n], front, rows);
  }

  lemma {:induction false} FirstKeysOf(rows: seq<LongRow>) returns (at: seq<nat>)
    ensures FirstKeys(rows, at, BucketsOf(rows))
  {
    if rows == [] {
      at := [];
    } else {
      var front := FirstKeysOf(rows[..|rows| - 1]);
      at := KeysSelected(rows, front);
      BucketsStep(rows);
      KeysBucketed(rows, BucketsOf(rows[..|rows| - 1]), front);
    }
  }

  lemma {:induction false} NewKeyIsNew(rows: seq<LongRow>)
    requires rows != []
    ensures var n := |rows| - 1; NewKeyAt(rows, n) <==> KeyOf(rows[n]) !in BucketsOf(rows[..n]).byKey
  {
    var n := |rows| - 1;
    KeyIsOld(rows[..n], rows[n]);
    if j :| 0 <= j < n && KeyOf(rows[..n][j]) == KeyOf(rows[n]) { assert KeyOf(rows[j]) == KeyOf(rows[n]); }
    if j :| 0 <= j < n && KeyOf(rows[j]) == KeyOf(rows[n]) { assert KeyOf(rows[..n][j]) == KeyOf(rows[n]); }
  }

  /** Buckets stay where they are, with their dimension values. */
  lemma BucketStays(bs: Buckets, r: LongRow, i: nat, first: LongRow)
    requires IsBucketOf(bs, i, first)
    ensures IsBucketOf(AddRow(bs, r), i, first)
  {
  }

  lemma BucketAdded(bs: Buckets, r: LongRow)
    ensures if KeyOf(r) in bs.byKey then |AddRow(bs, r).order| == |bs.order|
            else |AddRow(bs, r).order| == |bs.order| + 1 && IsBucketOf(AddRow(bs, r), |bs.order|, r)
  {
  }

  lemma BucketsMore(bs: Buckets, rows: seq<LongRow>, r: LongRow, at: seq<nat>, all: seq<LongRow>)
    requires BucketsAt(bs, rows, at) && all == rows + [r]
    ensures BucketsAt(AddRow(bs, r), all, if KeyOf(r) in bs.byKey then at else at + [|rows|])
  {
    var more := if KeyOf(r) in bs.byKey then at else at + [|rows|];
    BucketAdded(bs, r);
    forall i: nat ensures BucketAt(AddRow(bs, r), all, more, i) {
      assert BucketAt(bs, rows, at, i);
      if i < |at| { BucketStays(bs, r, i, rows[at[i]]); }
    }
  }

  /** Row i of the wide table: the dimension values of the first long row with its key, and in every cell the metric
      of the last long row with that key and the column's value, or zero if there is none. */
  ghost predicate ShowsRow(rows: seq<LongRow>, src: seq<string>, w: WideRow, first: LongRow) {
    && w.dims == first.dims && |w.cells| == |src| && w.total == Sum(w.cells)
    && forall j :: 0 <= j < |src| ==> ShowsCell(rows, KeyOf(first), src[j], w.cells[j])
  }

  ghost predicate ShowsCell(rows: seq<LongRow>, key: string, v: string, x: real) {
    && ((forall k :: 0 <= k < |rows| ==> !(KeyOf(rows[k]) == key && rows[k].pivot == v)) ==> x == 0.0)
    && forall k: nat :: LastFor(rows, key, v, k) ==> x == rows[k].metric
  }

  ghost predicate LastFor(rows: seq<LongRow>, key: string, v: string, k: nat) {
    && k < |rows| && KeyOf(rows[k]) == key && rows[k].pivot == v
    && forall j :: k < j < |rows| ==> !(KeyOf(rows[j]) == key && rows[j].pivot == v)
  }

  lemma CellShown(rows: seq<LongRow>, key: string, v: string)
    requires key in BucketsOf(rows).byKey
    ensures ShowsCell(rows, key, v, CellOf(BucketsOf(rows).byKey[key], v))
  {
    CellsHoldLast(rows, key, v);
    var b := BucketsOf(rows).byKey[key];
    if v in b.values {
      var i: nat :| i < |rows| && KeyOf(rows[i]) == key && rows[i].pivot == v && !Superseded(rows, i)
                    && b.values[v] == rows[i].metric;
      forall k: nat | LastFor(rows, key, v, k) ensures k == i {
        assert k != i ==> SameCell(rows[k], rows[i]);
      }
    }
  }

  /** The whole table, before empty rows are dropped: a row per key, in the order of first appearance. */
  lemma TableExactly(rows: seq<LongRow>, src: seq<string>) returns (at: seq<nat>)
    ensures Selects(at, |rows|, (k: nat) => NewKeyAt(rows, k))
    ensures Sound(BucketsOf(rows)) && |WideRows(BucketsOf(rows), src)| == |at|
    ensures forall i :: 0 <= i < |at| ==> ShowsRow(rows, src, WideRows(BucketsOf(rows), src)[i], rows[at[i]])
  {
    var bs := BucketsOf(rows);
    BucketsSound(rows);
    at := FirstKeysOf(rows);
    forall i | 0 <= i < |at| ensures ShowsRow(rows, src, WideRows(bs, src)[i], rows[at[i]]) {
      assert BucketAt(bs, rows, at, i);
      forall j | 0 <= j < |src| ensures ShowsCell(rows, KeyOf(rows[at[i]]), src[j], WideRows(bs, src)[i].cells[j]) {
        CellShown(rows, KeyOf(rows[at[i]]), src[j]);
      }
    }
  }

  ghost predicate HasAmount(ws: seq<WideRow>, k: nat) {
    k < |ws| && ws[k].total != 0.0
  }

  ghost predicate RowAt(kept: seq<WideRow>, ws: seq<WideRow>, at: seq<nat>, i: nat) {
    i < |at| ==> i < |kept| && at[i] < |ws| && kept[i] == ws[at[i]]
  }

  /** These rows are those at these positions. */
  ghost predicate RowsAt(kept: seq<WideRow>, ws: seq<WideRow>, at: seq<nat>) {
    |kept| == |at| && forall i: nat :: RowAt(kept, ws, at, i)
  }

  lemma RowsAtMore(kept: seq<WideRow>, ws: seq<WideRow>, at: seq<nat>)
    requires ws != [] && RowsAt(kept, ws[..|ws| - 1], at)
    ensures RowsAt(kept, ws, at) && RowsAt(kept + [ws[|ws| - 1]], ws, at + [|ws| - 1])
  {
    var n: nat := |ws| - 1;
    var more, to: seq<nat> := kept + [ws[n]], at + [n];
    forall i: nat ensures RowAt(kept, ws, at, i) { assert RowAt(kept, ws[..n], at, i); }
    forall i: nat ensures RowAt(more, ws, to, i) { assert RowAt(kept, ws[..n], at, i); }
    assert RowsAt(more, ws, to);
  }

  lemma AmountsSelected(ws: seq<WideRow>, front: seq<nat>) returns (at: seq<nat>)
    requires ws != [] && Selects(front, |ws| - 1, (k: nat) => HasAmount(ws[..|ws| - 1], k))
    ensures at == (if HasAmount(ws, |ws| - 1) then front + [|ws| - 1] else front)
    ensures Selects(at, |ws|, (k: nat) => HasAmount(ws, k))
  {
    var n := |ws| - 1;
    at := SelectsMore(front, n, (k: nat) => HasAmount(ws[..n], k), (k: nat) => HasAmount(ws, k));
  }

  /** Dropping empty rows keeps exactly the others, in order. */
  lemma {:induction false} NonZeroExactly(ws: seq<WideRow>) returns (at: seq<nat>)
    ensures Selects(at, |ws|, (k: nat) => HasAmount(ws, k)) && RowsAt(NonZero(ws), ws, at)
  {
    if ws == [] {
      at := [];
    } else {
      var n := |ws| - 1;
      var front := NonZeroExactly(ws[..n]);
      at := AmountsSelected(ws, front);
      NonZeroStep(ws);
      RowsAtMore(NonZero(ws[..n]), ws, front);
    }
  }

  lemma {:induction false} NonZeroStep(ws: seq<WideRow>)
    requires ws != []
    ensures var n := |ws| - 1;
            NonZero(ws) == if HasAmount(ws, n) then NonZero(ws[..n]) + [ws[n]] else NonZero(ws[..n])
  {
  }
}
