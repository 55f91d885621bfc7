// What a pruned query prints, next to what the streaming rewrite makes of the same lists and predicates.
module SqlPruned {
  import opened SqlRewrite
  import opened SqlText
  import opened SqlPrune
  import opened SqlWhere
  import opened SqlStreaming

  // ----- lists -----

  lemma {:induction false} CommasFront(k: Sql, ks: seq<Sql>)
    ensures Commas([k] + ks) == k + [Comma] + Commas(ks)
  {
    if ks == [] {
      assert [k] + ks == [] + [k];
      CommasOne([], k);
    } else {
      var front, last := ks[..|ks| - 1], ks[|ks| - 1];
      CommasFront(k, front);
      assert [k] + ks == ([k] + front) + [last];
      CommasOne([k] + front, last);
      Assoc(k + [Comma], Commas(front), last);
      Assoc(k + [Comma], Commas(front) + last, [Comma]);
    }
  }

  lemma ListedFront(k: Sql, ks: seq<Sql>)
    requires ks != []
    ensures Listed([k] + ks) == k + [Comma] + Listed(ks)
  {
    var front, last := ks[..|ks| - 1], ks[|ks| - 1];
    assert [k] + ks == ([k] + front) + [last];
    CommasOne([k] + front, last);
    CommasFront(k, front);
    Assoc(k + [Comma], Commas(front), last);
  }

  lemma SolidSeparated(x: Sql, g: Gap, y: Sql)
    ensures Solid(x + PrintComma(g) + y) == Solid(x) + [Comma] + Solid(y)
  {
    SolidAppend(x + PrintComma(g), y);
    SolidAppend(x, PrintComma(g));
    CommaIsNext(g, y);
  }

  lemma ItemsFront(item: Item, rest: seq<Item>, k: Sql, texts: seq<Sql>)
    requires Solid(PrintItem(item)) == k && Solid(PrintItems(rest)) == Listed(texts) && (rest == [] <==> texts == [])
    ensures Solid(PrintItems([item] + rest)) == Listed([k] + texts)
  {
    var all := [item] + rest;
    if rest == [] {
      assert all == [item] && [k] + texts == [k];
      assert Listed([k]) == k by { assert [k][..0] == []; }
    } else {
      ListedFront(k, texts);
      SolidSeparated(PrintItem(item), rest[0].gap, PrintItems(rest));
      assert PrintItems(all) == PrintItem(item) + PrintComma(rest[0].gap) + PrintItems(rest) by { assert all[1..] == rest; }
    }
  }

  lemma {:induction false} PrunedItemsText(items: seq<Item>, values: Values)
    ensures Solid(PrintItems(PruneItems(items, values))) == Listed(KeptTexts(items, values))
    ensures PruneItems(items, values) == [] <==> KeptTexts(items, values) == []
  {
    if items != [] {
      PrunedItemsText(items[1..], values);
      var rest, texts := PruneItems(items[1..], values), KeptTexts(items[1..], values);
      match items[0]
      case Plain(_, toks) =>
        ItemsFront(items[0], rest, Solid(toks), texts);
      case Dim(gap, _, name) =>
        if name in values {
          SolidOne(Quoted(name));
          ItemsFront(Plain(gap, [Quoted(name)]), rest, [Quoted(name)], texts);
        } else {
          assert [] + rest == rest && [] + texts == texts;
        }
    }
  }

  /** Tokens of clauses that pruning takes away whole. */
  function EmptiedTokens(cs: seq<Clause>, values: Values): nat {
    if cs == [] then 0
    else (if Emptied(cs[0], values) then |Solid(cs[0].head)| else 0) + EmptiedTokens(cs[1..], values)
  }

  ghost predicate AnyEmptied(cs: seq<Clause>, values: Values) {
    exists i :: 0 <= i < |cs| && Emptied(cs[i], values)
  }

  lemma PrunedClauseText(c: Clause, values: Values)
    requires !Emptied(c, values)
    ensures Solid([Space] + PrintClause(Clause(c.head, PruneItems(c.items, values)))) == KeptClause(c, values)
  {
    var items := PruneItems(c.items, values);
    PrunedItemsText(c.items, values);
    SolidAppend([Space], PrintClause(Clause(c.head, items)));
    SolidAppend(c.head, if items == [] then [] else [Space] + PrintItems(items));
    SolidAppend([Space], PrintItems(items));
    SolidOne(Space);
  }

  lemma {:induction false} EmptiedCounts(cs: seq<Clause>, values: Values)
    requires GoodClauses(cs, values)
    ensures EmptiedTokens(cs, values) > 0 <==> AnyEmptied(cs, values)
  {
    if cs != [] {
      assert GoodClause(cs[0], values) && GoodClauses(cs[1..], values);
      EmptiedCounts(cs[1..], values);
      AnyEmptiedSplit(cs, values);
      SolidLast(cs[0].head);
    }
  }

  lemma {:induction false} PrunedLength(cs: seq<Clause>, values: Values)
    ensures |Solid(PrintClauses(PruneClauses(cs, values)))| + EmptiedTokens(cs, values) == |KeptClauses(cs, values)|
  {
    if cs != [] {
      PrunedLength(cs[1..], values);
      if Emptied(cs[0], values) { PruneFirstEmptied(cs, values); } else { PruneFirstKept(cs, values); }
    }
  }

  lemma {:induction false} PrunedAlike(cs: seq<Clause>, values: Values)
    requires !AnyEmptied(cs, values)
    ensures Solid(PrintClauses(PruneClauses(cs, values))) == KeptClauses(cs, values)
  {
    if cs != [] {
      AnyEmptiedSplit(cs, values);
      PrunedAlike(cs[1..], values);
      PruneFirstKept(cs, values);
    }
  }

  lemma PrunedClausesText(cs: seq<Clause>, values: Values)
    requires GoodClauses(cs, values)
    ensures !AnyEmptied(cs, values) ==> Solid(PrintClauses(PruneClauses(cs, values))) == KeptClauses(cs, values)
    ensures |Solid(PrintClauses(PruneClauses(cs, values)))| + EmptiedTokens(cs, values) == |KeptClauses(cs, values)|
    ensures EmptiedTokens(cs, values) > 0 <==> AnyEmptied(cs, values)
  {
    EmptiedCounts(cs, values);
    PrunedLength(cs, values);
    if !AnyEmptied(cs, values) { PrunedAlike(cs, values); }
  }

  lemma PrunedClausesSplit(c: Clause, rest: seq<Clause>)
    ensures PrintClauses([c] + rest) == [Space] + PrintClause(c) + PrintClauses(rest)
  {
    assert ([c] + rest)[1..] == rest;
  }

  /** A first clause whose list is emptied. */
  lemma PruneFirstEmptied(cs: seq<Clause>, values: Values)
    requires cs != [] && Emptied(cs[0], values)
    ensures PruneClauses(cs, values) == PruneClauses(cs[1..], values) && KeptClause(cs[0], values) == Solid(cs[0].head)
  {
    PrunedItemsText(cs[0].items, values);
  }

  /** A first clause that is kept. */
  lemma PruneFirstKept(cs: seq<Clause>, values: Values)
    requires cs != [] && !Emptied(cs[0], values)
    ensures Solid(PrintClauses(PruneClauses(cs, values))) ==
            KeptClause(cs[0], values) + Solid(PrintClauses(PruneClauses(cs[1..], values)))
  {
    var pc, pruned := Clause(cs[0].head, PruneItems(cs[0].items, values)), PruneClauses(cs[1..], values);
    assert PruneClauses(cs, values) == [pc] + pruned;
    PrunedClausesSplit(pc, pruned);
    PrunedClauseText(cs[0], values);
    SolidAppend([Space] + PrintClause(pc), PrintClauses(pruned));
  }

  lemma AnyEmptiedSplit(cs: seq<Clause>, values: Values)
    requires cs != []
    ensures AnyEmptied(cs, values) <==> Emptied(cs[0], values) || AnyEmptied(cs[1..], values)
  {
    if AnyEmptied(cs[1..], values) {
      var i :| 0 <= i < |cs[1..]| && Emptied(cs[1..][i], values);
      var m := i + 1;
      assert Emptied(cs[m], values);
    }
    if AnyEmptied(cs, values) && !Emptied(cs[0], values) {
      var i :| 0 <= i < |cs| && Emptied(cs[i], values);
      assert cs[1..][i - 1] == cs[i];
    }
  }

  // ----- predicates -----

  /** The text of these predicates behind b. */
  function Extended(b: Sql, ps: seq<Pred>): Sql {
    if ps == [] then b else if b == [] then PredsText(ps) else b + PrintMorePreds(ps)
  }

  /** Some absent test has text behind its value that stays. */
  ghost predicate LeavesText(preds: seq<Pred>, values: Values) {
    exists i :: 0 <= i < |preds| && Dropped(preds[i], values) && Left(preds[i]) != []
  }

  /** How much of absent tests stays. */
  function LeftTokens(preds: seq<Pred>, values: Values): nat {
    if preds == [] then 0
    else (if Dropped(preds[0], values) then |Solid(Left(preds[0]))| else 0) + LeftTokens(preds[1..], values)
  }

  lemma LeavesTextSplit(preds: seq<Pred>, values: Values)
    requires preds != []
    ensures LeavesText(preds, values) <==>
              (Dropped(preds[0], values) && Left(preds[0]) != []) || LeavesText(preds[1..], values)
  {
    var tail := preds[1..];
    if LeavesText(tail, values) {
      var i :| 0 <= i < |tail| && Dropped(tail[i], values) && Left(tail[i]) != [];
      assert preds[i + 1] == tail[i];
    }
    if i :| 0 < i < |preds| && Dropped(preds[i], values) && Left(preds[i]) != [] {
      assert tail[i - 1] == preds[i];
    }
  }

  lemma {:induction false} LeftCounts(preds: seq<Pred>, values: Values)
    requires GoodPreds(preds, values)
    ensures LeftTokens(preds, values) > 0 <==> LeavesText(preds, values)
  {
    if preds != [] {
      assert GoodPred(preds[0], values) && GoodPreds(preds[1..], values);
      LeftCounts(preds[1..], values);
      LeavesTextSplit(preds, values);
      LeftIsGood(preds[0], values);
      SolidEnd(Left(preds[0]));
      if Left(preds[0]) != [] { BodyStarts(Left(preds[0]), []); }
    }
  }

  /** The first of several predicates, kept, is as well read as part of the text before the others. */
  lemma ExtendKept(s: Shape, p: Pred, ps: seq<Pred>)
    requires PrintPred(p) != []
    ensures Extended(s.body, [p] + ps) == Extended(Keep(s, PrintPred(p)).body, ps)
  {
    var k, more := PrintPred(p), PrintMorePreds(ps);
    assert ([p] + ps)[1..] == ps;
    if s.body == [] {
      assert ps == [] ==> k + more == k;
    } else {
      Assoc(s.body, AND + k, more);
      Assoc(s.body, AND, k);
      assert ps == [] ==> s.body + (AND + k + more) == s.body + AND + k;
    }
  }

  /** What is kept of the first predicate is the text of the first pruned one. */
  lemma PruneFirstPred(preds: seq<Pred>, values: Values, n: nat)
    requires preds != [] && !Dropped(preds[0], values) && GoodPred(preds[0], values)
    ensures var p := preds[0];
            exists q: Pred :: PrintPred(q) == KeptPred(p, n) && PrintPred(q) != []
                 && PrunePreds(preds, values, n) == [q] + PrunePreds(preds[1..], values, if p.Test? then n + 1 else n)
  {
    var p := preds[0];
    var q := if p.Fixed? then p else Fixed(KeptPred(p, n));
    assert PrintPred(q) == KeptPred(p, n);
    KeptIsGood(p, values, n);
  }

  lemma ExtendFirst(s: Shape, preds: seq<Pred>, values: Values, n: nat)
    requires preds != [] && !Dropped(preds[0], values) && GoodPred(preds[0], values)
    ensures var n' := if preds[0].Test? then n + 1 else n;
            Extended(s.body, PrunePreds(preds, values, n)) ==
            Extended(Keep(s, KeptPred(preds[0], n)).body, PrunePreds(preds[1..], values, n'))
  {
    PruneFirstPred(preds, values, n);
    var n' := if preds[0].Test? then n + 1 else n;
    var q: Pred :| PrintPred(q) == KeptPred(preds[0], n) && PrintPred(q) != []
                   && PrunePreds(preds, values, n) == [q] + PrunePreds(preds[1..], values, n');
    ExtendKept(s, q, PrunePreds(preds[1..], values, n'));
  }

  /** When nothing stays of absent tests, the clause is the text of the pruned predicates. */
  lemma {:induction false} ShapedAlike(s: Shape, preds: seq<Pred>, values: Values, n: nat)
    requires GoodPreds(preds, values) && !LeavesText(preds, values)
    ensures Shaped(s, preds, values, n).body == Extended(s.body, PrunePreds(preds, values, n))
    decreases |preds|
  {
    if preds != [] {
      var tail := preds[1..];
      assert GoodPred(preds[0], values) && GoodPreds(tail, values);
      LeavesTextSplit(preds, values);
      if Dropped(preds[0], values) {
        assert s.body + [] == s.body;
        ShapedAlike(Drop(s, []), tail, values, n);
      } else {
        ExtendFirst(s, preds, values, n);
        ShapedAlike(Keep(s, KeptPred(preds[0], n)), tail, values, if preds[0].Test? then n + 1 else n);
      }
    }
  }

  lemma ExtendedGrows(b: Sql, r: Sql, ps: seq<Pred>)
    ensures |Solid(Extended(b + r, ps))| >= |Solid(Extended(b, ps))| + |Solid(r)|
  {
    SolidAppend(b, r);
    if ps != [] {
      var more := PrintMorePreds(ps);
      SolidAppend(b + r, more);
      SolidAppend(b, more);
      MoreText(ps);
      SolidAppend(AND, PredsText(ps));
      if b == [] { assert b + r == r; }
    }
  }

  /** What stays of absent tests stands in the clause besides the text of the pruned predicates. */
  lemma {:induction false} ShapedLonger(s: Shape, preds: seq<Pred>, values: Values, n: nat)
    requires GoodPreds(preds, values)
    ensures |Solid(Shaped(s, preds, values, n).body)| >=
            |Solid(Extended(s.body, PrunePreds(preds, values, n)))| + LeftTokens(preds, values)
    decreases |preds|
  {
    if preds != [] {
      var tail := preds[1..];
      assert GoodPred(preds[0], values) && GoodPreds(tail, values);
      if Dropped(preds[0], values) {
        var r := Left(preds[0]);
        assert Drop(s, r).body == s.body + r;
        ShapedLonger(Drop(s, r), tail, values, n);
        ExtendedGrows(s.body, r, PrunePreds(tail, values, n));
      } else {
        ExtendFirst(s, preds, values, n);
        ShapedLonger(Keep(s, KeptPred(preds[0], n)), tail, values, if preds[0].Test? then n + 1 else n);
      }
    }
  }

  lemma SolidLead(x: Sql)
    ensures Solid([Space, Key(Where), Space] + x) == [Key(Where)] + Solid(x)
  {
    var lead := [Space, Key(Where), Space];
    SolidAppend(lead, x);
    assert lead[1..] == [Key(Where), Space] && lead[1..][1..] == [Space];
    SolidOne(Space);
  }

  lemma PrunedWhereText(preds: seq<Pred>, values: Values)
    ensures var ps := PrunePreds(preds, values, 0);
            Solid(PrintWhere(ps)) == if ps == [] then [] else [Key(Where)] + Solid(Extended([], ps))
  {
    var ps := PrunePreds(preds, values, 0);
    if ps != [] {
      Assoc([Space, Key(Where), Space], PrintPred(ps[0]), PrintMorePreds(ps[1..]));
      SolidLead(PredsText(ps));
    }
  }

  lemma PrunedText(q: Query, values: Values)
    ensures Solid(Print(Prune(q, values))) ==
            Solid(PrintClauses(PruneClauses(q.pre, values))) + Solid(PrintWhere(PrunePreds(q.preds, values, 0)))
            + Solid(PrintClauses(PruneClauses(q.post, values)))
  {
    var p := Prune(q, values);
    SolidAppend(PrintClauses(p.pre) + PrintWhere(p.preds), PrintClauses(p.post));
    SolidAppend(PrintClauses(p.pre), PrintWhere(p.preds));
  }
}
