// RenderSysParams on printed queries: what it renders, and that this is the pruned query except exactly
// where debris stays behind.
module SqlTheorem {
  import opened SqlRewrite
  import opened SqlText
  import opened SqlPrune
  import opened SqlWhere
  import opened SqlStreaming
  import opened SqlPruned

  ghost predicate SolidCalm(w: Sql) {
    ConnsHold(w) && NoWhere(w)
  }

  lemma SolidCalmConcat(u: Sql, v: Sql)
    requires SolidCalm(u) && SolidCalm(v)
    ensures SolidCalm(u + v)
  {
    ConnsHoldConcat(u, v);
  }

  // ----- kept clauses are calm -----

  lemma {:induction false} CommasCalm(ks: seq<Sql>)
    requires forall i :: 0 <= i < |ks| ==> SolidCalm(ks[i])
    ensures SolidCalm(Commas(ks)) && SolidCalm(Listed(ks))
  {
    if ks != [] {
      var front, k := Commas(ks[..|ks| - 1]), ks[|ks| - 1];
      CommasCalm(ks[..|ks| - 1]);
      SolidCalmConcat(front, k);
      SolidCalmConcat(front + k, [Comma]);
    }
  }

  lemma {:induction false} TextsCalm(items: seq<Item>, values: Values)
    requires forall i :: 0 <= i < |items| ==> GoodItem(items[i], values)
    ensures forall i :: 0 <= i < |KeptTexts(items, values)| ==> SolidCalm(KeptTexts(items, values)[i])
  {
    if items != [] {
      assert GoodItem(items[0], values);
      TextsCalm(items[1..], values);
    }
  }

  lemma {:induction false} KeptClausesCalm(cs: seq<Clause>, values: Values)
    requires GoodClauses(cs, values)
    ensures SolidCalm(KeptClauses(cs, values))
  {
    if cs != [] {
      assert GoodClause(cs[0], values) && GoodClauses(cs[1..], values);
      TextsCalm(cs[0].items, values);
      CommasCalm(KeptTexts(cs[0].items, values));
      KeptClausesCalm(cs[1..], values);
      SolidCalmConcat(Solid(cs[0].head), Listed(KeptTexts(cs[0].items, values)));
      SolidCalmConcat(KeptClause(cs[0], values), KeptClauses(cs[1..], values));
    }
  }

  // ----- what is rendered -----

  /** Every test is absent and ends at its value. */
  ghost predicate AllGone(preds: seq<Pred>, values: Values) {
    forall i :: 0 <= i < |preds| ==> Dropped(preds[i], values) && Left(preds[i]) == []
  }

  /** An emptied WHERE the clean-up does not take away: at the end of the text after two or more absent
      predicates, or before a clause it does not know. */
  ghost predicate WhereLeft(q: Query, values: Values) {
    && q.preds != [] && AllGone(q.preds, values)
    && if q.post == [] then |q.preds| > 1 else q.post[0].head != [] && q.post[0].head[0] !in {Key(Group), Key(Order), Key(Limit), Key(Having)}
  }

  /** The clause after all predicates of the query. */
  function WhereShape(q: Query, values: Values): Shape {
    Shaped(START, q.preds, values, 0)
  }

  ghost function WhereKept(q: Query, values: Values): Sql {
    var body := WhereShape(q, values).body;
    if body != [] then [Key(Where)] + Solid(body)
    else if WhereLeft(q, values) then [Key(Where)] else []
  }

  lemma AllGoneSplit(preds: seq<Pred>, values: Values)
    requires preds != []
    ensures AllGone(preds, values) <==>
              Dropped(preds[0], values) && Left(preds[0]) == [] && AllGone(preds[1..], values)
  {
    assert forall i :: 0 < i < |preds| ==> preds[i] == preds[1..][i - 1];
    if AllGone(preds, values) {
      assert forall i :: 0 <= i < |preds[1..]| ==> preds[1..][i] == preds[i + 1];
    }
  }

  /** When nothing is left behind WHERE, and what white space then is. */
  lemma {:induction false} NothingKept(s: Shape, preds: seq<Pred>, values: Values, n: nat)
    requires GoodPreds(preds, values)
    ensures var t := Shaped(s, preds, values, n);
            && (t.body == [] <==> s.body == [] && AllGone(preds, values))
            && (t.body == [] && preds != [] ==> t.gap == if s.first && |preds| == 1 then [Space] else [])
    decreases |preds|
  {
    if preds != [] {
      var tail := preds[1..];
      assert GoodPred(preds[0], values) && GoodPreds(tail, values);
      AllGoneSplit(preds, values);
      if Dropped(preds[0], values) {
        NothingKept(Drop(s, Left(preds[0])), tail, values, n);
      } else {
        KeptIsGood(preds[0], values, n);
        NothingKept(Keep(s, KeptPred(preds[0], n)), tail, values, if preds[0].Test? then n + 1 else n);
      }
    }
  }

  // ----- words in a WHERE -----

  /** This text stays directly behind a word: behind a bare WHERE whose white space is gone, or behind the text of
      the predicates before it. */
  predicate StaysTight(s: Shape, r: Sql) {
    r != [] && Wordy(r[0]) && if s.body == [] then !s.first else EndsWordy(s.body)
  }

  /** Some absent test leaves a word there: one that stands directly behind the test's closing parenthesis. */
  predicate PredsFuse(s: Shape, preds: seq<Pred>, values: Values, n: nat)
    decreases |preds|
  {
    if preds == [] then false
    else if Dropped(preds[0], values) then
      StaysTight(s, Left(preds[0])) || PredsFuse(Drop(s, Left(preds[0])), preds[1..], values, n)
    else PredsFuse(Keep(s, KeptPred(preds[0], n)), preds[1..], values, if preds[0].Test? then n + 1 else n)
  }

  ghost predicate ShapeApart(s: Shape) {
    Separated(s.body) && (s.gap == [] && s.body != [] ==> !Wordy(s.body[0]))
  }

  lemma KeepApart(s: Shape, k: Sql)
    requires GoodShape(s) && GoodText(k)
    ensures ShapeApart(Keep(s, k)) <==> ShapeApart(s)
  {
    if s.body != [] {
      SeparatedConcat(s.body + AND, k);
      SeparatedConcat(s.body, AND);
    }
  }

  lemma DropApart(s: Shape, r: Sql)
    requires GoodShape(s) && Separated(r)
    ensures ShapeApart(Drop(s, r)) <==> ShapeApart(s) && !StaysTight(s, r)
  {
    SeparatedConcat(s.body, r);
  }

  lemma {:induction false} ShapedApart(s: Shape, preds: seq<Pred>, values: Values, n: nat)
    requires GoodShape(s) && GoodPreds(preds, values)
    ensures ShapeApart(Shaped(s, preds, values, n)) <==> ShapeApart(s) && !PredsFuse(s, preds, values, n)
    decreases |preds|
  {
    if preds != [] {
      var tail := preds[1..];
      assert GoodPred(preds[0], values) && GoodPreds(tail, values);
      if Dropped(preds[0], values) {
        var r := Left(preds[0]);
        LeftIsGood(preds[0], values);
        DropIsGood(s, r);
        DropApart(s, r);
        ShapedApart(Drop(s, r), tail, values, n);
      } else {
        var k := KeptPred(preds[0], n);
        KeptIsGood(preds[0], values, n);
        KeepIsGood(s, k);
        KeepApart(s, k);
        ShapedApart(Keep(s, k), tail, values, if preds[0].Test? then n + 1 else n);
      }
    }
  }

  // ----- what is rendered -----

  lemma NilRight<T>(s: seq<T>)
    ensures s + [] == s && [] + s == s
  {
  }

  /** Two runs of clauses with nothing between them. */
  lemma RenderTwoRuns(pre: seq<Clause>, post: seq<Clause>, values: Values) returns (a: Sql, b: Sql)
    requires GoodClauses(pre, values) && GoodClauses(post, values)
    ensures RenderFrom(EMPTY, PrintClauses(pre) + (PrintClauses(post) + []), values) == Rendered(a + b, [], {})
    ensures Solid(a) == KeptClauses(pre, values) && Solid(b) == KeptClauses(post, values)
    ensures Separated(a + b) <==> !AnyFuses(pre, values) && !AnyFuses(post, values)
  {
    ClausesStart(post, [], values);
    a := RenderClauses(EMPTY, pre, PrintClauses(post) + [], values);
    NilRight(a);
    b := RenderClauses(Rendered(a, [], {}), post, [], values);
    RunsApart(a, b);
  }

  lemma RunsApart(a: Sql, b: Sql)
    requires b != [] ==> b[0].Space?
    ensures Separated(a + b) <==> Separated(a) && Separated(b)
  {
    SeparatedConcat(a, b);
  }

  lemma CleanTwo(a: Sql, b: Sql)
    requires SolidCalm(Solid(a)) && SolidCalm(Solid(b))
    ensures Clean(a + b) == a + b && Solid(a + b) == Solid(a) + Solid(b)
  {
    SolidAppend(a, b);
    SolidCalmConcat(Solid(a), Solid(b));
    CleanCalm(a + b);
  }

  lemma RenderNoWhere(q: Query, values: Values)
    requires GoodQuery(q, values) && q.preds == []
    ensures var r := Render(Print(q), values);
            Solid(r.out) == KeptClauses(q.pre, values) + KeptClauses(q.post, values) && r.args == [] && r.missing == {}
    ensures Separated(Render(Print(q), values).out) <==> !AnyFuses(q.pre, values) && !AnyFuses(q.post, values)
  {
    NilRight(PrintClauses(q.pre));
    NilRight(PrintClauses(q.post));
    assert Print(q) == PrintClauses(q.pre) + (PrintClauses(q.post) + []);
    var a, b := RenderTwoRuns(q.pre, q.post, values);
    KeptClausesCalm(q.pre, values);
    KeptClausesCalm(q.post, values);
    CleanTwo(a, b);
  }

  lemma PrintSplit(q: Query)
    requires q.preds != []
    ensures Print(q) == PrintClauses(q.pre) + ([Space, Key(Where), Space] + (PredsText(q.preds) + (PrintClauses(q.post) + [])))
  {
    var lead := [Space, Key(Where), Space];
    var text, post := PredsText(q.preds), PrintClauses(q.post);
    Assoc(lead, PrintPred(q.preds[0]), PrintMorePreds(q.preds[1..]));
    NilRight(post);
    Assoc(PrintClauses(q.pre), lead + text, post);
    Assoc(lead, text, post);
  }

  /** The WHERE keyword behind a rendered run of clauses. */
  lemma RenderKeyword(a: Sql, rest: Sql, values: Values)
    ensures RenderFrom(Rendered(a, [], {}), [Space, Key(Where), Space] + rest, values) ==
            RenderFrom(Rendered(a + [Space] + WhereText(START), [], {}), rest, values)
  {
    RenderToks(Rendered(a, [], {}), [Space, Key(Where), Space], rest, values);
    assert a + [Space, Key(Where), Space] == a + [Space] + WhereText(START);
  }

  /** Everything up to and including the WHERE keyword. */
  lemma RenderToWhere(q: Query, rest: Sql, values: Values) returns (a: Sql)
    requires GoodClauses(q.pre, values)
    ensures RenderFrom(EMPTY, PrintClauses(q.pre) + ([Space, Key(Where), Space] + rest), values) ==
            RenderFrom(Rendered(a + [Space] + WhereText(START), [], {}), rest, values)
    ensures Solid(a) == KeptClauses(q.pre, values) && (Separated(a) <==> !AnyFuses(q.pre, values))
  {
    WhereStart(rest);
    a := RenderClauses(EMPTY, q.pre, [Space, Key(Where), Space] + rest, values);
    NilRight(a);
    RenderKeyword(a, rest, values);
  }

  /** A whole WHERE behind its keyword. */
  lemma RenderWhere(A: Sql, preds: seq<Pred>, rest: Sql, values: Values)
    requires preds != [] && GoodPreds(preds, values)
    ensures var s := Shaped(START, preds, values, 0);
            && GoodShape(s)
            && RenderFrom(Rendered(A + WhereText(START), [], {}), PredsText(preds) + rest, values)
               == RenderFrom(Rendered(A + WhereText(s), BoundArgs(preds, values), {}), rest, values)
  {
    assert Sep(START) + PredsText(preds) == PredsText(preds);
    RenderPreds(Rendered(A + WhereText(START), [], {}), A, START, preds, rest, values);
    NilRight(BoundArgs(preds, values));
  }

  /** Pre clauses, WHERE and post clauses one after the other, before the clean-up. */
  lemma RenderParts(q: Query, values: Values) returns (a: Sql, b: Sql)
    requires GoodQuery(q, values) && q.preds != []
    ensures GoodShape(WhereShape(q, values))
    ensures RenderFrom(EMPTY, Print(q), values) ==
            Rendered(a + [Space] + WhereText(WhereShape(q, values)) + b, BoundArgs(q.preds, values), {})
    ensures Solid(a) == KeptClauses(q.pre, values) && Solid(b) == KeptClauses(q.post, values)
    ensures Separated(a) <==> !AnyFuses(q.pre, values)
    ensures Separated(b) <==> !AnyFuses(q.post, values)
    ensures q.post == [] ==> b == []
    ensures q.post != [] ==> |b| > 1 && b[0] == Space && q.post[0].head != [] && b[1] == q.post[0].head[0]
  {
    var post := PrintClauses(q.post) + [];
    PrintSplit(q);
    a := RenderToWhere(q, PredsText(q.preds) + post, values);
    RenderWhere(a + [Space], q.preds, post, values);
    b := RenderClauses(Rendered(a + [Space] + WhereText(WhereShape(q, values)), BoundArgs(q.preds, values), {}),
                       q.post, [], values);
  }

  lemma WhereStart(rest: Sql)
    ensures Solid([Space, Key(Where), Space] + rest) != [] && Solid([Space, Key(Where), Space] + rest)[0] == Key(Where)
  {
    var s := [Space, Key(Where), Space] + rest;
    assert s[1..][0] == Key(Where);
  }

  lemma AfterSpace(a: Sql)
    ensures Solid(a + [Space]) == Solid(a)
    ensures Separated(a + [Space]) <==> Separated(a)
  {
    SolidAppend(a, [Space]);
    SolidOne(Space);
    SeparatedConcat(a, [Space]);
  }

  lemma SolidCons(t: Token, x: Sql)
    requires !t.Space?
    ensures Solid([t] + x) == [t] + Solid(x)
  {
    ConsTail(t, x);
  }

  lemma SolidBehindWhite(gap: Sql, x: Sql)
    requires White(gap)
    ensures Solid(gap + x) == Solid(x)
  {
    SolidAppend(gap, x);
    WhiteIsNotSolid(gap);
  }

  lemma WhereSolid(gap: Sql, body: Sql, b: Sql)
    requires White(gap)
    ensures Solid([Key(Where)] + (gap + (body + b))) == [Key(Where)] + (Solid(body) + Solid(b))
  {
    SolidCons(Key(Where), gap + (body + b));
    SolidBehindWhite(gap, body + b);
    SolidAppend(body, b);
  }

  lemma KeptSolid(a: Sql, s: Shape, b: Sql)
    ensures Solid(a + [Space] + ([Key(Where)] + (CleanGap(s) + (s.body + b)))) ==
            Solid(a) + ([Key(Where)] + Solid(s.body)) + Solid(b)
  {
    AfterSpace(a);
    SolidAppend(a + [Space], [Key(Where)] + (CleanGap(s) + (s.body + b)));
    WhereSolid(CleanGap(s), s.body, b);
    Assoc([Key(Where)], Solid(s.body), Solid(b));
    Assoc(Solid(a), [Key(Where)] + Solid(s.body), Solid(b));
  }

  lemma KeptApart(a: Sql, s: Shape, b: Sql)
    requires GoodShape(s) && s.body != [] && (b != [] ==> b[0].Space?)
    ensures Separated(a + [Space] + ([Key(Where)] + (CleanGap(s) + (s.body + b)))) <==>
              Separated(a) && ShapeApart(s) && Separated(b)
  {
    SeparatedConcat(s.body, b);
    SeparatedConcat(CleanGap(s), s.body + b);
    SeparatedConcat([Key(Where)], CleanGap(s) + (s.body + b));
    SeparatedConcat(a, [Space]);
    SeparatedConcat(a + [Space], [Key(Where)] + (CleanGap(s) + (s.body + b)));
    assert (s.body + b)[0] == s.body[0];
    if CleanGap(s) == [] { assert CleanGap(s) + (s.body + b) == s.body + b; }
  }

  lemma CleanedKept(a: Sql, s: Shape, b: Sql)
    requires GoodShape(s) && s.body != [] && Calm(a) && Calm(b) && (b != [] ==> b[0].Space?)
    ensures var r := Clean(a + [Space] + WhereText(s) + b);
            && Solid(r) == Solid(a) + ([Key(Where)] + Solid(s.body)) + Solid(b)
            && (Separated(r) <==> Separated(a) && ShapeApart(s) && Separated(b))
  {
    AfterSpace(a);
    Assoc(a + [Space], WhereText(s), b);
    CleanKept(a + [Space], s, b);
    KeptSolid(a, s, b);
    KeptApart(a, s, b);
  }

  lemma EmptyText(A: Sql, gap: Sql, b: Sql)
    ensures A + ([Key(Where)] + gap) + b == A + ([Key(Where)] + (gap + b))
  {
  }

  lemma CleanedEmpty(q: Query, values: Values, a: Sql, gap: Sql, b: Sql)
    requires GoodQuery(q, values) && q.preds != [] && AllGone(q.preds, values)
    requires gap == if |q.preds| == 1 then [Space] else []
    requires Calm(a) && Calm(b)
    requires q.post == [] ==> b == []
    requires q.post != [] ==> |b| > 1 && b[0] == Space && q.post[0].head != [] && b[1] == q.post[0].head[0]
    ensures var r := Clean(a + [Space] + ([Key(Where)] + gap) + b);
            && Solid(r) == Solid(a) + (if WhereLeft(q, values) then [Key(Where)] else []) + Solid(b)
            && (Separated(r) <==> Separated(a) && Separated(b))
  {
    var A := a + [Space];
    AfterSpace(a);
    CalmIsWhereless(A);
    CalmIsWhereless(b);
    if q.post != [] { assert GoodClause(q.post[0], values); }
    var out := CleanEmpty(A, gap, b);
    EmptyText(A, gap, b);
  }

  lemma RenderWithWhere(q: Query, values: Values)
    requires GoodQuery(q, values) && q.preds != []
    ensures var r := Render(Print(q), values);
            && Solid(r.out) == KeptClauses(q.pre, values) + WhereKept(q, values) + KeptClauses(q.post, values)
            && r.args == BoundArgs(q.preds, values) && r.missing == {}
    ensures Separated(Render(Print(q), values).out) <==> !WordsFuse(q, values)
  {
    var s := WhereShape(q, values);
    var a, b := RenderParts(q, values);
    KeptClausesCalm(q.pre, values);
    KeptClausesCalm(q.post, values);
    NothingKept(START, q.preds, values, 0);
    ShapedApart(START, q.preds, values, 0);
    if s.body != [] {
      CleanedKept(a, s, b);
    } else {
      NilRight([Key(Where)] + s.gap);
      CleanedEmpty(q, values, a, s.gap, b);
    }
  }

  /** Two words run together: in a list that begins with absent entries and then a word directly behind its comma,
      or where an absent test leaves a word directly behind another one. */
  predicate WordsFuse(q: Query, values: Values) {
    AnyFuses(q.pre, values) || AnyFuses(q.post, values) || PredsFuse(START, q.preds, values, 0)
  }

  /** The rendered text of any well-formed printed query, up to white space. */
  lemma RenderedText(q: Query, values: Values)
    requires GoodQuery(q, values)
    ensures var r := Render(Print(q), values);
            && Solid(r.out) == KeptClauses(q.pre, values) + WhereKept(q, values) + KeptClauses(q.post, values)
            && r.args == BoundArgs(q.preds, values) && r.missing == {}
    ensures Separated(Render(Print(q), values).out) <==> !WordsFuse(q, values)
  {
    if q.preds == [] {
      RenderNoWhere(q, values);
      assert KeptClauses(q.pre, values) + [] == KeptClauses(q.pre, values);
    } else {
      RenderWithWhere(q, values);
    }
  }

  // ----- the theorem -----

  /** What the streaming rewrite leaves behind: a keyword phrase whose list lost all its entries, a bare WHERE, or
      the text behind the value of an absent test. A caller can decide this from the query, the keys of its values,
      and which values are usable. */
  ghost predicate LeavesDebris(q: Query, values: Values) {
    || AnyEmptied(q.pre, values) || AnyEmptied(q.post, values)
    || WhereLeft(q, values) || LeavesText(q.preds, values)
  }

  lemma {:induction false} GoneIsPruned(preds: seq<Pred>, values: Values, n: nat)
    requires AllGone(preds, values)
    ensures PrunePreds(preds, values, n) == [] && !LeavesText(preds, values)
  {
    if preds != [] {
      AllGoneSplit(preds, values);
      GoneIsPruned(preds[1..], values, n);
    }
  }

  /** With text left behind, the clause is longer than that of the pruned query. */
  lemma WhereLonger(q: Query, values: Values)
    requires GoodQuery(q, values) && LeavesText(q.preds, values)
    ensures |WhereKept(q, values)| > |Solid(PrintWhere(PrunePreds(q.preds, values, 0)))| && !WhereLeft(q, values)
  {
    PrunedWhereText(q.preds, values);
    NothingKept(START, q.preds, values, 0);
    LeftCounts(q.preds, values);
    ShapedLonger(START, q.preds, values, 0);
    assert !AllGone(q.preds, values);
  }

  /** Without, it is that of the pruned query, or a bare WHERE in place of none. */
  lemma WhereAlike(q: Query, values: Values)
    requires GoodQuery(q, values) && !LeavesText(q.preds, values)
    ensures var pruned := Solid(PrintWhere(PrunePreds(q.preds, values, 0)));
            if WhereLeft(q, values) then pruned == [] && WhereKept(q, values) == [Key(Where)]
            else WhereKept(q, values) == pruned
  {
    PrunedWhereText(q.preds, values);
    NothingKept(START, q.preds, values, 0);
    ShapedAlike(START, q.preds, values, 0);
    if AllGone(q.preds, values) { GoneIsPruned(q.preds, values, 0); }
  }

  /** For every well-formed query and all values, rewriting its text while it streams gives, up to white
      space, the text of the pruned query if and only if no debris is left; the arguments are always those
      of the kept tests in order, and nothing is reported missing. */
  lemma StreamingIsPruning(q: Query, values: Values)
    requires GoodQuery(q, values)
    ensures var r := Render(Print(q), values);
            && (Solid(r.out) == Solid(Print(Prune(q, values))) <==> !LeavesDebris(q, values))
            && r.args == BoundArgs(q.preds, values) && r.missing == {}
  {
    RenderedText(q, values);
    PrunedText(q, values);
    PrunedClausesText(q.pre, values);
    PrunedClausesText(q.post, values);
    if LeavesText(q.preds, values) { WhereLonger(q, values); } else { WhereAlike(q, values); }
  }

  /** And no white space is missing, so that the words of the text are those of the pruned query and of what stays
      behind, if and only if no words fuse. */
  lemma WordsStayApart(q: Query, values: Values)
    requires GoodQuery(q, values)
    ensures Separated(Render(Print(q), values).out) <==> !WordsFuse(q, values)
  {
    RenderedText(q, values);
  }
}
