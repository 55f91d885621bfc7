// Inputs on which the rewrite leaves something behind, one for each kind of debris.
module SqlExamples {
  import opened SqlRewrite
  import opened SqlText
  import opened SqlTests
  import opened SqlGone
  import opened SqlPrune
  import opened SqlWhere
  import opened SqlStreaming
  import opened SqlTheorem

  /** `x op ` */
  function Comparing(x: string, op: string): Sql {
    [Word(x), Space, Op(op), Space]
  }

  /** `x = any(` */
  function AnyOf(x: string): Sql {
    [Word(x), Space, Op("="), Space, Key(Any), LParen]
  }

  lemma PlainTest(x: string, op: string, o: Sql)
    requires IsOpening(o)
    ensures IsTest([Word(x), Space, Op(op)] + o)
  {
    var n, w, c := [Word(x)], [Space], [Op(op)];
    assert IsName(n) && White(w) && IsOperator(c);
    assert [Word(x), Space, Op(op)] == n + w + c;
    assert IsComparison([Word(x), Space, Op(op)]);
  }

  /** Text that begins with a name and holds no keyword but any. */
  ghost predicate Plain(s: Sql) {
    s != [] && s[0].Word? && NoSys(s) && !EndsWordy(s) && forall i :: 0 <= i < |s| ==> !s[i].Key? || s[i] == Key(Any)
  }

  lemma PlainLead(s: Sql)
    requires Plain(s) && Separated(s) && IsTest(s) && InValuePosition(s)
    ensures GoodLead(s)
  {
    PlainIsCalm(s);
  }

  lemma ComparingReads(x: string, op: string)
    ensures var s := Comparing(x, op); Plain(s) && Separated(s) && StripSpaces(s) == [Word(x), Space, Op(op)]
  {
    assert Comparing(x, op) == [Word(x), Space, Op(op)] + [Space];
    StripNone([Word(x), Space, Op(op)]);
  }

  lemma ComparingIsTest(x: string, op: string)
    ensures IsTest(Comparing(x, op))
  {
    assert Comparing(x, op) == [Word(x), Space, Op(op)] + [Space];
    WhiteIsNotSolid([Space]);
    PlainTest(x, op, [Space]);
  }

  lemma ComparingIsLead(x: string, op: string)
    ensures GoodLead(Comparing(x, op)) && !EndsWith(StripSpaces(Comparing(x, op)), LParen)
  {
    ComparingReads(x, op);
    ComparingIsTest(x, op);
    PlainLead(Comparing(x, op));
  }

  lemma AnyOfReads(x: string)
    ensures var s := AnyOf(x); Plain(s) && Separated(s) && StripSpaces(s) == s && EndsWith(s, LParen)
  {
  }

  lemma AnyOfIsTest(x: string)
    ensures IsTest(AnyOf(x))
  {
    var o := [Space] + [Key(Any), LParen];
    assert AnyOf(x) == [Word(x), Space, Op("=")] + o;
    SolidAppend([Space], [Key(Any), LParen]);
    SolidOne(Space);
    SolidPair(Key(Any), LParen);
    PlainTest(x, "=", o);
  }

  lemma AnyOfIsLead(x: string)
    ensures GoodLead(AnyOf(x)) && EndsWith(StripSpaces(AnyOf(x)), LParen)
  {
    AnyOfReads(x);
    AnyOfIsTest(x);
    PlainLead(AnyOf(x));
  }

  /** A query of predicates and nothing else. */
  function Only(preds: seq<Pred>): Query {
    Query([], preds, [])
  }

  lemma OnlyIsGood(preds: seq<Pred>, values: Values)
    requires forall i :: 0 <= i < |preds| ==> GoodPred(preds[i], values)
    ensures GoodQuery(Only(preds), values)
  {
  }

  /** Of such a query WHERE and what stays behind it is rendered. */
  lemma OnlyText(preds: seq<Pred>, values: Values)
    requires forall i :: 0 <= i < |preds| ==> GoodPred(preds[i], values)
    ensures Solid(Render(Print(Only(preds)), values).out) == WhereKept(Only(preds), values)
  {
    OnlyIsGood(preds, values);
    RenderedText(Only(preds), values);
    NilRight(WhereKept(Only(preds), values));
  }

  lemma OneShape(p: Pred, values: Values)
    requires Dropped(p, values) && Left(p) != []
    ensures WhereShape(Only([p]), values).body == Left(p)
    ensures LeavesDebris(Only([p]), values)
  {
    assert [p][1..] == [];
    assert Shaped(START, [p], values, 0) == Shaped(Drop(START, Left(p)), [], values, 0);
    assert [p][0] == p;
  }

  /** A WHERE with one absent test. */
  lemma OneAbsentTest(p: Pred, values: Values)
    requires GoodPred(p, values) && Dropped(p, values) && Left(p) != []
    ensures Solid(Render(Print(Only([p])), values).out) == [Key(Where)] + Solid(Left(p))
    ensures LeavesDebris(Only([p]), values)
  {
    OnlyText([p], values);
    OneShape(p, values);
  }

  lemma OneText(p: Pred)
    ensures Print(Only([p])) == [Space, Key(Where), Space] + PrintPred(p)
  {
    assert [p][1..] == [];
  }

  /** Text behind a value that is no closing parenthesis. */
  lemma ClosingStays(lead: Sql, first: Token, more: Sql)
    requires var c := [first] + more;
             && NoSys(c) && Separated(c) && !c[|c| - 1].Space?
             && forall i :: 0 <= i < |c| ==> !c[i].Key?
    requires !first.Space? && first != RParen && !Wordy(first)
    ensures GoodClosing(lead, [first] + more) && Remainder(lead, [first] + more) == [first] + more
  {
    PlainIsCalm([first] + more);
    ConsTail(first, more);
  }

  function Cast(d: string, name: string): Pred {
    Test(Comparing(d, ">="), [Punct("::")] + [Word("date")], false, name)
  }

  lemma CastIsGood(d: string, name: string, values: Values)
    ensures GoodPred(Cast(d, name), values) && Left(Cast(d, name)) == [Punct("::")] + [Word("date")]
  {
    ComparingIsLead(d, ">=");
    ClosingStays(Comparing(d, ">="), Punct("::"), [Word("date")]);
  }

  /** `where d >= {sys.opt.p}::date` without a value is rendered as `where ::date`. */
  lemma CastStays(d: string, name: string, values: Values)
    requires !Provided(values, name)
    ensures Print(Only([Cast(d, name)])) ==
            [Space, Key(Where), Space] + (Comparing(d, ">=") + [Sys(false, name)] + ([Punct("::")] + [Word("date")]))
    ensures Solid(Render(Print(Only([Cast(d, name)])), values).out) == [Key(Where)] + [Punct("::"), Word("date")]
  {
    CastIsGood(d, name, values);
    OneText(Cast(d, name));
    OneAbsentTest(Cast(d, name), values);
    SolidPair(Punct("::"), Word("date"));
  }

  lemma SolidPair(a: Token, b: Token)
    requires !a.Space? && !b.Space?
    ensures Solid([a, b]) == [a, b]
  {
    assert [a, b] == [a] + [b];
    SolidAppend([a], [b]);
    SolidOne(a);
    SolidOne(b);
  }

  function ArrayCast(x: string, name: string): Pred {
    Test(AnyOf(x), [Punct("::")] + [Word("text"), Punct("[]"), RParen], false, name)
  }

  lemma ArrayCastIsGood(x: string, name: string, values: Values)
    ensures GoodPred(ArrayCast(x, name), values) && Left(ArrayCast(x, name)) == ArrayCast(x, name).closing
  {
    AnyOfIsLead(x);
    ClosingStays(AnyOf(x), Punct("::"), [Word("text"), Punct("[]"), RParen]);
  }

  /** `where x = any({sys.opt.p}::text[])` without a value: the parenthesis stays as well, because it is not the
      next thing behind the value. */
  lemma ArrayCastStays(x: string, name: string, values: Values)
    requires !Provided(values, name)
    ensures Solid(Render(Print(Only([ArrayCast(x, name)])), values).out) ==
            [Key(Where)] + Solid(ArrayCast(x, name).closing)
    ensures LeavesDebris(Only([ArrayCast(x, name)]), values)
  {
    ArrayCastIsGood(x, name, values);
    OneAbsentTest(ArrayCast(x, name), values);
  }

  function Equals(x: string, name: string): Pred {
    Test(Comparing(x, "="), [], false, name)
  }

  lemma EqualsIsGood(x: string, name: string, values: Values)
    ensures GoodPred(Equals(x, name), values) && Left(Equals(x, name)) == []
  {
    ComparingIsLead(x, "=");
    PlainIsCalm([]);
  }

  /** Two absent tests, or more, at the end of the text leave a bare WHERE. */
  lemma AbsentTestsLeaveWhere(preds: seq<Pred>, values: Values)
    requires (forall i :: 0 <= i < |preds| ==> GoodPred(preds[i], values)) && AllGone(preds, values) && |preds| > 1
    ensures LeavesDebris(Only(preds), values) && Solid(Render(Print(Only(preds)), values).out) == [Key(Where)]
  {
    NothingKept(START, preds, values, 0);
    OnlyText(preds, values);
  }

  /** So `where x = {sys.opt.a} and y = {sys.opt.b}` without the values is rendered as `where`. */
  lemma TwoAbsentTests(x: string, y: string, a: string, b: string, values: Values)
    requires !Provided(values, a) && !Provided(values, b)
    ensures Solid(Render(Print(Only([Equals(x, a), Equals(y, b)])), values).out) == [Key(Where)]
  {
    EqualsIsGood(x, a, values);
    EqualsIsGood(y, b, values);
    AbsentTestsLeaveWhere([Equals(x, a), Equals(y, b)], values);
  }

  lemma ClauseText(c: Clause, values: Values)
    requires GoodClause(c, values)
    ensures Solid(Render(Print(Query([c], [], [])), values).out) == KeptClause(c, values)
  {
    var q := Query([c], [], []);
    assert [c][1..] == [];
    assert KeptClauses([c], values) == KeptClause(c, values) + KeptClauses([], values);
    NilRight(KeptClause(c, values));
    assert WhereKept(q, values) == [];
    RenderedText(q, values);
  }

  lemma AbsentEntry(h: Sql, item: Item, values: Values)
    requires item.Dim? && item.name !in values
    ensures Emptied(Clause(h, [item]), values) && KeptClause(Clause(h, [item]), values) == Solid(h)
  {
    assert [item][1..] == [];
    KeptOne(item, values);
    NilRight(Solid(h));
  }

  /** A list whose only entry is an absent dimension leaves its keywords, such as `group by`. */
  lemma EmptiedListStays(h: Sql, item: Item, values: Values)
    requires GoodHead(h) && item.Dim? && !item.required && item.name !in values
    ensures LeavesDebris(Query([Clause(h, [item])], [], []), values)
    ensures Solid(Render(Print(Query([Clause(h, [item])], [], [])), values).out) == Solid(h)
  {
    var c := Clause(h, [item]);
    AbsentEntry(h, item, values);
    assert [c][0] == c;
    ClauseText(c, values);
  }

  // ----- two parameters in one list -----

  function TwoIn(lead: Sql, a: string, b: string): Sql {
    lead + ([Sys(false, a)] + ([Comma, Space] + ([Sys(false, b)] + [RParen])))
  }

  /** `x in ({sys.opt.a}, {sys.opt.b})` with both values: the second parameter stands behind a comma, is taken for
      a column, and its value is not bound. */
  lemma SecondIsAColumn(st: Rendered, lead: Sql, a: string, b: string, values: Values)
    requires GoodLead(lead) && Provided(values, a) && b in values
    ensures RenderFrom(st, TwoIn(lead, a, b), values) ==
            Rendered(st.out + lead + [Arg(|st.args| + 1, a)] + [Comma, Space] + [Quoted(b)] + [RParen],
                     st.args + [Bind(values[a])], st.missing)
  {
    LeadPosition(st.out, lead);
    RenderToks(st, lead, [Sys(false, a)] + ([Comma, Space] + ([Sys(false, b)] + [RParen])), values);
    RenderArg(st.(out := st.out + lead), [Comma, Space], false, a, [Sys(false, b)] + [RParen], values);
    var out := st.out + lead + [Arg(|st.args| + 1, a)] + [Comma, Space];
    var st1 := Rendered(out, st.args + [Bind(values[a])], st.missing);
    BehindComma(st.out + lead + [Arg(|st.args| + 1, a)]);
    PlacePresent(st1, false, b, [RParen], values);
    RenderToks(st1.(out := out + [Quoted(b)]), [RParen], [], values);
    assert [RParen] + [] == [RParen];
  }

  lemma BehindComma(s: Sql)
    ensures !InValuePosition(s + [Comma, Space]) && StripTrailingComma(s + [Comma, Space]) == s
  {
    assert s + [Comma, Space] == (s + [Comma]) + [Space];
    StripNone(s + [Comma]);
    StripComma(s + [Comma, Space], s);
  }

  lemma CommaGoesToo(st: Rendered, b: string, values: Values)
    requires b !in values
    ensures RenderFrom(st, [Comma, Space] + ([Sys(false, b)] + [RParen]), values) == st.(out := st.out + [RParen])
  {
    RenderToks(st, [Comma, Space], [Sys(false, b)] + [RParen], values);
    BehindComma(st.out);
    PlaceAbsent(st.(out := st.out + [Comma, Space]), false, b, [RParen], values);
    NilRight([RParen]);
    RenderToks(st, [RParen], [], values);
  }

  /** With neither value: the test goes, the comma goes with the second parameter, and the parenthesis stays. */
  lemma ParenthesisStays(st: Rendered, A: Sql, lead: Sql, a: string, b: string, values: Values)
    requires GoodLead(lead) && !Provided(values, a) && b !in values
    requires st.out == A + [Key(Where), Space]
    ensures RenderFrom(st, TwoIn(lead, a, b), values) == st.(out := st.out + [RParen])
  {
    DropAfterWhere(A, lead);
    LeadStarts(lead);
    LeadPosition(st.out, lead);
    PlaceGone(st, lead, [Comma, Space] + ([Sys(false, b)] + [RParen]), a, values);
    CommaGoesToo(st, b, values);
  }
}
