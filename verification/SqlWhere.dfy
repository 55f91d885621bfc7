// The WHERE clause under the streaming rewrite: the shapes it goes through while its predicates are
// rendered one by one.
module SqlWhere {
  import opened SqlRewrite
  import opened SqlText
  import opened SqlTests
  import opened SqlGone
  import opened SqlPrune

  // ----- the shapes of a WHERE clause being rendered -----

  /** Behind WHERE stands the debris of absent predicates, and then what the others have left. */
  datatype Shape = Shape(first: bool, gap: Sql, body: Sql)

  /** No predicate has been rendered yet. */
  const START := Shape(true, [Space], [])

  function WhereText(s: Shape): Sql {
    [Key(Where)] + s.gap + s.body
  }

  /** What the query prints before its next predicate. */
  function Sep(s: Shape): Sql {
    if s.first then [] else AND
  }

  /** With the text of a predicate that is kept. */
  function Keep(s: Shape, k: Sql): Shape {
    if s.body == [] then Shape(false, s.gap + Sep(s), k) else Shape(false, s.gap, s.body + AND + k)
  }

  /** With what stays of a predicate that is not: its connector goes with it, and the white space behind a bare
      WHERE with the connector. */
  function Drop(s: Shape, r: Sql): Shape {
    if s.body == [] then Shape(false, if s.first then [Space] else [], r) else Shape(false, s.gap, s.body + r)
  }

  /** Debris before the first kept predicate, after one absent predicate or after several. */
  function Debris(several: bool): Sql {
    if several then AND else [Space] + AND
  }

  /** Text of predicates: it neither begins nor ends where a clean-up could begin. */
  ghost predicate GoodBody(b: Sql) {
    b != [] && !b[|b| - 1].Space? && Calm(b) && StartsTest(b)
  }

  ghost predicate GoodShape(s: Shape) {
    && (s.first ==> s == START)
    && (s.body == [] ==> s.gap in {[Space], []})
    && (s.body != [] ==> GoodBody(s.body))
    && (s.gap in {[Space], []} || (s.gap in {Debris(false), Debris(true)} && s.body != [] && !s.body[0].Space?))
  }

  lemma ShapeStrips(A: Sql, s: Shape)
    requires GoodShape(s) && !s.first
    ensures StripSpaces(A + WhereText(s)) == if s.body == [] then A + [Key(Where)] else A + WhereText(s)
  {
    var t := A + WhereText(s);
    if s.body == [] {
      StripNone(A + [Key(Where)]);
      if s.gap == [] { assert t == A + [Key(Where)]; } else { assert t == A + [Key(Where)] + [Space]; }
    } else {
      assert t[|t| - 1] == s.body[|s.body| - 1];
      StripNone(t);
    }
  }

  lemma LeadStarts(lead: Sql)
    requires GoodLead(lead)
    ensures lead != [] && !lead[0].Space?
  {
    TestStarts(lead);
  }

  lemma DropAfterWhere(A: Sql, lead: Sql)
    requires GoodLead(lead)
    ensures DropOptionalValuePredicate(A + [Key(Where), Space] + lead) == A + [Key(Where), Space]
  {
    LeadStarts(lead);
    assert A + [Key(Where), Space] == A + [Key(Where)] + [Space];
    FirstTrimExactly(A + [Key(Where)], lead);
  }

  lemma DropAfterConn(s: Sql, lead: Sql)
    requires GoodLead(lead)
    ensures DropOptionalValuePredicate(s + AND + lead) == StripSpaces(s)
  {
    LeadStarts(lead);
    assert s + AND == s + [Space] + [Key(And)] + [Space];
    NextTrimExactly(s, Key(And), lead);
  }

  /** What is left of the text before a predicate when its connector goes with it. */
  lemma StripsToDrop(A: Sql, s: Shape)
    requires GoodShape(s) && !s.first
    ensures StripSpaces(A + WhereText(s)) == A + WhereText(Drop(s, []))
  {
    ShapeStrips(A, s);
    assert s.body + [] == s.body;
    if s.body == [] { assert WhereText(Drop(s, [])) == [Key(Where)]; }
  }

  lemma StartText(A: Sql, lead: Sql)
    ensures A + WhereText(START) + (Sep(START) + lead) == A + [Key(Where), Space] + lead
    ensures A + WhereText(Drop(START, [])) == A + [Key(Where), Space]
  {
    assert WhereText(START) == [Key(Where), Space] && [] + lead == lead;
  }

  /** Dropping the next predicate: with it goes its connector, or the space before the first one stays. */
  lemma DropNext(A: Sql, s: Shape, lead: Sql)
    requires GoodShape(s) && GoodLead(lead)
    ensures DropOptionalValuePredicate(A + WhereText(s) + (Sep(s) + lead)) == A + WhereText(Drop(s, []))
  {
    if s.first {
      StartText(A, lead);
      DropAfterWhere(A, lead);
    } else {
      var t := A + WhereText(s);
      Assoc(t, AND, lead);
      DropAfterConn(t, lead);
      StripsToDrop(A, s);
    }
  }

  // ----- rendering predicates -----

  lemma LeadSplit(sep: Sql, lead: Sql, closing: Sql, param: Token, rest: Sql)
    ensures sep + PrintTest(lead, param, closing) + rest == (sep + lead) + ([param] + (closing + rest))
  {
  }

  lemma SepLead(s: Shape, lead: Sql, closing: Sql)
    requires NoSys(lead) && InValuePosition(lead) && Bounded(lead, closing)
    ensures NoSys(Sep(s) + lead) && InValuePosition(Sep(s) + lead) && Bounded(Sep(s) + lead, closing)
    ensures Remainder(Sep(s) + lead, closing) == Remainder(lead, closing)
  {
    LeadPosition(Sep(s), lead);
  }

  lemma DropShortens(A: Sql, s: Shape, lead: Sql)
    requires GoodShape(s) && lead != []
    ensures A + WhereText(Drop(s, [])) != A + WhereText(s) + (Sep(s) + lead)
  {
    assert |A + WhereText(Drop(s, []))| < |A + WhereText(s) + (Sep(s) + lead)|;
  }

  lemma DropWithText(A: Sql, s: Shape, r: Sql)
    ensures A + WhereText(Drop(s, [])) + r == A + WhereText(Drop(s, r))
  {
    assert [Key(Where)] + Drop(s, []).gap + Drop(s, []).body + r == WhereText(Drop(s, r));
  }

  /** An absent value: its test goes, and the text behind the value stays. */
  lemma RenderDropped(st: Rendered, A: Sql, s: Shape, p: Pred, rest: Sql, values: Values)
    requires GoodShape(s) && GoodPred(p, values) && Dropped(p, values) && st.out == A + WhereText(s)
    ensures RenderFrom(st, Sep(s) + PrintPred(p) + rest, values) ==
            RenderFrom(st.(out := A + WhereText(Drop(s, Left(p)))), rest, values)
  {
    var gone := A + WhereText(Drop(s, []));
    LeadSplit(Sep(s), p.lead, p.closing, Sys(false, p.name), rest);
    SepLead(s, p.lead, p.closing);
    DropNext(A, s, p.lead);
    LeadStarts(p.lead);
    DropShortens(A, s, p.lead);
    GoneLeaves(st, Sep(s) + p.lead, p.closing, rest, p.name, values);
    RemainderIsPlain(p.lead, p.closing);
    RenderToks(st.(out := gone), Left(p), rest, values);
    DropWithText(A, s, Left(p));
  }

  lemma RemainderIsPlain(lead: Sql, closing: Sql)
    requires NoSys(closing)
    ensures NoSys(Remainder(lead, closing))
  {
    if Remainder(lead, closing) != closing { SkipKeeps(closing, RParen); }
  }

  /** The text of a kept predicate, placeholder n + 1 in a test. */
  function KeptPred(p: Pred, n: nat): Sql {
    match p
    case Fixed(toks) => toks
    case Test(lead, closing, _, name) => PrintTest(lead, Arg(n + 1, name), closing)
  }

  lemma KeepText(s: Shape, k: Sql)
    requires s.first ==> s.body == []
    ensures WhereText(s) + (Sep(s) + k) == WhereText(Keep(s, k))
  {
    if s.body == [] {
      assert [Key(Where)] + s.gap + [] + (Sep(s) + k) == [Key(Where)] + (s.gap + Sep(s)) + k;
    } else {
      Assoc([Key(Where)] + s.gap, s.body, AND + k);
      Assoc(s.body, AND, k);
    }
  }

  lemma KeepWithText(A: Sql, s: Shape, k: Sql)
    requires s.first ==> s.body == []
    ensures A + WhereText(s) + (Sep(s) + k) == A + WhereText(Keep(s, k))
  {
    KeepText(s, k);
    Assoc(A, WhereText(s), Sep(s) + k);
  }

  lemma RenderFixed(st: Rendered, A: Sql, s: Shape, toks: Sql, rest: Sql, values: Values)
    requires GoodShape(s) && GoodText(toks) && st.out == A + WhereText(s)
    ensures RenderFrom(st, Sep(s) + toks + rest, values) ==
            RenderFrom(st.(out := A + WhereText(Keep(s, toks))), rest, values)
  {
    RenderToks(st, Sep(s) + toks, rest, values);
    KeepWithText(A, s, toks);
  }

  lemma PlaceBound(st: Rendered, required: bool, name: string, tail: Sql, values: Values)
    requires InValuePosition(st.out) && Provided(values, name)
    ensures RenderFrom(st, [Sys(required, name)] + tail, values) ==
            RenderFrom(Rendered(st.out + [Arg(|st.args| + 1, name)], st.args + [Bind(values[name])], st.missing), tail, values)
  {
    ConsTail(Sys(required, name), tail);
  }

  /** A provided value becomes the next placeholder, and the test is closed behind it. */
  lemma RenderArg(st: Rendered, closing: Sql, required: bool, name: string, rest: Sql, values: Values)
    requires InValuePosition(st.out) && Provided(values, name) && NoSys(closing)
    ensures RenderFrom(st, [Sys(required, name)] + (closing + rest), values) ==
            RenderFrom(Rendered(st.out + [Arg(|st.args| + 1, name)] + closing,
                                st.args + [Bind(values[name])], st.missing), rest, values)
  {
    PlaceBound(st, required, name, closing + rest, values);
    RenderToks(Rendered(st.out + [Arg(|st.args| + 1, name)], st.args + [Bind(values[name])], st.missing),
               closing, rest, values);
  }

  lemma GroupTail(h: Sql, sep: Sql, lead: Sql, arg: Token, closing: Sql)
    ensures h + (sep + lead) + [arg] + closing == h + (sep + PrintTest(lead, arg, closing))
  {
  }

  lemma RenderTest(st: Rendered, A: Sql, s: Shape, p: Pred, rest: Sql, values: Values)
    requires GoodShape(s) && p.Test? && GoodPred(p, values) && Provided(values, p.name) && st.out == A + WhereText(s)
    ensures RenderFrom(st, Sep(s) + PrintPred(p) + rest, values) ==
            RenderFrom(Rendered(A + WhereText(Keep(s, KeptPred(p, |st.args|))),
                                st.args + [Bind(values[p.name])], st.missing), rest, values)
  {
    var lead := Sep(s) + p.lead;
    LeadSplit(Sep(s), p.lead, p.closing, Sys(p.required, p.name), rest);
    SepLead(s, p.lead, p.closing);
    RenderToks(st, lead, [Sys(p.required, p.name)] + (p.closing + rest), values);
    LeadPosition(st.out, lead);
    RenderArg(st.(out := st.out + lead), p.closing, p.required, p.name, rest, values);
    GroupTail(st.out, Sep(s), p.lead, Arg(|st.args| + 1, p.name), p.closing);
    KeepWithText(A, s, KeptPred(p, |st.args|));
  }

  /** One predicate that is kept, with or without a parameter. */
  lemma RenderKept(st: Rendered, A: Sql, s: Shape, p: Pred, rest: Sql, values: Values)
    requires GoodShape(s) && GoodPred(p, values) && !Dropped(p, values) && st.out == A + WhereText(s)
    ensures RenderFrom(st, Sep(s) + PrintPred(p) + rest, values) ==
            RenderFrom(Rendered(A + WhereText(Keep(s, KeptPred(p, |st.args|))), st.args + Binds(p, values), st.missing),
                       rest, values)
  {
    if p.Fixed? {
      RenderFixed(st, A, s, p.toks, rest, values);
      assert st.args + [] == st.args;
    } else {
      RenderTest(st, A, s, p, rest, values);
    }
  }
}
