// The rewriter's elementary rules, with every keyword written out: what the clean-up takes away, where a
// parameter is a value, which values are usable, and how they are bound.
module SqlRules {
  import opened Wrappers
  import opened SqlRewrite
  import opened SqlText
  import opened SqlPrune
  import opened SqlStreaming
  import opened SqlWhere
  import opened SqlTheorem

  // ----- white space and a connector -----

  lemma {:induction false} LeadExactly(w: Sql, x: Sql)
    requires White(w) && (x == [] || !x[0].Space?)
    ensures LeadSpaces(w + x) == |w|
  {
    if w == [] {
      assert w + x == x;
    } else {
      assert (w + x)[1..] == w[1..] + x;
      LeadExactly(w[1..], x);
    }
  }

  /** White space, `and` or `or`, and white space, as they are looked for. */
  lemma LooseExactly(u: Sql, c: Token, w: Sql, x: Sql)
    requires White(u) && u != [] && White(w) && w != [] && c in {Key(And), Key(Or)} && (x == [] || !x[0].Space?)
    ensures var r := u + ([c] + (w + x));
            LooseConnector(r) == |u| + 1 + |w| && r[|u| + 1 + |w|..] == x
  {
    var r := u + ([c] + (w + x));
    LeadExactly(u, [c] + (w + x));
    assert r[|u|] == c && r[|u| + 1..] == w + x;
    LeadExactly(w, x);
  }

  lemma WhiteIsCalm(w: Sql, x: Sql)
    requires White(w) && Calm(x)
    ensures Calm(w + x) && Solid(w + x) == Solid(x) && Calm(w)
  {
    WhiteIsNotSolid(w);
    SolidAppend(w, x);
    assert [] + Solid(x) == Solid(x);
  }

  lemma NothingLoose(w: Sql, b: Sql)
    requires White(w) && (b == [] || (!b[0].Space? && b[0] !in {Key(And), Key(Or)}))
    ensures LooseConnector(w + b) == 0
  {
    LeadExactly(w, b);
    if b != [] { assert (w + b)[|w|] == b[0]; } else { assert w + b == w; }
  }

  // ----- the clean-up -----

  /** Exact: a WHERE with nothing but white space behind it goes together with that white space if the text ends
      there, or goes on with group, order, limit or having. Before any other word it stays. */
  lemma DanglingWhereExactly(a: Sql, w: Sql, b: Sql)
    requires Calm(a) && Calm(b) && White(w) && w != []
    requires b == [] || (!b[0].Space? && b[0] !in {Key(And), Key(Or)})
    ensures Clean(a + ([Key(Where)] + (w + b))) ==
            if b == [] || b[0] in {Key(Group), Key(Order), Key(Limit), Key(Having)} then a + b
            else a + ([Key(Where)] + (w + b))
  {
    WhiteIsCalm(w, b);
    CalmIsWhereless(a);
    CalmIsWhereless(w + b);
    NothingLoose(w, b);
    LeadExactly(w, b);
    assert (w + b)[|w|..] == b;
    CleanAtWhere(a, w + b, |w|);
  }

  lemma TailBehind(t: Token, r: Sql, n: nat)
    requires n <= |r|
    ensures ([t] + r)[1..] == r && ([t] + r)[1 + n..] == r[n..]
  {
  }

  lemma {:induction false} CollapseStep(s: Sql, b: Sql)
    requires s != [] && s[0] == Key(Where) && LooseConnector(s[1..]) > 0 && s[1 + LooseConnector(s[1..])..] == b
    requires CollapseWhereConn(b) == b
    ensures CollapseWhereConn(s) == [Key(Where), Space] + b
  {
  }

  lemma {:induction false} CollapsesHere(u: Sql, c: Token, w: Sql, b: Sql)
    requires Whereless(b) && White(u) && u != [] && White(w) && w != [] && c in {Key(And), Key(Or)}
    requires b == [] || !b[0].Space?
    ensures CollapseWhereConn([Key(Where)] + (u + ([c] + (w + b)))) == [Key(Where), Space] + b
  {
    var r, n := u + ([c] + (w + b)), |u| + 1 + |w|;
    LooseExactly(u, c, w, b);
    TailBehind(Key(Where), r, n);
    CollapseCalm(b);
    CollapseStep([Key(Where)] + r, b);
  }

  /** Exact: behind WHERE, a connector goes, and the WHERE goes as well if nothing of its clause is left. */
  lemma LeadingConnectorExactly(a: Sql, u: Sql, c: Token, w: Sql, b: Sql)
    requires Calm(a) && Calm(b) && White(u) && u != [] && White(w) && w != [] && c in {Key(And), Key(Or)}
    requires b == [] || (!b[0].Space? && b[0] !in {Key(And), Key(Or)})
    ensures Clean(a + ([Key(Where)] + (u + ([c] + (w + b))))) ==
            if b == [] || b[0] in {Key(Group), Key(Order), Key(Limit), Key(Having)} then a + b
            else a + ([Key(Where)] + ([Space] + b))
  {
    var r := u + ([c] + (w + b));
    var s := [Key(Where)] + r;
    var t := a + ([Key(Where)] + ([Space] + b));
    CalmIsWhereless(a);
    CalmIsWhereless(b);
    CollapsesHere(u, c, w, b);
    CollapseAfter(a, s);
    SpaceIsNoDebris(b);
    WhereWithSpace(a, b);
    assert CleanPass(a + s) == t;
    CleanedOnce(a + s);
    DanglingWhereExactly(a, [Space], b);
  }

  lemma WhereWithSpace(a: Sql, b: Sql)
    requires Calm(a) && Calm(b) && (b == [] || (!b[0].Space? && b[0] !in {Key(And), Key(Or)}))
    ensures var t := a + ([Key(Where)] + ([Space] + b)); CleanPass(t) == t && DropTrailingConn(t) == t
  {
    var r := [Space] + b;
    var t := a + ([Key(Where)] + r);
    WhiteIsCalm([Space], b);
    CalmIsWhereless(a);
    CalmIsWhereless(r);
    NothingLoose([Space], b);
    PassUntouched(a, r);
    SolidKey(a, r);
    ConnsHoldAround(Solid(a), Solid(r));
    TrailingCalm(t);
  }

  lemma HeldSecond(w: Sql, x: Sql, c: Token, rest: Sql)
    requires ConnsHold(w) && w != [] && w + x == [c] + Solid(rest) && c in {Key(And), Key(Or)}
    ensures !ClauseEnds(rest)
  {
    assert (w + x)[0] == w[0] == c;
    assert ConnHolds(w, 0);
    assert (w + x)[1] == w[1] == Solid(rest)[0];
    assert rest != [] && !rest[0].Space? ==> Solid(rest)[0] == rest[0];
  }

  lemma HeldInside(a: Sql, r: Sql)
    requires ConnsHold(Solid(a)) && a != [] && !a[|a| - 1].Space? && LooseConnector(a + r) > 0
    ensures !ClauseEnds((a + r)[LooseConnector(a + r)..])
  {
    var c := LooseSolid(a + r);
    SolidAppend(a, r);
    SolidEnd(a);
    HeldSecond(Solid(a), Solid(r), c, (a + r)[LooseConnector(a + r)..]);
  }

  lemma {:induction false} TrailingStep(s: Sql)
    requires s != [] && (LooseConnector(s) > 0 ==> !ClauseEnds(s[LooseConnector(s)..]))
    ensures DropTrailingConn(s) == [s[0]] + DropTrailingConn(s[1..])
  {
  }

  lemma TrailingBehind(t: Token, a: Sql, r: Sql)
    requires ConnsHold(Solid([t] + a)) && !([t] + a)[|a|].Space?
    ensures DropTrailingConn([t] + a + r) == [t] + DropTrailingConn(a + r)
  {
    var s := [t] + a + r;
    if LooseConnector(s) > 0 { HeldInside([t] + a, r); }
    TrailingStep(s);
    Assoc([t], a, r);
    ConsTail(t, a + r);
  }

  /** What is dropped at the end of a text is dropped there behind any other text. */
  lemma {:induction false} TrailingAfter(a: Sql, r: Sql)
    requires ConnsHold(Solid(a)) && (a == [] || !a[|a| - 1].Space?)
    ensures DropTrailingConn(a + r) == a + DropTrailingConn(r)
  {
    if a == [] {
      assert a + r == r && a + DropTrailingConn(r) == DropTrailingConn(r);
    } else {
      var t, more := a[0], a[1..];
      assert a == [t] + more;
      ConnsHoldTail(a);
      TrailingAfter(more, r);
      TrailingBehind(t, more, r);
      Assoc([t], more, DropTrailingConn(r));
    }
  }

  lemma CalmAround(a: Sql, u: Sql, c: Token, w: Sql, b: Sql)
    requires Calm(a) && Calm(b) && White(u) && White(w) && c in {Key(And), Key(Or)}
    requires b != [] && !b[0].Space? && b[0] !in {Key(Group), Key(Order), Key(Limit), Key(Having)}
    ensures Calm(a + (u + ([c] + (w + b))))
  {
    WhiteIsCalm(w, b);
    ConsTail(c, w + b);
    assert Solid(b)[0] == b[0];
    ConnBefore(c, Solid(b));
    WhiteIsCalm(u, [c] + (w + b));
    CalmConcat(a, u + ([c] + (w + b)));
  }

  lemma {:induction false} DropsHere(s: Sql, n: nat, b: Sql)
    requires s != [] && n == LooseConnector(s) > 0 && s[n..] == b && ClauseEnds(b)
    ensures DropTrailingConn(s) == [Space] + DropTrailingConn(b)
  {
  }

  lemma LooseGoes(u: Sql, c: Token, w: Sql, b: Sql)
    requires Calm(b) && White(u) && u != [] && White(w) && w != [] && c in {Key(And), Key(Or)}
    requires b == [] || b[0] in {Key(Group), Key(Order), Key(Limit), Key(Having)}
    ensures DropTrailingConn(u + ([c] + (w + b))) == [Space] + b
  {
    LooseExactly(u, c, w, b);
    DropsHere(u + ([c] + (w + b)), |u| + 1 + |w|, b);
    TrailingCalm(b);
  }

  lemma CleanedTo(s: Sql, t: Sql)
    requires CleanPass(s) == t && Calm(t)
    ensures Clean(s) == t
  {
    CalmPass(t);
    CleanedOnce(s);
    CleanCalm(t);
  }

  lemma TrailingConnectorGoes(a: Sql, u: Sql, c: Token, w: Sql, b: Sql)
    requires Calm(a) && Calm(b) && White(u) && u != [] && White(w) && w != [] && c in {Key(And), Key(Or)}
    requires a == [] || !a[|a| - 1].Space?
    requires b == [] || b[0] in {Key(Group), Key(Order), Key(Limit), Key(Having)}
    ensures Clean(a + (u + ([c] + (w + b)))) == a + ([Space] + b)
  {
    var r := u + ([c] + (w + b));
    LooseGoes(u, c, w, b);
    TrailingAfter(a, r);
    Wherefree(a, u, c, w, b);
    CollapseCalm(a + r);
    WhiteIsCalm([Space], b);
    CalmConcat(a, [Space] + b);
    CleanedTo(a + r, a + ([Space] + b));
  }

  /** Exact: outside the beginning of a WHERE, a connector between white space becomes one space if the text ends
      behind it, or goes on with group, order, limit or having. Before any other word it stays. */
  lemma TrailingConnectorExactly(a: Sql, u: Sql, c: Token, w: Sql, b: Sql)
    requires Calm(a) && Calm(b) && White(u) && u != [] && White(w) && w != [] && c in {Key(And), Key(Or)}
    requires (a == [] || !a[|a| - 1].Space?) && (b == [] || !b[0].Space?)
    ensures Clean(a + (u + ([c] + (w + b)))) ==
            if b == [] || b[0] in {Key(Group), Key(Order), Key(Limit), Key(Having)} then a + ([Space] + b)
            else a + (u + ([c] + (w + b)))
  {
    if b == [] || b[0] in {Key(Group), Key(Order), Key(Limit), Key(Having)} {
      TrailingConnectorGoes(a, u, c, w, b);
    } else {
      CalmAround(a, u, c, w, b);
      CleanCalm(a + (u + ([c] + (w + b))));
    }
  }

  function Chain(cs: seq<Token>): Sql {
    if cs == [] then [] else [cs[0], Space] + Chain(cs[1..])
  }

  ghost predicate Connectors(cs: seq<Token>) {
    forall i :: 0 <= i < |cs| ==> cs[i] in {Key(And), Key(Or)}
  }

  lemma {:induction false} ChainCalm(cs: seq<Token>, b: Sql)
    requires Connectors(cs) && Calm(b) && b != [] && !b[0].Space?
    requires b[0] !in {Key(Group), Key(Order), Key(Limit), Key(Having)}
    ensures Calm(Chain(cs) + b) && Whereless(Chain(cs) + b) && (Chain(cs) + b)[0] == (if cs == [] then b else cs)[0]
    decreases |cs|
  {
    if cs == [] {
      assert [] + b == b;
      CalmIsWhereless(b);
    } else {
      var rest := Chain(cs[1..]) + b;
      ChainCalm(cs[1..], b);
      assert Chain(cs) + b == [cs[0]] + ([Space] + rest);
      WhiteIsCalm([Space], rest);
      ConsTail(cs[0], [Space] + rest);
      assert Solid(rest)[0] == rest[0];
      ConnBefore(cs[0], Solid(rest));
      CalmIsWhereless(Chain(cs) + b);
    }
  }

  lemma ChainFirst(cs: seq<Token>, b: Sql)
    requires cs != []
    ensures Chain(cs) + b == [cs[0]] + ([Space] + (Chain(cs[1..]) + b))
  {
  }

  /** One pass takes one connector off the front. */
  lemma ChainPass(a: Sql, cs: seq<Token>, b: Sql)
    requires Calm(a) && Calm(b) && Connectors(cs) && cs != [] && b != [] && !b[0].Space?
    requires b[0] !in {Key(Group), Key(Order), Key(Limit), Key(Having)}
    ensures CleanPass(a + ([Key(Where)] + ([Space] + (Chain(cs) + b)))) ==
            a + ([Key(Where)] + ([Space] + (Chain(cs[1..]) + b)))
  {
    var rest := Chain(cs[1..]) + b;
    ChainCalm(cs[1..], b);
    ChainFirst(cs, b);
    CalmIsWhereless(a);
    CollapsesHere([Space], cs[0], [Space], rest);
    CollapseAfter(a, [Key(Where)] + ([Space] + (Chain(cs) + b)));
    SpaceIsNoDebris(rest);
    WhiteIsCalm([Space], rest);
    SolidKey(a, [Space] + rest);
    ConnsHoldAround(Solid(a), Solid([Space] + rest));
    TrailingCalm(a + ([Key(Where)] + ([Space] + rest)));
  }

  lemma {:induction false} ChainFix(a: Sql, cs: seq<Token>, b: Sql)
    requires Calm(a) && Calm(b) && Connectors(cs) && b != [] && !b[0].Space?
    requires b[0] !in {Key(Group), Key(Order), Key(Limit), Key(Having), Key(And), Key(Or)}
    ensures Clean(a + ([Key(Where)] + ([Space] + (Chain(cs) + b)))) == a + ([Key(Where)] + ([Space] + b))
    decreases |cs|
  {
    if cs == [] {
      assert [] + b == b;
      DanglingWhereExactly(a, [Space], b);
    } else {
      ChainPass(a, cs, b);
      ChainFix(a, cs[1..], b);
      PassFirst(a + ([Key(Where)] + ([Space] + (Chain(cs) + b))));
    }
  }

  lemma PassFirst(s: Sql)
    requires CleanPass(s) != s
    ensures Clean(s) == Clean(CleanPass(s))
  {
  }

  lemma CalmPass(s: Sql)
    requires Calm(s)
    ensures CleanPass(s) == s
  {
    CalmIsWhereless(s);
    CollapseCalm(s);
    TrailingCalm(s);
  }

  lemma Wherefree(a: Sql, u: Sql, c: Token, w: Sql, b: Sql)
    requires Calm(a) && Calm(b) && White(u) && White(w) && c in {Key(And), Key(Or)}
    ensures Whereless(a + (u + ([c] + (w + b))))
  {
    CalmIsWhereless(a);
    CalmIsWhereless(b);
  }

  /** Whole queries: a WHERE all of whose tests are absent is rendered before a clause if and only if that clause
      begins with none of the four words; without a clause behind it, if and only if there was more than one test. */
  lemma EmptiedWhereExactly(q: Query, values: Values)
    requires GoodQuery(q, values) && q.preds != [] && AllGone(q.preds, values)
    ensures var goes := if q.post == [] then |q.preds| == 1
                        else q.post[0].head != [] && q.post[0].head[0] in {Key(Group), Key(Order), Key(Limit), Key(Having)};
            Solid(Render(Print(q), values).out) ==
            KeptClauses(q.pre, values) + (if goes then [] else [Key(Where)]) + KeptClauses(q.post, values)
  {
    RenderedText(q, values);
    NothingKept(START, q.preds, values, 0);
    if q.post != [] { assert GoodClause(q.post[0], values); }
  }

  // ----- positions and values -----

  /** Exact: a parameter is a value behind a comparison, an open parenthesis, in, like, ilike or is. */
  lemma ValuePositionExactly(e: Sql)
    ensures InValuePosition(e) <==>
              Solid(e) != [] &&
              var last := Solid(e)[|Solid(e)| - 1];
              last.Op? || last.LParen? || last == Key(In) || last == Key(Like) || last == Key(ILike) || last == Key(Is)
  {
    SolidEnd(e);
  }

  /** Exact: unusable are a missing name, null, the empty string and the empty list. */
  lemma UsableExactly(values: Values, name: string)
    ensures Provided(values, name) <==>
              name in values && values[name] != Null && values[name] != Str("") && values[name] != Param.List([])
  {
  }

  /** Exact: a usable value of a parameter is bound as it is. */
  lemma ScalarExactly(v: Param)
    requires !v.List?
    ensures Bind(v) == ScalarArg(v)
  {
  }

  function Elements(items: seq<Option<string>>): seq<string> {
    Bind(Param.List(items)).items
  }

  lemma {:induction false} NonNullAppend(a: seq<Option<string>>, b: seq<Option<string>>)
    ensures NonNull(a + b) == NonNull(a) + NonNull(b)
  {
    if a == [] {
      assert a + b == b;
    } else {
      assert (a + b)[1..] == a[1..] + b;
      NonNullAppend(a[1..], b);
    }
  }

  lemma NonNullOne(x: Option<string>)
    ensures NonNull([x]) == if x.Some? then [x.value] else []
  {
    assert [x][1..] == [];
  }

  /** Exact: a list is bound as its elements that are not null, in order. */
  lemma ListExactly(a: seq<Option<string>>, x: Option<string>, b: seq<Option<string>>)
    ensures Elements([]) == []
    ensures Elements(a + [x] + b) == Elements(a) + (match x case None => [] case Some(text) => [text]) + Elements(b)
  {
    NonNullAppend(a + [x], b);
    NonNullAppend(a, [x]);
    NonNullOne(x);
  }

  /** A required parameter without a usable value leaves the text as it is, but for itself. */
  lemma RequiredStays(st: Rendered, name: string, rest: Sql, values: Values)
    requires if InValuePosition(st.out) then !Provided(values, name) else name !in values
    ensures RenderFrom(st, [Sys(true, name)] + rest, values) ==
            RenderFrom(st.(missing := st.missing + {name}), rest, values)
  {
    ConsTail(Sys(true, name), rest);
  }
}
