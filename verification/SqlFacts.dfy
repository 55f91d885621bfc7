// What RenderSysParams keeps on every token stream, well-formed SQL or not: arguments stay aligned with
// their placeholders through all later edits, values never reach the text, missing parameters are reported.
module SqlFacts {
  import opened SqlRewrite

  /** The placeholders of a text, in order. */
  function Placeholders(s: Sql): Sql {
    if s == [] then [] else Placeholders(s[..|s| - 1]) + if s[|s| - 1].Arg? then [s[|s| - 1]] else []
  }

  lemma {:induction false} PlaceholdersAppend(a: Sql, b: Sql)
    ensures Placeholders(a + b) == Placeholders(a) + Placeholders(b)
  {
    if b == [] {
      assert a + b == a;
    } else {
      assert (a + b)[..|a + b| - 1] == a + b[..|b| - 1];
      PlaceholdersAppend(a, b[..|b| - 1]);
    }
  }

  /** $1, $2, ... once each in order, argument i being the value bound for the parameter $i stands for. */
  ghost predicate Aligned(st: Rendered, values: Values) {
    var ps := Placeholders(st.out);
    && |ps| == |st.args|
    && forall i :: 0 <= i < |ps| ==>
         ps[i].Arg? && ps[i].n == i + 1 && Provided(values, ps[i].name) && st.args[i] == Bind(values[ps[i].name])
  }

  // ----- edits never touch a placeholder -----

  /** t is s without some trailing tokens, none of them a placeholder. */
  ghost predicate Cut(t: Sql, s: Sql) {
    t <= s && Placeholders(t) == Placeholders(s)
  }

  lemma CutTrans(a: Sql, b: Sql, c: Sql)
    requires Cut(a, b) && Cut(b, c)
    ensures Cut(a, c)
  {
  }

  lemma {:induction false} StripIsCut(s: Sql)
    ensures Cut(StripSpaces(s), s)
    ensures StripSpaces(s) == [] || !StripSpaces(s)[|StripSpaces(s)| - 1].Space?
    ensures |StripSpaces(s)| < |s| ==> s[|StripSpaces(s)|].Space?
  {
    if s != [] && s[|s| - 1].Space? { StripIsCut(s[..|s| - 1]); }
  }

  lemma {:induction false} TakeRunIsCut(s: Sql)
    ensures TakeRun(s).Some? ==> Cut(TakeRun(s).value, s)
  {
    if s != [] { TakeRunIsCut(s[..|s| - 1]); }
  }

  lemma OperandIsCut(s: Sql)
    ensures DropOperand(StripSpaces(s)).Some? ==> Cut(DropOperand(StripSpaces(s)).value, s)
  {
    StripIsCut(s);
    TakeRunIsCut(StripSpaces(s));
  }

  lemma TestIsCut(s: Sql)
    ensures DropTest(s).Some? ==> Cut(DropTest(s).value, s)
  {
    if s != [] {
      var front := s[..|s| - 1];
      OperandIsCut(front);
      StripIsCut(front);
      var beforeNot := StripSpaces(front);
      if beforeNot != [] {
        OperandIsCut(beforeNot[..|beforeNot| - 1]);
      }
    }
  }

  lemma UnwrapIsCut(s: Sql, t: Token)
    requires !t.Arg?
    ensures Cut(Unwrap(s, t), s)
  {
    if EndsWith(s, t) { StripIsCut(s[..|s| - 1]); }
  }

  lemma HeadIsCut(s: Sql)
    ensures PredicateHead(s).Some? ==> Cut(PredicateHead(s).value, s)
  {
    var t := StripSpaces(s);
    var unparen := Unwrap(t, LParen);
    var unany := Unwrap(unparen, Key(Any));
    StripIsCut(s);
    UnwrapIsCut(t, LParen);
    UnwrapIsCut(unparen, Key(Any));
    TestIsCut(unany);
    CutTrans(unparen, t, s);
    CutTrans(unany, unparen, s);
  }

  lemma ConnectorIsCut(s: Sql)
    ensures DropConnector(s).Some? ==> Cut(StripSpaces(DropConnector(s).value), s)
  {
    StripIsCut(s);
    if DropConnector(s).Some? { StripIsCut(DropConnector(s).value); }
  }

  /** The text without its last predicate is a part of it, with or without one space. */
  lemma DropIsCut(s: Sql)
    ensures var r := DropOptionalValuePredicate(s); Cut(r, s) || exists t :: r == t + [Space] && Cut(t, s)
  {
    HeadIsCut(s);
    if PredicateHead(s).Some? {
      var head := PredicateHead(s).value;
      ConnectorIsCut(head);
      StripIsCut(head);
      if DropConnector(head).Some? {
        CutTrans(StripSpaces(DropConnector(head).value), head, s);
      } else {
        CutTrans(StripSpaces(head), head, s);
      }
    }
  }

  lemma DropKeepsPlaceholders(s: Sql)
    ensures Placeholders(DropOptionalValuePredicate(s)) == Placeholders(s)
  {
    DropIsCut(s);
    var r := DropOptionalValuePredicate(s);
    if !Cut(r, s) {
      var t :| r == t + [Space] && Cut(t, s);
      PlaceholdersOne(t, Space);
    }
  }

  lemma CommaKeepsPlaceholders(s: Sql)
    ensures Placeholders(StripTrailingComma(s)) == Placeholders(s)
  {
    StripIsCut(s);
  }

  // ----- alignment -----

  lemma PlaceholdersOne(s: Sql, t: Token)
    ensures Placeholders(s + [t]) == Placeholders(s) + if t.Arg? then [t] else []
  {
    assert (s + [t])[..|s|] == s;
  }

  lemma BindKeepsAligned(st: Rendered, name: string, values: Values)
    requires Aligned(st, values) && Provided(values, name)
    ensures Aligned(Rendered(st.out + [Arg(|st.args| + 1, name)], st.args + [Bind(values[name])], st.missing), values)
  {
    PlaceholdersOne(st.out, Arg(|st.args| + 1, name));
  }

  /** Placing a parameter either binds it or leaves the placeholders as they were. */
  lemma PlaceEdits(st: Rendered, required: bool, name: string, rest: Sql, values: Values)
    ensures var next := Place(st, required, name, rest, values).0;
            if InValuePosition(st.out) && Provided(values, name)
            then next == Rendered(st.out + [Arg(|st.args| + 1, name)], st.args + [Bind(values[name])], st.missing)
            else Placeholders(next.out) == Placeholders(st.out) && next.args == st.args
  {
    DropKeepsPlaceholders(st.out);
    CommaKeepsPlaceholders(st.out);
    StripIsCut(st.out);
    PlaceholdersOne(st.out, Quoted(name));
  }

  lemma PlaceKeepsAligned(st: Rendered, required: bool, name: string, rest: Sql, values: Values)
    requires Aligned(st, values)
    ensures Aligned(Place(st, required, name, rest, values).0, values)
  {
    PlaceEdits(st, required, name, rest, values);
    if InValuePosition(st.out) && Provided(values, name) {
      BindKeepsAligned(st, name, values);
    }
  }

  /** What Place leaves to be read is a tail of what was there. */
  lemma {:induction false} SkipIsTail(s: Sql, t: Token)
    ensures SkipLead(s, t).Some? ==> exists k :: 0 < k <= |s| && s[k - 1] == t && SkipLead(s, t).value == s[k..]
  {
    if s != [] && s[0] != t && s[0].Space? {
      SkipIsTail(s[1..], t);
      if SkipLead(s, t).Some? {
        var k :| 0 < k <= |s[1..]| && s[1..][k - 1] == t && SkipLead(s[1..], t).value == s[1..][k..];
        var m := k + 1;
        assert s[m - 1] == t && s[m..] == s[1..][k..];
      }
    } else if s != [] && s[0] == t {
      var k := 1;
      assert s[k - 1] == t && s[k..] == s[1..];
    }
  }

  lemma PlaceLeavesTail(st: Rendered, required: bool, name: string, rest: Sql, values: Values)
    ensures exists k :: 0 <= k <= |rest| && Place(st, required, name, rest, values).1 == rest[k..]
                        && (k == 0 || rest[k - 1] == Comma || rest[k - 1] == RParen)
  {
    SkipIsTail(rest, RParen);
    SkipIsTail(rest, Comma);
    assert rest[0..] == rest;
  }

  lemma {:induction false} FromKeepsAligned(st: Rendered, rest: Sql, values: Values)
    requires Aligned(st, values)
    requires forall i :: 0 <= i < |rest| ==> !rest[i].Arg?
    ensures Aligned(RenderFrom(st, rest, values), values)
    decreases |rest|
  {
    if rest != [] {
      if rest[0].Sys? {
        PlaceKeepsAligned(st, rest[0].required, rest[0].name, rest[1..], values);
        PlaceLeavesTail(st, rest[0].required, rest[0].name, rest[1..], values);
        var (next, after) := Place(st, rest[0].required, rest[0].name, rest[1..], values);
        FromKeepsAligned(next, after, values);
      } else {
        PlaceholdersAppend(st.out, [rest[0]]);
        assert [rest[0]][..0] == [];
        FromKeepsAligned(st.(out := st.out + [rest[0]]), rest[1..], values);
      }
    }
  }

  lemma PlaceholdersHead(s: Sql)
    requires s != []
    ensures Placeholders(s) == (if s[0].Arg? then [s[0]] else []) + Placeholders(s[1..])
  {
    PlaceholdersAppend([s[0]], s[1..]);
    assert [s[0]] + s[1..] == s && [s[0]][..0] == [];
  }

  lemma {:induction false} SpacesHoldNoPlaceholder(s: Sql, n: nat)
    requires n <= LeadSpaces(s)
    ensures Placeholders(s[n..]) == Placeholders(s)
  {
    if n > 0 {
      PlaceholdersHead(s);
      SpacesHoldNoPlaceholder(s[1..], n - 1);
      assert s[1..][n - 1..] == s[n..];
    } else {
      assert s[0..] == s;
    }
  }

  lemma SkipOneBetween(s: Sql, a: nat, b: nat)
    requires a < |s| && !s[a].Arg? && a + 1 + b <= |s|
    requires Placeholders(s[a..]) == Placeholders(s) && Placeholders(s[a + 1..][b..]) == Placeholders(s[a + 1..])
    ensures Placeholders(s[a + 1 + b..]) == Placeholders(s)
  {
    PlaceholdersHead(s[a..]);
    assert s[a..][1..] == s[a + 1..];
    assert s[a + 1..][b..] == s[a + 1 + b..];
  }

  lemma LooseHoldsNoPlaceholder(s: Sql)
    requires LooseConnector(s) > 0
    ensures Placeholders(s[LooseConnector(s)..]) == Placeholders(s)
  {
    var a := LeadSpaces(s);
    var b := LeadSpaces(s[a + 1..]);
    SpacesHoldNoPlaceholder(s, a);
    SpacesHoldNoPlaceholder(s[a + 1..], b);
    SkipOneBetween(s, a, b);
  }

  lemma PlaceholdersTwo(a: Token, b: Token, tail: Sql)
    ensures Placeholders([a, b] + tail) == (if a.Arg? then [a] else []) + ((if b.Arg? then [b] else []) + Placeholders(tail))
  {
    var r := [a, b] + tail;
    PlaceholdersHead(r);
    PlaceholdersHead(r[1..]);
    assert r[1..] == [b] + tail && r[1..][1..] == tail;
  }

  lemma {:induction false} CollapseKeepsPlaceholders(s: Sql)
    ensures Placeholders(CollapseWhereConn(s)) == Placeholders(s)
    decreases |s|
  {
    if s != [] {
      PlaceholdersHead(s);
      var n := LooseConnector(s[1..]);
      if s[0] == Key(Where) && n > 0 {
        LooseHoldsNoPlaceholder(s[1..]);
        assert s[1..][n..] == s[1 + n..];
        CollapseKeepsPlaceholders(s[1 + n..]);
        PlaceholdersTwo(s[0], Space, CollapseWhereConn(s[1 + n..]));
      } else {
        CollapseKeepsPlaceholders(s[1..]);
        PlaceholdersHead([s[0]] + CollapseWhereConn(s[1..]));
      }
    }
  }

  lemma {:induction false} TrailingKeepsPlaceholders(s: Sql)
    ensures Placeholders(DropTrailingConn(s)) == Placeholders(s)
    decreases |s|
  {
    if s != [] {
      PlaceholdersHead(s);
      var n := LooseConnector(s);
      if n > 0 && ClauseEnds(s[n..]) {
        LooseHoldsNoPlaceholder(s);
        TrailingKeepsPlaceholders(s[n..]);
        PlaceholdersHead([Space] + DropTrailingConn(s[n..]));
      } else {
        TrailingKeepsPlaceholders(s[1..]);
        PlaceholdersHead([s[0]] + DropTrailingConn(s[1..]));
      }
    }
  }

  lemma {:induction false} DanglingKeepsPlaceholders(s: Sql)
    ensures Placeholders(DropDanglingWhere(s)) == Placeholders(s)
    decreases |s|
  {
    if s != [] {
      PlaceholdersHead(s);
      var n := LeadSpaces(s[1..]);
      if s[0] == Key(Where) && n > 0 && ClauseEnds(s[1 + n..]) {
        SpacesHoldNoPlaceholder(s[1..], n);
        assert s[1..][n..] == s[1 + n..];
        DanglingKeepsPlaceholders(s[1 + n..]);
      } else {
        DanglingKeepsPlaceholders(s[1..]);
        PlaceholdersHead([s[0]] + DropDanglingWhere(s[1..]));
      }
    }
  }

  lemma {:induction false} CleanKeepsPlaceholders(s: Sql)
    ensures Placeholders(CleanFix(s)) == Placeholders(s)
    ensures Placeholders(Clean(s)) == Placeholders(s)
    decreases |s|
  {
    CollapseKeepsPlaceholders(s);
    TrailingKeepsPlaceholders(CollapseWhereConn(s));
    if CleanPass(s) != s { CleanKeepsPlaceholders(CleanPass(s)); }
    DanglingKeepsPlaceholders(CleanFix(s));
  }

  /** On any text without literal $n: the rendered text holds $1..$k once each in increasing order, k is the
      number of arguments, and argument i is the value of the parameter whose token $i replaced. */
  lemma ArgumentsAlign(sql: Sql, values: Values)
    requires forall i :: 0 <= i < |sql| ==> !sql[i].Arg?
    ensures Aligned(Render(sql, values), values)
  {
    FromKeepsAligned(EMPTY, sql, values);
    CleanKeepsPlaceholders(RenderFrom(EMPTY, sql, values).out);
  }

  // ----- values never enter the text -----

  /** Two sets of values that differ only in what the provided values are. */
  ghost predicate SamePresence(v1: Values, v2: Values) {
    v1.Keys == v2.Keys && forall name :: Provided(v1, name) <==> Provided(v2, name)
  }

  lemma {:induction false} FromIgnoresValues(st1: Rendered, st2: Rendered, rest: Sql, v1: Values, v2: Values)
    requires SamePresence(v1, v2)
    requires st1.out == st2.out && st1.missing == st2.missing && |st1.args| == |st2.args|
    ensures RenderFrom(st1, rest, v1).out == RenderFrom(st2, rest, v2).out
    ensures RenderFrom(st1, rest, v1).missing == RenderFrom(st2, rest, v2).missing
    decreases |rest|
  {
    if rest != [] {
      if rest[0].Sys? {
        var (n1, a1) := Place(st1, rest[0].required, rest[0].name, rest[1..], v1);
        var (n2, a2) := Place(st2, rest[0].required, rest[0].name, rest[1..], v2);
        FromIgnoresValues(n1, n2, a1, v1, v2);
      } else {
        FromIgnoresValues(st1.(out := st1.out + [rest[0]]), st2.(out := st2.out + [rest[0]]), rest[1..], v1, v2);
      }
    }
  }

  /** The rendered text depends on which values are present, never on what they are. */
  lemma ValuesNeverEnterText(sql: Sql, v1: Values, v2: Values)
    requires SamePresence(v1, v2)
    ensures Render(sql, v1).out == Render(sql, v2).out && Render(sql, v1).missing == Render(sql, v2).missing
  {
    FromIgnoresValues(EMPTY, EMPTY, sql, v1, v2);
  }

  // ----- missing required parameters -----

  /** A parameter as it is met: the token, and whether it stands in value position. */
  datatype Visit = Visit(param: Token, value: bool)

  function Visits(st: Rendered, rest: Sql, values: Values): seq<Visit>
    decreases |rest|
  {
    if rest == [] then []
    else if rest[0].Sys? then
      var (next, after) := Place(st, rest[0].required, rest[0].name, rest[1..], values);
      [Visit(rest[0], InValuePosition(st.out))] + Visits(next, after, values)
    else Visits(st.(out := st.out + [rest[0]]), rest[1..], values)
  }

  /** A required parameter that lacks what its position asks for: a value a usable one, a dimension its key. */
  predicate Unmet(v: Visit, values: Values) {
    v.param.Sys? && v.param.required && if v.value then !Provided(values, v.param.name) else v.param.name !in values
  }

  lemma {:induction false} FromMissing(st: Rendered, rest: Sql, values: Values, name: string)
    ensures name in RenderFrom(st, rest, values).missing <==>
              name in st.missing || exists v :: v in Visits(st, rest, values) && Unmet(v, values) && v.param.name == name
    decreases |rest|
  {
    if rest != [] {
      if rest[0].Sys? {
        var (next, after) := Place(st, rest[0].required, rest[0].name, rest[1..], values);
        var here, more := Visit(rest[0], InValuePosition(st.out)), Visits(next, after, values);
        FromMissing(next, after, values, name);
        assert name in next.missing <==> name in st.missing || (Unmet(here, values) && rest[0].name == name);
        forall v ensures v in [here] + more <==> v == here || v in more {}
      } else {
        FromMissing(st.(out := st.out + [rest[0]]), rest[1..], values, name);
      }
    }
  }

  function Params(s: Sql): Sql {
    if s == [] then [] else (if s[0].Sys? then [s[0]] else []) + Params(s[1..])
  }

  lemma {:induction false} SkipKeepsParams(s: Sql, c: Token)
    requires c.Comma? || c.RParen?
    ensures SkipLead(s, c).Some? ==> Params(SkipLead(s, c).value) == Params(s)
  {
    if s != [] && s[0] != c && s[0].Space? { SkipKeepsParams(s[1..], c); }
  }

  function ParamsOf(vs: seq<Visit>): Sql {
    if vs == [] then [] else [vs[0].param] + ParamsOf(vs[1..])
  }

  /** Every parameter of the text is met, once and in order: looking ahead never swallows one. */
  lemma {:induction false} AllAreMet(st: Rendered, rest: Sql, values: Values)
    ensures ParamsOf(Visits(st, rest, values)) == Params(rest)
    decreases |rest|
  {
    if rest != [] {
      if rest[0].Sys? {
        var (next, after) := Place(st, rest[0].required, rest[0].name, rest[1..], values);
        SkipKeepsParams(rest[1..], RParen);
        SkipKeepsParams(rest[1..], Comma);
        AllAreMet(next, after, values);
        assert Visits(st, rest, values)[1..] == Visits(next, after, values);
      } else {
        AllAreMet(st.(out := st.out + [rest[0]]), rest[1..], values);
        assert [] + Params(rest[1..]) == Params(rest[1..]);
      }
    }
  }

  /** A name is reported missing if and only if a required parameter of that name is met without a usable
      value in value position, or without its key in dimension position. */
  lemma MissingIsReported(sql: Sql, values: Values, name: string)
    ensures ParamsOf(Visits(EMPTY, sql, values)) == Params(sql)
    ensures name in Render(sql, values).missing <==>
              exists v :: v in Visits(EMPTY, sql, values) && Unmet(v, values) && v.param.name == name
  {
    AllAreMet(EMPTY, sql, values);
    FromMissing(EMPTY, sql, values, name);
  }
}
