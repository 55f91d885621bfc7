// When removing tokens makes two words run together, on any token stream: exactly when a comma or a closing
// parenthesis behind an absent parameter is skipped and it alone stood between two words.
module SqlWords {
  import opened SqlRewrite
  import opened SqlText
  import opened SqlGone
  import opened SqlFacts
  import opened SqlStreaming
  import opened SqlPrune
  import opened SqlWhere

  // ----- single edits -----

  lemma ConsSeparated(t: Token, r: Sql)
    requires Separated(r) && (r == [] || !(Wordy(t) && Wordy(r[0])))
    ensures Separated([t] + r)
  {
    SeparatedConcat([t], r);
  }

  lemma SeparatedTail(s: Sql, k: nat)
    requires k <= |s| && Separated(s)
    ensures Separated(s[k..])
  {
    assert s == s[..k] + s[k..];
    SeparatedConcat(s[..k], s[k..]);
  }

  lemma CutApart(t: Sql, s: Sql)
    requires Separated(s) && Cut(t, s)
    ensures Separated(t) && Separated(t + [Space])
  {
    assert s == t + s[|t|..];
    SeparatedConcat(t, s[|t|..]);
    SeparatedConcat(t, [Space]);
  }

  lemma DropKeepsApart(s: Sql)
    requires Separated(s)
    ensures Separated(DropOptionalValuePredicate(s))
  {
    DropIsCut(s);
    var r := DropOptionalValuePredicate(s);
    if Cut(r, s) {
      CutApart(r, s);
    } else {
      var t :| r == t + [Space] && Cut(t, s);
      CutApart(t, s);
    }
  }

  // ----- where words fuse -----

  /** What follows may not stand behind a word: a parameter is no word until it is placed. */
  predicate StartsWordy(s: Sql) {
    s != [] && Wordy(s[0]) && !s[0].Sys?
  }

  predicate Seam(out: Sql, rest: Sql) {
    !(EndsWordy(out) && StartsWordy(rest))
  }

  /** Placing this parameter puts a word next to a word: a comma or a parenthesis behind it is skipped, the
      text before then ends in a word and the text behind begins with one; or a placeholder is written
      behind a word, which an earlier skip has brought there. */
  predicate StepFuses(st: Rendered, sys: Token, rest: Sql, values: Values)
    requires sys.Sys?
  {
    var (next, after) := Place(st, sys.required, sys.name, rest, values);
    || (|after| < |rest| && EndsWordy(next.out) && StartsWordy(after))
    || (InValuePosition(st.out) && Provided(values, sys.name) && EndsWordy(st.out))
  }

  /** Some parameter fuses words. */
  predicate Fuses(st: Rendered, rest: Sql, values: Values)
    decreases |rest|
  {
    if rest == [] then false
    else if rest[0].Sys? then
      var (next, after) := Place(st, rest[0].required, rest[0].name, rest[1..], values);
      StepFuses(st, rest[0], rest[1..], values) || Fuses(next, after, values)
    else Fuses(st.(out := st.out + [rest[0]]), rest[1..], values)
  }

  /** Every text on the way from here has its words apart. */
  ghost predicate StaysApart(st: Rendered, rest: Sql, values: Values)
    decreases |rest|
  {
    && Separated(st.out)
    && if rest == [] then true
       else if rest[0].Sys? then
         var (next, after) := Place(st, rest[0].required, rest[0].name, rest[1..], values);
         StaysApart(next, after, values)
       else StaysApart(st.(out := st.out + [rest[0]]), rest[1..], values)
  }

  lemma ArgApart(st: Rendered, name: string)
    requires Separated(st.out)
    ensures Separated(st.out + [Arg(|st.args| + 1, name)]) <==> !EndsWordy(st.out)
    ensures Separated(st.out + [Quoted(name)])
  {
    SeparatedConcat(st.out, [Arg(|st.args| + 1, name)]);
    SeparatedConcat(st.out, [Quoted(name)]);
  }

  /** The text after one parameter. */
  lemma StepApart(st: Rendered, sys: Token, rest: Sql, values: Values)
    requires sys.Sys? && Separated(st.out)
    ensures Separated(Place(st, sys.required, sys.name, rest, values).0.out) <==>
              !(InValuePosition(st.out) && Provided(values, sys.name) && EndsWordy(st.out))
  {
    ArgApart(st, sys.name);
    DropKeepsApart(st.out);
    EndsApart(st.out);
  }

  /** What is read next after a parameter, and the seam to it. */
  lemma StepSeam(st: Rendered, sys: Token, rest: Sql, values: Values)
    requires sys.Sys? && Separated([sys] + rest)
    ensures var (next, after) := Place(st, sys.required, sys.name, rest, values);
            && Separated(after)
            && (Seam(next.out, after) <==> !(|after| < |rest| && EndsWordy(next.out) && StartsWordy(after)))
  {
    SeparatedConcat([sys], rest);
    PlaceLeavesTail(st, sys.required, sys.name, rest, values);
    var after := Place(st, sys.required, sys.name, rest, values).1;
    var k :| 0 <= k <= |rest| && after == rest[k..] && (k == 0 || rest[k - 1] == Comma || rest[k - 1] == RParen);
    SeparatedTail(rest, k);
  }

  lemma BrokenSeam(st: Rendered, rest: Sql, values: Values)
    requires !Seam(st.out, rest)
    ensures !StaysApart(st, rest, values)
  {
    SeparatedConcat(st.out, [rest[0]]);
  }

  /** Exact, from any state whose seam holds: the words of every text on the way are apart if and only if no
      parameter fuses words. */
  lemma {:induction false} ApartFrom(st: Rendered, rest: Sql, values: Values)
    requires Separated(st.out) && Separated(rest) && Seam(st.out, rest)
    ensures StaysApart(st, rest, values) <==> !Fuses(st, rest, values)
    decreases |rest|
  {
    if rest != [] {
      assert rest == [rest[0]] + rest[1..];
      if rest[0].Sys? {
        var (next, after) := Place(st, rest[0].required, rest[0].name, rest[1..], values);
        StepApart(st, rest[0], rest[1..], values);
        StepSeam(st, rest[0], rest[1..], values);
        if !Seam(next.out, after) {
          BrokenSeam(next, after, values);
        } else if Separated(next.out) {
          ApartFrom(next, after, values);
        }
      } else {
        SeparatedConcat([rest[0]], rest[1..]);
        SeparatedConcat(st.out, [rest[0]]);
        ApartFrom(st.(out := st.out + [rest[0]]), rest[1..], values);
      }
    }
  }

  lemma {:induction false} StaysToTheEnd(st: Rendered, rest: Sql, values: Values)
    requires StaysApart(st, rest, values)
    ensures Separated(RenderFrom(st, rest, values).out)
    decreases |rest|
  {
    if rest != [] {
      if rest[0].Sys? {
        var (next, after) := Place(st, rest[0].required, rest[0].name, rest[1..], values);
        StaysToTheEnd(next, after, values);
      } else {
        StaysToTheEnd(st.(out := st.out + [rest[0]]), rest[1..], values);
      }
    }
  }

  // ----- fused words stay fused until their predicate is dropped -----

  /** No parameter drops a predicate. */
  predicate DropsNothing(st: Rendered, rest: Sql, values: Values)
    decreases |rest|
  {
    if rest == [] then true
    else if rest[0].Sys? then
      var (next, after) := Place(st, rest[0].required, rest[0].name, rest[1..], values);
      (InValuePosition(st.out) ==> rest[0].required || Provided(values, rest[0].name)) && DropsNothing(next, after, values)
    else DropsNothing(st.(out := st.out + [rest[0]]), rest[1..], values)
  }

  lemma {:induction false} FusedStays(st: Rendered, rest: Sql, values: Values)
    requires !Separated(st.out) && DropsNothing(st, rest, values)
    ensures !Separated(RenderFrom(st, rest, values).out)
    decreases |rest|
  {
    if rest != [] {
      if rest[0].Sys? {
        var (next, after) := Place(st, rest[0].required, rest[0].name, rest[1..], values);
        SeparatedConcat(st.out, [Arg(|st.args| + 1, rest[0].name)]);
        SeparatedConcat(st.out, [Quoted(rest[0].name)]);
        EndsApart(st.out);
        FusedStays(next, after, values);
      } else {
        SeparatedConcat(st.out, [rest[0]]);
        FusedStays(st.(out := st.out + [rest[0]]), rest[1..], values);
      }
    }
  }

  lemma {:induction false} FusedAtTheEnd(st: Rendered, rest: Sql, values: Values)
    requires !StaysApart(st, rest, values) && DropsNothing(st, rest, values)
    ensures !Separated(RenderFrom(st, rest, values).out)
    decreases |rest|
  {
    if !Separated(st.out) {
      FusedStays(st, rest, values);
    } else if rest[0].Sys? {
      var (next, after) := Place(st, rest[0].required, rest[0].name, rest[1..], values);
      FusedAtTheEnd(next, after, values);
    } else {
      FusedAtTheEnd(st.(out := st.out + [rest[0]]), rest[1..], values);
    }
  }

  // ----- the clean-up -----

  lemma CollapseKeepsHead(s: Sql)
    ensures s == [] ==> CollapseWhereConn(s) == []
    ensures s != [] ==> CollapseWhereConn(s) != [] && CollapseWhereConn(s)[0] == s[0]
  {
  }

  /** A token in front of a collapsed rest. */
  lemma HeadApart(s: Sql, r: Sql)
    requires s != [] && Separated(s) && Separated(r)
    requires |s| > 1 ==> r != [] && r[0] == s[1]
    requires |s| == 1 ==> r == []
    ensures Separated([s[0]] + r)
  {
    assert Apart(s, 0);
    ConsSeparated(s[0], r);
  }

  lemma {:induction false} CollapseKeepsApart(s: Sql)
    requires Separated(s)
    ensures Separated(CollapseWhereConn(s))
    decreases |s|
  {
    if s != [] {
      var n := LooseConnector(s[1..]);
      if s[0] == Key(Where) && n > 0 {
        SeparatedTail(s, 1 + n);
        CollapseKeepsApart(s[1 + n..]);
        TwoApart(s[0], CollapseWhereConn(s[1 + n..]));
      } else {
        SeparatedTail(s, 1);
        CollapseKeepsApart(s[1..]);
        CollapseKeepsHead(s[1..]);
        HeadApart(s, CollapseWhereConn(s[1..]));
      }
    }
  }

  lemma TwoApart(t: Token, tail: Sql)
    requires Separated(tail)
    ensures Separated([t, Space] + tail)
  {
    SeparatedConcat([t, Space], tail);
  }

  lemma {:induction false} TrailingKeepsApart(s: Sql)
    requires Separated(s)
    ensures Separated(DropTrailingConn(s))
    ensures s != [] ==> DropTrailingConn(s) != [] && DropTrailingConn(s)[0] in {s[0], Space}
    decreases |s|
  {
    if s != [] {
      var n := LooseConnector(s);
      if n > 0 && ClauseEnds(s[n..]) {
        SeparatedTail(s, n);
        TrailingKeepsApart(s[n..]);
        ConsSeparated(Space, DropTrailingConn(s[n..]));
      } else {
        SeparatedTail(s, 1);
        assert Apart(s, 0);
        TrailingKeepsApart(s[1..]);
        ConsSeparated(s[0], DropTrailingConn(s[1..]));
      }
    }
  }

  lemma {:induction false} DanglingKeepsApart(s: Sql)
    requires Separated(s)
    ensures Separated(DropDanglingWhere(s))
    ensures DropDanglingWhere(s) != [] && Wordy(DropDanglingWhere(s)[0]) ==> s != [] && Wordy(s[0])
    decreases |s|
  {
    if s != [] {
      var n := LeadSpaces(s[1..]);
      if s[0] == Key(Where) && n > 0 && ClauseEnds(s[1 + n..]) {
        SeparatedTail(s, 1 + n);
        DanglingKeepsApart(s[1 + n..]);
      } else {
        SeparatedTail(s, 1);
        assert Apart(s, 0);
        DanglingKeepsApart(s[1..]);
        ConsSeparated(s[0], DropDanglingWhere(s[1..]));
      }
    }
  }

  lemma {:induction false} CleanKeepsApart(s: Sql)
    requires Separated(s)
    ensures Separated(CleanFix(s)) && Separated(Clean(s))
    decreases |s|
  {
    CollapseKeepsApart(s);
    TrailingKeepsApart(CollapseWhereConn(s));
    if CleanPass(s) != s { CleanKeepsApart(CleanPass(s)); }
    DanglingKeepsApart(CleanFix(s));
  }

  // ----- whole texts -----

  /** On any text split into its tokens: while it is rendered two words come to stand side by side if and only
      if some parameter fuses them; and when none does, the clean-up does not either. */
  lemma WordsFuseExactly(sql: Sql, values: Values)
    requires Separated(sql)
    ensures StaysApart(EMPTY, sql, values) <==> !Fuses(EMPTY, sql, values)
    ensures !Fuses(EMPTY, sql, values) ==> Separated(Render(sql, values).out)
    ensures DropsNothing(EMPTY, sql, values) ==>
              (Separated(RenderFrom(EMPTY, sql, values).out) <==> !Fuses(EMPTY, sql, values))
  {
    ApartFrom(EMPTY, sql, values);
    if StaysApart(EMPTY, sql, values) {
      StaysToTheEnd(EMPTY, sql, values);
      CleanKeepsApart(RenderFrom(EMPTY, sql, values).out);
    } else if DropsNothing(EMPTY, sql, values) {
      FusedAtTheEnd(EMPTY, sql, values);
    }
  }

  predicate Clear(s: Sql, i: nat) {
    i + 1 < |s| && (s[i].Comma? || s[i].RParen?) ==> !Wordy(s[i + 1])
  }

  /** Words are apart, and no word follows a comma or a closing parenthesis directly. */
  ghost predicate Spaced(s: Sql) {
    Separated(s) && forall i: nat :: Clear(s, i)
  }

  lemma SpacedTail(sys: Token, rest: Sql, k: nat)
    requires sys.Sys? && Spaced([sys] + rest) && k <= |rest|
    requires k == 0 || rest[k - 1] == Comma || rest[k - 1] == RParen
    ensures Spaced(rest[k..]) && (k < |rest| ==> !Wordy(rest[k]))
  {
    var all := [sys] + rest;
    SeparatedTail(all, k + 1);
    assert rest[k..] == all[k + 1..];
    forall i: nat ensures Clear(rest[k..], i) { assert Clear(all, k + 1 + i); }
    assert Apart(all, k) && Clear(all, k);
  }

  /** A habit that excludes every fusion: white space after each comma and closing parenthesis that a word
      follows. It is not needed where no absent parameter is skipped. */
  lemma {:induction false} SpacedNeverFuses(st: Rendered, rest: Sql, values: Values)
    requires Spaced(rest) && Joins(st.out, rest)
    ensures !Fuses(st, rest, values)
    decreases |rest|
  {
    if rest != [] {
      assert rest == [rest[0]] + rest[1..];
      if rest[0].Sys? {
        var (next, after) := Place(st, rest[0].required, rest[0].name, rest[1..], values);
        PlaceLeavesTail(st, rest[0].required, rest[0].name, rest[1..], values);
        var k :| 0 <= k <= |rest[1..]| && after == rest[1..][k..]
                 && (k == 0 || rest[1..][k - 1] == Comma || rest[1..][k - 1] == RParen);
        SpacedTail(rest[0], rest[1..], k);
        SpacedNeverFuses(next, after, values);
      } else {
        SeparatedTail(rest, 1);
        forall i: nat ensures Clear(rest[1..], i) { assert Clear(rest, 1 + i); }
        assert Apart(rest, 0);
        SpacedNeverFuses(st.(out := st.out + [rest[0]]), rest[1..], values);
      }
    }
  }

  // ----- texts that fuse -----

  predicate PlainWord(t: Token) {
    Wordy(t) && !t.Sys? && !IsConn(t) && t != Key(Where)
  }

  lemma RenderWord(st: Rendered, t: Token, values: Values)
    requires !t.Sys?
    ensures RenderFrom(st, [t], values) == st.(out := st.out + [t])
  {
    assert [t][1..] == [];
  }

  lemma FusedIsFinal(h: Sql, t: Token)
    requires Calm(h) && EndsWordy(h) && PlainWord(t)
    ensures Clean(h + [t]) == h + [t] && !Separated(h + [t])
  {
    SolidAppend(h, [t]);
    SolidOne(t);
    PlainIsCalm([t]);
    ConnsHoldConcat(Solid(h), Solid([t]));
    CleanCalm(h + [t]);
    SeparatedConcat(h, [t]);
  }

  lemma SkipsComma(h: Sql, name: string, t: Token, values: Values)
    requires h != [] && !h[|h| - 1].Space? && !ValueContext(h[|h| - 1]) && name !in values && !t.Sys?
    ensures RenderFrom(EMPTY.(out := h + [Space]), [Sys(false, name)] + ([Comma] + [t]), values) == EMPTY.(out := h + [t])
  {
    StripNone(h);
    PlaceAbsent(EMPTY.(out := h + [Space]), false, name, [Comma] + [t], values);
    ConsTail(Comma, [t]);
    RenderWord(EMPTY.(out := h), t, values);
  }

  lemma SkipsParenthesis(g: Sql, lead: Sql, name: string, t: Token, values: Values)
    requires EndsWordy(g) && GoodLead(lead) && EndsWith(StripSpaces(lead), LParen) && !Provided(values, name) && !t.Sys?
    ensures RenderFrom(EMPTY.(out := g + AND + lead), [Sys(false, name)] + ([RParen] + [t]), values) == EMPTY.(out := g + [t])
  {
    DropAfterConn(g, lead);
    LeadPosition(g + AND, lead);
    StripNone(g);
    var st, tail := EMPTY.(out := g + AND + lead), [RParen] + [t];
    assert st.out + [] == st.out && [] + ([Sys(false, name)] + tail) == [Sys(false, name)] + tail;
    PlaceGone(st, [], tail, name, values);
    ConsTail(RParen, [t]);
    RenderWord(EMPTY.(out := g), t, values);
  }

  /** A parameter behind text that does not end in a word, and one more token behind a comma or parenthesis. */
  lemma SkipApart(e: Sql, sys: Token, c: Token, t: Token)
    requires Separated(e) && !EndsWordy(e) && !Wordy(c)
    ensures Separated(e + ([sys] + ([c] + [t])))
  {
    SeparatedConcat([c], [t]);
    SeparatedConcat([sys], [c] + [t]);
    SeparatedConcat(e, [sys] + ([c] + [t]));
  }

  lemma RunFrom(e: Sql, rest: Sql, out: Sql, values: Values)
    requires NoSys(e) && RenderFrom(EMPTY.(out := e), rest, values) == EMPTY.(out := out)
    ensures Render(e + rest, values).out == Clean(out)
  {
    RenderToks(EMPTY, e, rest, values);
    assert [] + e == e;
  }

  /** `select {sys.opt.GEO},total` with GEO absent is rendered as `selecttotal`; so is every phrase that ends
      in a word, an absent dimension, and a word directly behind its comma. */
  lemma CommaWithoutSpaceFuses(h: Sql, name: string, t: Token, values: Values)
    requires NoSys(h) && Calm(h) && Separated(h) && EndsWordy(h) && !ValueContext(h[|h| - 1]) && PlainWord(t)
    requires name !in values
    ensures var sql := h + [Space] + ([Sys(false, name)] + ([Comma] + [t]));
            Separated(sql) && Render(sql, values).out == h + [t] && !Separated(Render(sql, values).out)
  {
    SkipsComma(h, name, t, values);
    RunFrom(h + [Space], [Sys(false, name)] + ([Comma] + [t]), h + [t], values);
    FusedIsFinal(h, t);
    SeparatedConcat(h, [Space]);
    SkipApart(h + [Space], Sys(false, name), Comma, t);
  }

  /** `y and x in ({sys.opt.p})group` with p absent is rendered as `ygroup`; so is every text that ends in a
      word, a connector, a test with a parenthesis, and a word directly behind that parenthesis. */
  lemma ParenthesisWithoutSpaceFuses(g: Sql, lead: Sql, name: string, t: Token, values: Values)
    requires NoSys(g) && Calm(g) && Separated(g) && EndsWordy(g) && PlainWord(t)
    requires GoodLead(lead) && EndsWith(StripSpaces(lead), LParen) && !Provided(values, name)
    ensures var sql := g + AND + lead + ([Sys(false, name)] + ([RParen] + [t]));
            Separated(sql) && Render(sql, values).out == g + [t] && !Separated(Render(sql, values).out)
  {
    SkipsParenthesis(g, lead, name, t, values);
    RunFrom(g + AND + lead, [Sys(false, name)] + ([RParen] + [t]), g + [t], values);
    FusedIsFinal(g, t);
    LeadStarts(lead);
    LeadApart(g, lead);
    SkipApart(g + AND + lead, Sys(false, name), RParen, t);
  }

  lemma LeadApart(g: Sql, lead: Sql)
    requires Separated(g) && Separated(lead) && lead != [] && !EndsWordy(lead)
    ensures Separated(g + AND + lead) && !EndsWordy(g + AND + lead)
  {
    SeparatedConcat(g, AND);
    SeparatedConcat(g + AND, lead);
  }
}
