// Exactly when an absent value takes its whole predicate with it: the text before the value, and the text
// behind it, on the rewriter itself.
module SqlGone {
  import opened Wrappers
  import opened SqlRewrite
  import opened SqlText
  import opened SqlTests

  // ----- the text behind the value -----

  /** What stays of the text behind an absent value whose test has gone: all of it, but for the closing
      parenthesis of the one that was opened. */
  function Remainder(lead: Sql, closing: Sql): Sql {
    if EndsWith(StripSpaces(lead), LParen) && SkipLead(closing, RParen).Some? then SkipLead(closing, RParen).value
    else closing
  }

  /** Nothing stands behind the value, or white space and the parenthesis that was opened for it. */
  ghost predicate EndsAtValue(lead: Sql, closing: Sql) {
    if EndsWith(StripSpaces(lead), LParen)
    then closing != [] && closing[|closing| - 1] == RParen && White(closing[..|closing| - 1])
    else closing == []
  }

  lemma {:induction false} SkipInFront(w: Sql, t: Token, rest: Sql)
    requires White(w) && !t.Space?
    ensures SkipLead(w + [t] + rest, t) == Some(rest)
  {
    if w == [] {
      assert [] + [t] + rest == [t] + rest;
      ConsTail(t, rest);
    } else {
      assert (w + [t] + rest)[1..] == w[1..] + [t] + rest;
      SkipInFront(w[1..], t, rest);
    }
  }

  /** A token is skipped only together with the white space before it. */
  lemma {:induction false} SkipSplits(s: Sql, t: Token) returns (w: Sql)
    requires SkipLead(s, t).Some? && !t.Space?
    ensures White(w) && s == w + [t] + SkipLead(s, t).value
  {
    if s[0] == t {
      w := [];
      assert s == [] + [t] + s[1..];
    } else {
      w := SkipSplits(s[1..], t);
      w := [Space] + w;
      assert s == [Space] + s[1..];
    }
  }

  /** Whether a token is skipped is decided by the first solid token, as far as there is one. */
  lemma {:induction false} SkipInside(s: Sql, rest: Sql, t: Token)
    requires !t.Space? && Solid(s) != []
    ensures SkipLead(s, t).None? ==> SkipLead(s + rest, t).None?
    ensures SkipLead(s, t).Some? ==> SkipLead(s + rest, t) == Some(SkipLead(s, t).value + rest)
  {
    assert (s + rest)[1..] == s[1..] + rest;
    if s[0] != t && s[0].Space? { SkipInside(s[1..], rest, t); }
  }

  /** The remainder is empty exactly when the predicate ends at its value. */
  lemma RemainderExactly(lead: Sql, closing: Sql)
    requires EndsWith(StripSpaces(lead), LParen) ==> closing != []
    ensures Remainder(lead, closing) == [] <==> EndsAtValue(lead, closing)
  {
    if EndsWith(StripSpaces(lead), LParen) {
      if EndsAtValue(lead, closing) {
        var w := closing[..|closing| - 1];
        assert closing == w + [RParen] + [];
        SkipInFront(w, RParen, []);
      } else if SkipLead(closing, RParen) == Some([]) {
        var w := SkipSplits(closing, RParen);
        assert false;
      }
    }
  }

  // ----- the step -----

  /** What the parameter of an absent value does, wherever it stands. */
  lemma PlaceGone(st: Rendered, lead: Sql, tail: Sql, name: string, values: Values)
    requires NoSys(lead) && InValuePosition(st.out + lead) && !Provided(values, name)
    ensures var e := st.out + lead;
            var trimmed := DropOptionalValuePredicate(e);
            RenderFrom(st, lead + ([Sys(false, name)] + tail), values) ==
            RenderFrom(st.(out := trimmed),
                       if trimmed != e && EndsWith(StripSpaces(e), LParen) && SkipLead(tail, RParen).Some?
                       then SkipLead(tail, RParen).value else tail, values)
  {
    RenderToks(st, lead, [Sys(false, name)] + tail, values);
    ConsTail(Sys(false, name), tail);
  }

  /** A test is in value position whatever stands before it. */
  lemma LeadPosition(h: Sql, lead: Sql)
    requires InValuePosition(lead)
    ensures InValuePosition(h + lead)
    ensures EndsWith(StripSpaces(h + lead), LParen) <==> EndsWith(StripSpaces(lead), LParen)
  {
    SolidEnd(lead);
    StripAfter(h, lead);
  }

  /** With a parenthesis opened, something of the predicate stands behind the value. */
  ghost predicate Bounded(lead: Sql, closing: Sql) {
    EndsWith(StripSpaces(lead), LParen) ==> Solid(closing) != []
  }

  /** A test whose text before the value goes leaves the remainder, whatever comes behind it. */
  lemma GoneLeaves(st: Rendered, lead: Sql, closing: Sql, rest: Sql, name: string, values: Values)
    requires NoSys(lead) && InValuePosition(lead) && !Provided(values, name) && Bounded(lead, closing)
    requires DropOptionalValuePredicate(st.out + lead) != st.out + lead
    ensures RenderFrom(st, lead + ([Sys(false, name)] + (closing + rest)), values) ==
            RenderFrom(st.(out := DropOptionalValuePredicate(st.out + lead)), Remainder(lead, closing) + rest, values)
  {
    LeadPosition(st.out, lead);
    PlaceGone(st, lead, closing + rest, name, values);
    if EndsWith(StripSpaces(lead), LParen) { SkipInside(closing, rest, RParen); }
  }

  lemma SkipKeeps(s: Sql, t: Token)
    requires SkipLead(s, t).Some? && !t.Space?
    ensures NoSys(s) ==> NoSys(SkipLead(s, t).value)
    ensures NoWhere(s) ==> NoWhere(SkipLead(s, t).value)
  {
    var w := SkipSplits(s, t);
    var r := SkipLead(s, t).value;
    assert forall i :: 0 <= i < |r| ==> r[i] == s[|w| + 1 + i];
  }

  lemma RenderRest(st: Rendered, r: Sql, values: Values)
    requires NoSys(r)
    ensures RenderFrom(st, r, values).out == st.out + r
  {
    assert r + [] == r;
    RenderToks(st, r, [], values);
  }

  /** What is left of the text behind the value when nothing follows it. */
  lemma LeftBehind(st: Rendered, lead: Sql, closing: Sql, name: string, values: Values) returns (r: Sql)
    requires NoSys(lead) && NoSys(closing) && InValuePosition(lead) && !Provided(values, name)
    ensures NoWhere(closing) ==> NoWhere(r)
    ensures RenderFrom(st, lead + ([Sys(false, name)] + closing), values).out ==
            DropOptionalValuePredicate(st.out + lead) + r
    ensures DropOptionalValuePredicate(st.out + lead) != st.out + lead ==> r == Remainder(lead, closing)
  {
    var e := st.out + lead;
    var trimmed := DropOptionalValuePredicate(e);
    LeadPosition(st.out, lead);
    PlaceGone(st, lead, closing, name, values);
    if trimmed != e && EndsWith(StripSpaces(lead), LParen) && SkipLead(closing, RParen).Some? {
      r := SkipLead(closing, RParen).value;
      SkipKeeps(closing, RParen);
    } else {
      r := closing;
    }
    RenderRest(st.(out := trimmed), r, values);
  }

  // ----- a predicate that vanishes -----

  /** Rendering this text leaves `gone` of the text before it and nothing of itself, whatever comes behind. */
  ghost predicate Vanishes(st: Rendered, text: Sql, gone: Sql, values: Values) {
    forall rest :: RenderFrom(st, text + rest, values) == RenderFrom(st.(out := gone), rest, values)
  }

  /** The text of a predicate before its value: it begins with no connector, and is in value position. */
  ghost predicate IsLead(lead: Sql) {
    lead != [] && NoSys(lead) && InValuePosition(lead) && !lead[0].Space? && !IsConn(lead[0])
  }

  /** A test that does not begin with a bare `not in` or `not like`, whose operand would be the word before it. */
  ghost predicate IsWholeTest(lead: Sql) {
    IsTest(lead) && !Negation(lead)
  }

  lemma NothingBehind(lead: Sql, param: Token, closing: Sql)
    ensures lead + [param] + closing + [] == lead + ([param] + closing)
  {
  }

  lemma GroupText(lead: Sql, param: Token, closing: Sql, rest: Sql)
    ensures lead + [param] + closing + rest == lead + ([param] + (closing + rest))
  {
  }

  /** With nothing between the value and a parenthesis, the next one that comes is taken for it. */
  lemma OpenTakesNext(st: Rendered, lead: Sql, gone: Sql, name: string, values: Values)
    requires NoSys(lead) && InValuePosition(lead) && !Provided(values, name) && EndsWith(StripSpaces(lead), LParen)
    requires DropOptionalValuePredicate(st.out + lead) == gone && gone != st.out + lead
    ensures !Vanishes(st, lead + [Sys(false, name)] + [], gone, values)
  {
    var rest := [RParen];
    GroupText(lead, Sys(false, name), [], rest);
    assert [] + rest == rest;
    LeadPosition(st.out, lead);
    PlaceGone(st, lead, rest, name, values);
    assert rest == [RParen] + [];
    ConsTail(RParen, []);
    assert RenderFrom(st, lead + [Sys(false, name)] + [] + rest, values).out == gone;
    RenderToks(st.(out := gone), rest, [], values);
    assert rest + [] == rest;
    assert RenderFrom(st.(out := gone), rest, values).out == gone + [RParen];
  }

  /** When the text before the value goes, the predicate goes exactly if it ends at its value. */
  lemma TestGoesExactly(st: Rendered, lead: Sql, closing: Sql, gone: Sql, name: string, values: Values)
    requires NoSys(lead) && InValuePosition(lead) && NoSys(closing) && !Provided(values, name)
    requires DropOptionalValuePredicate(st.out + lead) == gone && gone != st.out + lead
    ensures Vanishes(st, lead + [Sys(false, name)] + closing, gone, values) <==> EndsAtValue(lead, closing)
  {
    var text := lead + [Sys(false, name)] + closing;
    if EndsWith(StripSpaces(lead), LParen) && closing == [] {
      OpenTakesNext(st, lead, gone, name, values);
    } else if EndsAtValue(lead, closing) {
      RemainderExactly(lead, closing);
      if closing != [] { SolidMember(closing, RParen); }
      forall rest ensures RenderFrom(st, text + rest, values) == RenderFrom(st.(out := gone), rest, values) {
        GroupText(lead, Sys(false, name), closing, rest);
        GoneLeaves(st, lead, closing, rest, name, values);
        assert [] + rest == rest;
      }
    } else {
      RemainderExactly(lead, closing);
      var r := LeftBehind(st, lead, closing, name, values);
      NothingBehind(lead, Sys(false, name), closing);
      assert RenderFrom(st.(out := gone), [], values).out == gone != gone + r;
      assert RenderFrom(st, text + [], values) != RenderFrom(st.(out := gone), [], values);
    }
  }

  /** Of a search that stops behind the first token of the lead, more than that token is kept. */
  lemma KeepsFirst(e: Sql, n: nat)
    requires n < |e| && !e[n].Space? && !IsConn(e[n])
    requires PredicateHead(e).Some? ==> PredicateHead(e).value <= e && |PredicateHead(e).value| > n
    ensures |DropOptionalValuePredicate(e)| > n
  {
    if PredicateHead(e).Some? {
      var head := PredicateHead(e).value;
      StripsKeep(head, n);
      if DropConnector(head).Some? { StripsKeep(DropConnector(head).value, n); }
    }
  }

  lemma StripsKeep(s: Sql, n: nat)
    requires n < |s| && !s[n].Space?
    ensures |StripSpaces(s)| > n && StripSpaces(s)[n] == s[n]
  {
    var w := StripParts(s);
    assert forall i :: |StripSpaces(s)| <= i < |s| ==> s[i] == w[i - |StripSpaces(s)|];
  }

  /** A bare `not in` or `not like` is the operator of the word before it. */
  lemma NegationReachesBack(t: Token, lead: Sql)
    requires IsTest(lead) && Negation(lead) && WordLike(t)
    ensures IsTest([t] + [Space] + lead)
  {
    var n, w, op, o := TestParts(lead);
    NegationParts(n, w, op, o);
    var not_op := n + w + op;
    assert not_op[1..|not_op| - 1] == w;
    assert IsName([t]) && White([Space]) && IsOperator(not_op);
    assert IsComparison([t] + [Space] + not_op);
    assert [t] + [Space] + lead == ([t] + [Space] + not_op) + o;
  }

  lemma NegationParts(n: Sql, w: Sql, op: Sql, o: Sql)
    requires IsName(n) && White(w) && IsOperator(op) && IsOpening(o) && Negation(n + w + op + o)
    ensures n == [Key(Not)] && w != [] && op == [op[0]] && op[0] in {Key(In), Key(Like)}
  {
    var p := n + w + op + o;
    assert n == [Key(Not)];
    assert w != [];
    SolidAppend(n + w + op, o);
    SolidAppend(n + w, op);
    SolidAppend(n, w);
    SolidOne(Key(Not));
    WhiteIsNotSolid(w);
    assert Solid(p) == [Key(Not)] + Solid(op) + Solid(o);
    assert Solid(op)[0] == op[0];
  }

  lemma LeadAt(g: Sql, t: Token, lead: Sql)
    ensures var e := g + [t] + [Space] + lead;
            e[|g| + 2..] == lead && e[|g| + 1] == Space && e[|g|..] == [t] + [Space] + lead
  {
  }

  lemma StopsAt(e: Sql, n: nat, t: Token, lead: Sql)
    requires n + 2 <= |e| && e[n + 2..] == lead && e[n + 1] == Space && e[n..] == [t] + [Space] + lead
    requires WordLike(t) && !IsWholeTest(lead) && PredicateHead(e).Some?
    ensures var head := PredicateHead(e).value;
            head <= e && IsTest(e[|head|..]) && (|head| <= n || |head| > n + 2)
  {
    var k := |PredicateHead(e).value|;
    HeadIsTest(e);
    TestStarts(e[k..]);
    assert k < |e| && e[k..][0] == e[k];
    if IsTest(lead) {
      NegationReachesBack(t, lead);
      TestIsFound(e, n);
    }
  }

  /** Where the search can stop when the lead is no whole test. */
  lemma StopsElsewhere(g: Sql, t: Token, lead: Sql)
    requires WordLike(t) && !IsWholeTest(lead) && PredicateHead(g + [t] + [Space] + lead).Some?
    ensures var e := g + [t] + [Space] + lead;
            var head := PredicateHead(e).value;
            head <= e && IsTest(e[|head|..]) && (|head| <= |g| || |head| > |g| + 2)
  {
    LeadAt(g, t, lead);
    StopsAt(g + [t] + [Space] + lead, |g|, t, lead);
  }

  /** Behind WHERE, a lead that is no test is not removed on its own: more of it stays, or WHERE goes too. */
  lemma FirstKeepsOrLosesWhere(x: Sql, lead: Sql)
    requires IsLead(lead) && !IsWholeTest(lead)
    ensures var h := x + [Key(Where)] + [Space];
            var r := DropOptionalValuePredicate(h + lead);
            |r| > |h| || (|r| <= |x|) || (|r| == |x| + 1 && r[|x|].Space?)
  {
    var h := x + [Key(Where)] + [Space];
    var e := h + lead;
    assert e[|h|] == lead[0];
    if PredicateHead(e).None? || |PredicateHead(e).value| > |h| {
      if PredicateHead(e).Some? { StopsElsewhere(x, Key(Where), lead); }
      KeepsFirst(e, |h|);
    } else {
      StopsElsewhere(x, Key(Where), lead);
      var head := PredicateHead(e).value;
      var w := StripParts(head);
      if DropConnector(head).Some? { var v := StripParts(DropConnector(head).value); }
    }
  }

  /** Exact, behind WHERE: rendering a predicate whose value is absent leaves nothing of it, whatever comes behind
      it, if and only if the text before the value is a whole test and the predicate ends at its value. */
  lemma FirstGoesExactly(st: Rendered, x: Sql, lead: Sql, closing: Sql, name: string, values: Values)
    requires IsLead(lead) && NoSys(closing) && NoWhere(closing) && !Provided(values, name)
    requires st.out == x + [Key(Where)] + [Space]
    ensures Vanishes(st, lead + [Sys(false, name)] + closing, st.out, values) <==>
              IsWholeTest(lead) && EndsAtValue(lead, closing)
  {
    var text := lead + [Sys(false, name)] + closing;
    if IsWholeTest(lead) {
      FirstTrimExactly(x + [Key(Where)], lead);
      TestGoesExactly(st, lead, closing, st.out, name, values);
    } else {
      FirstKeepsOrLosesWhere(x, lead);
      var r := LeftBehind(st, lead, closing, name, values);
      NothingBehind(lead, Sys(false, name), closing);
      CannotRejoin(x, DropOptionalValuePredicate(st.out + lead), r);
      NothingLeft(st, text, st.out, values);
    }
  }

  /** Text without WHERE behind what is kept does not make up for it. */
  lemma CannotRejoin(x: Sql, kept: Sql, r: Sql)
    requires var n := |x| + 2; |kept| > n || |kept| <= |x| || (|kept| == |x| + 1 && kept[|x|].Space?)
    requires NoWhere(r)
    ensures kept + r != x + [Key(Where)] + [Space]
  {
    assert (x + [Key(Where)] + [Space])[|x|] == Key(Where);
    if |kept| <= |x| < |kept + r| { assert (kept + r)[|x|] == r[|x| - |kept|]; }
  }

  lemma NothingLeft(st: Rendered, text: Sql, gone: Sql, values: Values)
    ensures Vanishes(st, text, gone, values) ==> RenderFrom(st, text + [], values).out == gone
  {
    if Vanishes(st, text, gone, values) {
      assert RenderFrom(st, text + [], values) == RenderFrom(st.(out := gone), [], values);
    }
  }

  // ----- behind a connector -----

  /** A connector with white space before it stands at no place inside a test but its beginning. */
  lemma NoConnectorInside(p: Sql, i: nat)
    requires IsTest(p) && 0 < i < |p| && p[i - 1].Space?
    ensures !IsConn(p[i])
  {
    var n, w, op, o := TestParts(p);
    var k := |n| + |w|;
    if i < |n| {
      assert false;
    } else if i < k {
      assert w[i - |n|] == p[i];
    } else if i < k + |op| {
      assert op[i - k] == p[i];
      if 0 < i - k < |op| - 1 { assert op[1..|op| - 1][i - k - 1] == p[i]; }
    } else {
      assert o[i - k - |op|] == p[i];
      SolidMember(o, p[i]);
    }
  }

  lemma ConnectorStands(g: Sql, c: Token, lead: Sql)
    requires lead != []
    ensures var e := g + [Space] + [c] + [Space] + lead;
            && |e| > |g| + 3 && e[|g|] == Space && e[|g| + 1] == c && e[|g| + 3] == lead[0]
            && e[..|g| + 1] == g + [Space]
  {
  }

  /** A search that reaches past the lead reaches to the connector before it, and no further. */
  lemma StopsAtConnector(e: Sql, k: nat, n: nat)
    requires k <= |e| && IsTest(e[k..]) && 0 < n < |e| && e[n - 1].Space? && IsConn(e[n]) && k <= n + 1
    requires n + 1 < |e| && e[n + 1].Space?
    ensures k == n
  {
    var p := e[k..];
    TestStarts(p);
    assert p[0] == e[k];
    if k < n { NoConnectorInside(p, n - k); }
  }

  lemma NothingMoreGoes(e: Sql, g: Sql)
    requires PredicateHead(e) == Some(g + [Space])
    requires StripSpaces(g) == [] || !IsConn(StripSpaces(g)[|StripSpaces(g)| - 1])
    ensures |DropOptionalValuePredicate(e)| > |StripSpaces(g)|
  {
    StripOne(g);
  }

  /** A lead that is no test, at the end of e behind the connector at n. */
  lemma KeepsMoreThan(e: Sql, n: nat, g: Sql)
    requires 0 < n && n + 2 < |e| && e[n - 1].Space? && IsConn(e[n]) && e[n + 1].Space?
    requires !e[n + 2].Space? && !IsConn(e[n + 2]) && e[..n] == g + [Space]
    requires PredicateHead(e).Some? ==>
               var head := PredicateHead(e).value; head <= e && IsTest(e[|head|..]) && (|head| <= n || |head| > n + 2)
    requires StripSpaces(g) == [] || !IsConn(StripSpaces(g)[|StripSpaces(g)| - 1])
    ensures |DropOptionalValuePredicate(e)| > |StripSpaces(g)|
  {
    if PredicateHead(e).Some? && |PredicateHead(e).value| <= n {
      var head := PredicateHead(e).value;
      StopsAtConnector(e, |head|, n);
      assert head == e[..n];
      NothingMoreGoes(e, g);
    } else {
      KeepsFirst(e, n + 2);
      StripPrefix(g);
    }
  }

  /** Behind a connector, a lead that is no test is not removed together with the connector. */
  lemma NextKeepsMore(g: Sql, c: Token, lead: Sql)
    requires IsLead(lead) && IsConn(c) && !IsWholeTest(lead)
    requires StripSpaces(g) == [] || !IsConn(StripSpaces(g)[|StripSpaces(g)| - 1])
    ensures |DropOptionalValuePredicate(g + [Space] + [c] + [Space] + lead)| > |StripSpaces(g)|
  {
    var h := g + [Space] + [c] + [Space];
    ConnectorStands(g, c, lead);
    if PredicateHead(h + lead).Some? { StopsElsewhere(g + [Space], c, lead); }
    KeepsMoreThan(h + lead, |g| + 1, g);
  }

  /** Exact, behind a connector: rendering the connector and a predicate whose value is absent leaves nothing of
      either, whatever comes behind, if and only if the text before the value is a whole test and the predicate ends
      at its value. */
  lemma NextGoesExactly(st: Rendered, c: Token, lead: Sql, closing: Sql, name: string, values: Values)
    requires IsLead(lead) && IsConn(c) && NoSys(closing) && !Provided(values, name)
    requires var g := StripSpaces(st.out); g == [] || !IsConn(g[|g| - 1])
    ensures Vanishes(st, [Space] + [c] + [Space] + lead + [Sys(false, name)] + closing, StripSpaces(st.out), values) <==>
              IsWholeTest(lead) && EndsAtValue(lead, closing)
  {
    var pre, gone := [Space] + [c] + [Space], StripSpaces(st.out);
    PreLead(st.out, pre, c, lead);
    if IsWholeTest(lead) {
      NextTrimExactly(st.out, c, lead);
      var w := StripParts(st.out);
      TestGoesExactly(st, pre + lead, closing, gone, name, values);
    } else {
      NextKeepsMore(st.out, c, lead);
      var r := LeftBehind(st, pre + lead, closing, name, values);
      NothingBehind(pre + lead, Sys(false, name), closing);
      NothingLeft(st, pre + lead + [Sys(false, name)] + closing, gone, values);
    }
  }

  lemma PreLead(s: Sql, pre: Sql, c: Token, lead: Sql)
    requires IsLead(lead) && pre == [Space] + [c] + [Space] && IsConn(c)
    ensures s + (pre + lead) == s + [Space] + [c] + [Space] + lead
    ensures NoSys(pre + lead) && InValuePosition(pre + lead)
    ensures EndsWith(StripSpaces(pre + lead), LParen) <==> EndsWith(StripSpaces(lead), LParen)
  {
    LeadPosition(pre, lead);
  }
}
