// SQL text up to white space, what stripping white space from its end does, and that text without parameters
// is copied.
module SqlText {
  import opened SqlRewrite

  /** The tokens that are not white space. */
  function Solid(s: Sql): Sql {
    if s == [] then [] else (if s[0].Space? then [] else [s[0]]) + Solid(s[1..])
  }

  ghost predicate White(s: Sql) {
    forall i :: 0 <= i < |s| ==> s[i].Space?
  }

  lemma {:induction false} SolidAppend(a: Sql, b: Sql)
    ensures Solid(a + b) == Solid(a) + Solid(b)
  {
    if a == [] {
      assert a + b == b;
    } else {
      assert (a + b)[1..] == a[1..] + b;
      SolidAppend(a[1..], b);
    }
  }

  lemma SolidOne(t: Token)
    ensures Solid([t]) == if t.Space? then [] else [t]
  {
    assert [t][1..] == [];
  }

  lemma {:induction false} SolidMember(s: Sql, t: Token)
    ensures t in Solid(s) <==> t in s && !t.Space?
  {
    if s != [] {
      assert s == [s[0]] + s[1..];
      SolidMember(s[1..], t);
    }
  }

  lemma {:induction false} WhiteIsNotSolid(s: Sql)
    ensures White(s) <==> Solid(s) == []
  {
    if s != [] {
      WhiteIsNotSolid(s[1..]);
      assert s == [s[0]] + s[1..];
      if White(s) { assert White(s[1..]); }
    }
  }

  /** Stripping white space leaves the last solid token at the end. */
  lemma {:induction false} SolidEnd(s: Sql)
    ensures Solid(StripSpaces(s)) == Solid(s)
    ensures StripSpaces(s) == [] <==> Solid(s) == []
    ensures Solid(s) != [] ==> StripSpaces(s)[|StripSpaces(s)| - 1] == Solid(s)[|Solid(s)| - 1]
  {
    if s != [] {
      var front, last := s[..|s| - 1], s[|s| - 1];
      assert s == front + [last];
      SolidAppend(front, [last]);
      SolidOne(last);
      if last.Space? { SolidEnd(front); }
    }
  }

  /** Stripping does not reach past a prefix that is followed by something solid. */
  lemma {:induction false} StripAfter(p: Sql, q: Sql)
    requires Solid(q) != []
    ensures StripSpaces(p + q) == p + StripSpaces(q)
  {
    var front, last := q[..|q| - 1], q[|q| - 1];
    assert q == front + [last];
    assert (p + q)[..|p + q| - 1] == p + front;
    if last.Space? {
      SolidAppend(front, [last]);
      SolidOne(last);
      StripAfter(p, front);
    }
  }

  lemma {:induction false} StripPrefix(s: Sql)
    ensures StripSpaces(s) <= s
  {
    if s != [] && s[|s| - 1].Space? { StripPrefix(s[..|s| - 1]); }
  }

  /** A text is what stripping leaves, and white space behind it. */
  lemma {:induction false} StripParts(s: Sql) returns (w: Sql)
    ensures s == StripSpaces(s) + w && White(w)
    ensures StripSpaces(s) != [] ==> !StripSpaces(s)[|StripSpaces(s)| - 1].Space?
  {
    if s != [] && s[|s| - 1].Space? {
      var front := s[..|s| - 1];
      w := StripParts(front);
      w := w + [Space];
      assert s == front + [Space];
      Assoc(StripSpaces(front), w[..|w| - 1], [Space]);
    } else {
      w := [];
      assert s + [] == s;
    }
  }

  /** White space behind a solid end is all that is stripped. */
  lemma {:induction false} StripWhite(s: Sql, w: Sql)
    requires White(w) && (s == [] || !s[|s| - 1].Space?)
    ensures StripSpaces(s + w) == s
    decreases |w|
  {
    if w == [] {
      assert s + w == s;
    } else {
      var front := w[..|w| - 1];
      assert (s + w)[..|s + w| - 1] == s + front;
      StripWhite(s, front);
    }
  }

  lemma StripOne(s: Sql)
    ensures StripSpaces(s + [Space]) == StripSpaces(s)
  {
    assert (s + [Space])[..|s|] == s;
  }

  lemma StripNone(s: Sql)
    requires s != [] && !s[|s| - 1].Space?
    ensures StripSpaces(s) == s && StripSpaces(s + [Space]) == s
  {
    StripOne(s);
  }

  lemma Front(s: Sql, t: Token)
    ensures (s + [t])[..|s + [t]| - 1] == s
  {
  }

  lemma {:induction false} SkipFindsSolid(s: Sql, t: Token)
    requires !t.Space?
    ensures SkipLead(s, t).Some? ==> Solid(s) != [] && Solid(s)[0] == t
  {
    if s != [] && s[0] != t && s[0].Space? { SkipFindsSolid(s[1..], t); }
  }

  /** What follows the last solid token but one. */
  lemma LastSolid(s: Sql) returns (front: Sql, w: Sql)
    requires Solid(s) != []
    ensures s == front + [Solid(s)[|Solid(s)| - 1]] + w && White(w)
    ensures Solid(front) == Solid(s)[..|Solid(s)| - 1]
  {
    var t := StripSpaces(s);
    w := StripParts(s);
    SolidEnd(s);
    front := t[..|t| - 1];
    var last := t[|t| - 1];
    assert t == front + [last];
    SolidAppend(front, [last]);
    SolidOne(last);
  }

  // ----- text without parameters -----

  ghost predicate NoSys(s: Sql) {
    forall i :: 0 <= i < |s| ==> !s[i].Sys?
  }

  ghost predicate NoWhere(w: Sql) {
    forall i :: 0 <= i < |w| ==> w[i] != Key(Where)
  }

  lemma {:induction false} RenderToks(st: Rendered, toks: Sql, rest: Sql, values: Values)
    requires NoSys(toks)
    ensures RenderFrom(st, toks + rest, values) == RenderFrom(st.(out := st.out + toks), rest, values)
    decreases |toks|
  {
    if toks == [] {
      assert toks + rest == rest && st.out + toks == st.out;
    } else {
      assert (toks + rest)[1..] == toks[1..] + rest;
      RenderToks(st.(out := st.out + [toks[0]]), toks[1..], rest, values);
      assert st.out + [toks[0]] + toks[1..] == st.out + toks;
    }
  }

  // ----- words that stand apart -----

  /** Tokens whose text would run together with a neighbour of the same kind. */
  predicate Wordy(t: Token) {
    t.Word? || t.Key? || t.Lit? || t.Arg? || t.Sys?
  }

  predicate Apart(s: Sql, i: nat) {
    i + 1 < |s| ==> !(Wordy(s[i]) && Wordy(s[i + 1]))
  }

  /** No two words side by side, as in any text split into its tokens. */
  ghost predicate Separated(s: Sql) {
    forall i: nat :: Apart(s, i)
  }

  predicate EndsWordy(s: Sql) {
    s != [] && Wordy(s[|s| - 1])
  }

  /** The last token of a and the first of b may stand side by side. */
  predicate Joins(a: Sql, b: Sql) {
    EndsWordy(a) && b != [] ==> !Wordy(b[0])
  }

  lemma SeparatedConcat(a: Sql, b: Sql)
    ensures Separated(a + b) <==> Separated(a) && Separated(b) && Joins(a, b)
  {
    if Separated(a) && Separated(b) && Joins(a, b) {
      forall i: nat ensures Apart(a + b, i) {
        if i < |a| { assert Apart(a, i); } else { assert Apart(b, i - |a|); }
      }
    }
    if Separated(a + b) {
      forall i: nat ensures Apart(a, i) { assert Apart(a + b, i); }
      forall i: nat ensures Apart(b, i) { assert Apart(a + b, |a| + i); }
      if a != [] { assert Apart(a + b, |a| - 1); }
    }
  }

  lemma WhiteIsSeparated(w: Sql)
    requires White(w)
    ensures Separated(w) && !EndsWordy(w) && (w != [] ==> !Wordy(w[0]))
  {
  }

  /** White space and a comma at the end make no difference to which words stand side by side. */
  lemma EndsApart(s: Sql)
    ensures Separated(StripSpaces(s)) <==> Separated(s)
    ensures Separated(StripTrailingComma(s)) <==> Separated(s)
  {
    var t := StripSpaces(s);
    var w := StripParts(s);
    WhiteIsSeparated(w);
    SeparatedConcat(t, w);
    if EndsWith(t, Comma) {
      SeparatedConcat(t[..|t| - 1], [Comma]);
      assert t == t[..|t| - 1] + [Comma];
    }
  }
}
