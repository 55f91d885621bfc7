// Queries as syntax trees: comma lists of columns, and one WHERE that is a flat AND of predicates. Pruning
// a tree removes what absent optional parameters stand for; the streaming rewrite of the printed query is
// compared with the print of the pruned one, up to white space.
module SqlPrune {
  import opened Wrappers
  import opened SqlRewrite
  import opened SqlText
  import opened SqlTests
  import opened SqlGone

  // ----- the trees -----

  /** White space, or none, before and after the comma in front of an entry. */
  datatype Gap = Gap(before: bool, after: bool)

  /** A list entry: fixed text, or a dimension parameter. The gap of a first entry stands for nothing. */
  datatype Item = Plain(gap: Gap, toks: Sql) | Dim(gap: Gap, required: bool, name: string)

  /** A keyword phrase with a comma list (SELECT, GROUP BY, ORDER BY), or with no list at all (FROM, LIMIT). */
  datatype Clause = Clause(head: Sql, items: seq<Item>)

  /** A predicate without a parameter, or one that tests a parameter: the text before it and the text behind it. */
  datatype Pred = Fixed(toks: Sql) | Test(lead: Sql, closing: Sql, required: bool, name: string)

  datatype Query = Query(pre: seq<Clause>, preds: seq<Pred>, post: seq<Clause>)

  // ----- printing -----

  function PrintItem(i: Item): Sql {
    match i
    case Plain(_, toks) => toks
    case Dim(_, required, name) => [Sys(required, name)]
  }

  function WhiteIf(on: bool): Sql {
    if on then [Space] else []
  }

  function PrintComma(g: Gap): Sql {
    WhiteIf(g.before) + [Comma] + WhiteIf(g.after)
  }

  function PrintItems(items: seq<Item>): Sql {
    if items == [] then []
    else if |items| == 1 then PrintItem(items[0])
    else PrintItem(items[0]) + PrintComma(items[1].gap) + PrintItems(items[1..])
  }

  function PrintClause(c: Clause): Sql {
    c.head + if c.items == [] then [] else [Space] + PrintItems(c.items)
  }

  function PrintClauses(cs: seq<Clause>): Sql {
    if cs == [] then [] else [Space] + PrintClause(cs[0]) + PrintClauses(cs[1..])
  }

  function PrintTest(lead: Sql, param: Token, closing: Sql): Sql {
    lead + [param] + closing
  }

  function PrintPred(p: Pred): Sql {
    match p
    case Fixed(toks) => toks
    case Test(lead, closing, required, name) => PrintTest(lead, Sys(required, name), closing)
  }

  const AND := [Space, Key(And), Space]

  function PrintMorePreds(preds: seq<Pred>): Sql {
    if preds == [] then [] else AND + PrintPred(preds[0]) + PrintMorePreds(preds[1..])
  }

  function PrintWhere(preds: seq<Pred>): Sql {
    if preds == [] then [] else [Space, Key(Where), Space] + PrintPred(preds[0]) + PrintMorePreds(preds[1..])
  }

  function Print(q: Query): Sql {
    PrintClauses(q.pre) + PrintWhere(q.preds) + PrintClauses(q.post)
  }

  // ----- pruning -----

  /** A dimension is kept iff its key is present, and then names its column. */
  function PruneItems(items: seq<Item>, values: Values): seq<Item> {
    if items == [] then []
    else
      (match items[0]
       case Plain(_, _) => [items[0]]
       case Dim(gap, _, name) => if name in values then [Plain(gap, [Quoted(name)])] else [])
      + PruneItems(items[1..], values)
  }

  /** A list that had entries and keeps none goes with its keywords. */
  predicate Emptied(c: Clause, values: Values) {
    c.items != [] && PruneItems(c.items, values) == []
  }

  function PruneClauses(cs: seq<Clause>, values: Values): seq<Clause> {
    if cs == [] then []
    else
      (if Emptied(cs[0], values) then [] else [Clause(cs[0].head, PruneItems(cs[0].items, values))])
      + PruneClauses(cs[1..], values)
  }

  predicate Dropped(p: Pred, values: Values) {
    p.Test? && !p.required && !Provided(values, p.name)
  }

  /** A test is kept iff its value is provided, and then compares with the next placeholder after $n. */
  function PrunePreds(preds: seq<Pred>, values: Values, n: nat): seq<Pred> {
    if preds == [] then []
    else
      var p := preds[0];
      if p.Fixed? then [p] + PrunePreds(preds[1..], values, n)
      else if Dropped(p, values) then PrunePreds(preds[1..], values, n)
      else [Fixed(PrintTest(p.lead, Arg(n + 1, p.name), p.closing))] + PrunePreds(preds[1..], values, n + 1)
  }

  function Prune(q: Query, values: Values): Query {
    Query(PruneClauses(q.pre, values), PrunePreds(q.preds, values, 0), PruneClauses(q.post, values))
  }

  /** What stays of an absent test: the text behind its value. */
  function Left(p: Pred): Sql {
    if p.Test? then Remainder(p.lead, p.closing) else []
  }

  /** What a predicate binds. */
  function Binds(p: Pred, values: Values): seq<ArgValue> {
    if p.Test? && Provided(values, p.name) then [Bind(values[p.name])] else []
  }

  /** The values of the kept tests, in order. */
  function BoundArgs(preds: seq<Pred>, values: Values): seq<ArgValue> {
    if preds == [] then [] else Binds(preds[0], values) + BoundArgs(preds[1..], values)
  }

  // ----- well-formed queries -----

  predicate ConnHolds(w: Sql, i: nat) {
    i < |w| && IsConn(w[i]) ==> i + 1 < |w| && !IsClauseKey(w[i + 1])
  }

  /** Every connector has something after it that is not the next clause. */
  ghost predicate ConnsHold(w: Sql) {
    forall i: nat :: ConnHolds(w, i)
  }

  /** Text the clean-up has no business with. */
  ghost predicate Calm(s: Sql) {
    ConnsHold(Solid(s)) && NoWhere(Solid(s))
  }

  ghost predicate GoodHead(h: Sql) {
    && h != [] && NoSys(h) && Calm(h) && Separated(h)
    && !h[0].Space? && !h[0].Comma? && !IsConn(h[0])
    && var last := h[|h| - 1]; !last.Space? && !last.Comma? && !ValueContext(last)
  }

  ghost predicate GoodItem(i: Item, values: Values) {
    match i
    case Plain(_, toks) => NoSys(toks) && Calm(toks) && Separated(toks) && Solid(toks) != []
    case Dim(_, required, name) => required ==> name in values
  }

  ghost predicate GoodClauses(cs: seq<Clause>, values: Values) {
    forall i :: 0 <= i < |cs| ==> GoodClause(cs[i], values)
  }

  ghost predicate GoodClause(c: Clause, values: Values) {
    GoodHead(c.head) && forall i :: 0 <= i < |c.items| ==> GoodItem(c.items[i], values)
  }

  /** A test as LeftmostTest recognises it, in value position, and that the clean-up has no business with. */
  ghost predicate GoodLead(lead: Sql) {
    && IsTest(lead) && InValuePosition(lead) && NoSys(lead) && Calm(lead) && Separated(lead) && !EndsWordy(lead)
    && lead[0] != Key(Not) && !IsConn(lead[0]) && !IsClauseKey(lead[0])
  }

  /** Any text may stand behind a parameter, up to the next connector: a closing parenthesis, a cast, the rest of
      an expression. A parenthesis opened before the parameter has some of it behind. */
  ghost predicate GoodClosing(lead: Sql, closing: Sql) {
    && Bounded(lead, closing) && NoSys(closing) && Calm(closing) && Separated(closing)
    && (closing != [] ==> !Wordy(closing[0]) && !closing[|closing| - 1].Space?)
    && StartsTest(Remainder(lead, closing))
  }

  /** Text that goes on with a predicate: it begins with no connector and no clause. */
  ghost predicate StartsTest(s: Sql) {
    var w := Solid(s);
    w == [] || (!IsConn(w[0]) && !IsClauseKey(w[0]))
  }

  ghost predicate GoodText(t: Sql) {
    && t != [] && NoSys(t) && Calm(t) && Separated(t)
    && !t[0].Space? && !IsConn(t[0]) && !IsClauseKey(t[0]) && !t[|t| - 1].Space?
  }

  ghost predicate GoodPred(p: Pred, values: Values) {
    match p
    case Fixed(toks) => GoodText(toks)
    case Test(lead, closing, required, name) =>
      GoodLead(lead) && GoodClosing(lead, closing) && (required ==> Provided(values, name))
  }

  /** Well-formed text, and every required parameter there. */
  ghost predicate GoodQuery(q: Query, values: Values) {
    && GoodClauses(q.pre, values)
    && (forall i :: 0 <= i < |q.preds| ==> GoodPred(q.preds[i], values))
    && GoodClauses(q.post, values)
  }

  // ----- rendering lists -----

  /** The kept entries, each followed by a comma. */
  function Commas(ks: seq<Sql>): Sql {
    if ks == [] then [] else Commas(ks[..|ks| - 1]) + ks[|ks| - 1] + [Comma]
  }

  /** The kept entries with commas between them. */
  function Listed(ks: seq<Sql>): Sql {
    if ks == [] then [] else Commas(ks[..|ks| - 1]) + ks[|ks| - 1]
  }

  function KeptText(item: Item, values: Values): seq<Sql> {
    match item
    case Plain(_, toks) => [Solid(toks)]
    case Dim(_, _, name) => if name in values then [[Quoted(name)]] else []
  }

  /** The solid text of each kept entry. */
  function KeptTexts(items: seq<Item>, values: Values): seq<Sql> {
    if items == [] then [] else KeptText(items[0], values) + KeptTexts(items[1..], values)
  }

  predicate Kept(item: Item, values: Values) {
    item.Plain? || item.name in values
  }

  /** The text of a kept entry begins with a word; a dimension begins with its quote. */
  predicate StartsWord(item: Item) {
    item.Plain? && item.toks != [] && Wordy(item.toks[0])
  }

  /** Rendering the list behind this text puts a word next to a word. */
  predicate FusesBehind(out: Sql, items: seq<Item>, values: Values)
    decreases |items|
  {
    if items == [] then false
    else if Kept(items[0], values) then EndsWordy(out) && StartsWord(items[0])
    else |items| > 1 && FusesBehind(StripSpaces(out) + WhiteIf(items[1].gap.after), items[1..], values)
  }

  /** The text built so far: a fixed part p, and a list under way in q. */
  ghost predicate ListUnderway(out: Sql, p: Sql, q: Sql, w: Sql, ks: seq<Sql>) {
    && out == p + q && Solid(q) == w + Commas(ks)
    && w != [] && !ValueContext(w[|w| - 1]) && !w[|w| - 1].Comma?
  }

  lemma ListPosition(out: Sql, p: Sql, q: Sql, w: Sql, ks: seq<Sql>)
    requires ListUnderway(out, p, q, w, ks)
    ensures !InValuePosition(out)
    ensures StripSpaces(out) == p + StripSpaces(q)
  {
    StripAfter(p, q);
    SolidEnd(q);
    if ks != [] {
      assert Commas(ks)[|Commas(ks)| - 1] == Comma;
    }
  }

  lemma KeptApart(out: Sql, item: Item)
    requires item.Plain? ==> Separated(item.toks) && item.toks != []
    ensures var text := if item.Plain? then item.toks else [Quoted(item.name)];
            Separated(out + text) <==> Separated(out) && !(EndsWordy(out) && StartsWord(item))
  {
    SeparatedConcat(out, if item.Plain? then item.toks else [Quoted(item.name)]);
  }

  /** Behind a comma, or anything else that is no word, rendering a list never fuses words. */
  lemma {:induction false} NoWordBehind(out: Sql, items: seq<Item>, values: Values)
    requires !EndsWordy(StripSpaces(out))
    ensures !FusesBehind(out, items, values)
    decreases |items|
  {
    if |items| > 1 && !Kept(items[0], values) {
      var white := WhiteIf(items[1].gap.after);
      StripsOnce(out, white);
      NoWordBehind(StripSpaces(out) + white, items[1..], values);
    }
    var w := StripParts(out);
  }

  lemma StripsOnce(s: Sql, w: Sql)
    requires White(w)
    ensures StripSpaces(StripSpaces(s) + w) == StripSpaces(s)
  {
    var v := StripParts(s);
    StripWhite(StripSpaces(s), w);
  }

  lemma PlacePresent(st: Rendered, required: bool, name: string, rest: Sql, values: Values)
    requires !InValuePosition(st.out) && name in values
    ensures RenderFrom(st, [Sys(required, name)] + rest, values) == RenderFrom(st.(out := st.out + [Quoted(name)]), rest, values)
  {
    ConsTail(Sys(required, name), rest);
  }

  /** One entry that is kept. */
  lemma {:induction false} KeepItem(st: Rendered, item: Item, rest: Sql, values: Values, p: Sql, q: Sql, w: Sql,
                                    ks: seq<Sql>)
    returns (q': Sql, k: Sql)
    requires GoodItem(item, values) && (item.Dim? ==> item.name in values)
    requires ListUnderway(st.out, p, q, w, ks)
    ensures RenderFrom(st, PrintItem(item) + rest, values) == RenderFrom(st.(out := p + q'), rest, values)
    ensures KeptTexts([item], values) == [k] && Solid(q') == w + Commas(ks) + k && q <= q'
    ensures Separated(q') <==> Separated(q) && !(EndsWordy(q) && StartsWord(item))
  {
    KeptOne(item, values);
    KeptApart(q, item);
    match item
    case Plain(_, toks) =>
      RenderToks(st, toks, rest, values);
      q', k := q + toks, Solid(toks);
      SolidAppend(q, toks);
      Assoc(p, q, toks);
    case Dim(_, required, name) =>
      ListPosition(st.out, p, q, w, ks);
      PlacePresent(st, required, name, rest, values);
      q', k := q + [Quoted(name)], [Quoted(name)];
      SolidAppend(q, [Quoted(name)]);
      SolidOne(Quoted(name));
      Assoc(p, q, [Quoted(name)]);
  }

  /** What an absent dimension does, by whether a comma follows. */
  lemma PlaceAbsent(st: Rendered, required: bool, name: string, rest: Sql, values: Values)
    requires !InValuePosition(st.out) && name !in values && !required
    ensures RenderFrom(st, [Sys(required, name)] + rest, values) ==
            if SkipLead(rest, Comma).Some? then RenderFrom(st.(out := StripSpaces(st.out)), SkipLead(rest, Comma).value, values)
            else RenderFrom(st.(out := StripTrailingComma(st.out)), rest, values)
  {
    ConsTail(Sys(required, name), rest);
  }

  lemma SamePrefix(a: Sql, b: Sql, t: Token)
    requires a + [t] == b + [t]
    ensures a == b
  {
    assert a == (a + [t])[..|a|] && b == (b + [t])[..|b|];
    assert |a| == |a + [t]| - 1 == |b|;
  }

  /** A text whose solid part ends in a comma, without that comma. */
  lemma WithoutComma(q: Sql, w: Sql) returns (q': Sql)
    requires Solid(q) == w + [Comma]
    ensures StripSpaces(q) == q' + [Comma] && Solid(q') == w
  {
    SolidEnd(q);
    var t := StripSpaces(q);
    q' := t[..|t| - 1];
    assert t == q' + [Comma];
    SolidAppend(q', [Comma]);
    SolidOne(Comma);
    SamePrefix(Solid(q'), w, Comma);
  }

  lemma StripComma(s: Sql, t: Sql)
    requires StripSpaces(s) == t + [Comma]
    ensures StripTrailingComma(s) == t
  {
    assert (t + [Comma])[..|t|] == t;
  }

  lemma ListedComma(w: Sql, ks: seq<Sql>)
    requires ks != []
    ensures w + Commas(ks) == (w + Listed(ks)) + [Comma]
  {
    Assoc(w, Listed(ks), [Comma]);
  }

  lemma SolidPrefix(a: Sql, b: Sql)
    requires a <= b && Solid(a) != []
    ensures a != [] && a[0] == b[0]
  {
  }

  /** Taking back the comma in front of a last entry that is absent. */
  lemma {:induction false} TakeBackComma(p: Sql, q: Sql, w: Sql, ks: seq<Sql>) returns (q': Sql)
    requires ListUnderway(p + q, p, q, w, ks)
    ensures StripTrailingComma(p + q) == p + q'
    ensures Solid(q') == w + Listed(ks) && q' != [] && q'[0] == q[0]
    ensures Separated(q') <==> Separated(q)
  {
    ListPosition(p + q, p, q, w, ks);
    SolidEnd(q);
    if ks == [] {
      q' := q;
    } else {
      ListedComma(w, ks);
      q' := WithoutComma(q, w + Listed(ks));
      Assoc(p, q', [Comma]);
      StripComma(p + q, p + q');
      StripPrefix(q);
      SolidPrefix(q', q);
      SameApart(q, q');
    }
  }

  lemma SameApart(q: Sql, q': Sql)
    requires StripSpaces(q) == q' + [Comma]
    ensures Separated(q') <==> Separated(q)
  {
    StripComma(q, q');
    EndsApart(q);
  }

  lemma {:induction false} KeptOne(item: Item, values: Values)
    ensures KeptTexts([item], values) == KeptText(item, values)
  {
    assert [item][1..] == [];
  }

  lemma {:induction false} CommasOne(ks: seq<Sql>, k: Sql)
    ensures Commas(ks + [k]) == Commas(ks) + k + [Comma] && Listed(ks + [k]) == Commas(ks) + k
  {
    assert (ks + [k])[..|ks|] == ks;
  }

  /** The last entry of a list, kept or absent. */
  lemma {:induction false} LastItem(st: Rendered, item: Item, rest: Sql, values: Values, p: Sql, q: Sql, w: Sql,
                                    ks: seq<Sql>)
    returns (q': Sql)
    requires GoodItem(item, values) && ListUnderway(st.out, p, q, w, ks)
    requires Solid(rest) == [] || !Solid(rest)[0].Comma?
    ensures RenderFrom(st, PrintItem(item) + rest, values) == RenderFrom(st.(out := p + q'), rest, values)
    ensures Solid(q') == w + Listed(ks + KeptTexts([item], values)) && q' != [] && q'[0] == q[0]
    ensures Separated(q') <==> Separated(q) && !FusesBehind(q, [item], values)
  {
    if item.Plain? || item.name in values {
      var k;
      q', k := KeepItem(st, item, rest, values, p, q, w, ks);
      CommasOne(ks, k);
      Assoc(w, Commas(ks), k);
    } else {
      KeptOne(item, values);
      assert ks + [] == ks;
      ListPosition(st.out, p, q, w, ks);
      SkipFindsSolid(rest, Comma);
      PlaceAbsent(st, item.required, item.name, rest, values);
      q' := TakeBackComma(p, q, w, ks);
    }
  }

  lemma {:induction false} CommaIsNext(g: Gap, rest: Sql)
    ensures SkipLead(PrintComma(g) + rest, Comma) == Some(WhiteIf(g.after) + rest)
    ensures Solid(PrintComma(g)) == [Comma]
  {
    var tail := [Comma] + (WhiteIf(g.after) + rest);
    assert PrintComma(g) + rest == WhiteIf(g.before) + tail;
    ConsTail(Comma, WhiteIf(g.after) + rest);
    if g.before { ConsTail(Space, tail); } else { assert [] + tail == tail; }
    SolidAppend(WhiteIf(g.before) + [Comma], WhiteIf(g.after));
    SolidAppend(WhiteIf(g.before), [Comma]);
    SolidOne(Comma);
    SolidOne(Space);
  }

  /** After an absent entry its comma is gone and the space after the comma stays. */
  lemma {:induction false} SkipComma(st: Rendered, item: Item, g: Gap, rest: Sql, values: Values, p: Sql, q: Sql,
                                     w: Sql, ks: seq<Sql>)
    returns (q': Sql)
    requires GoodItem(item, values) && item.Dim? && item.name !in values
    requires ListUnderway(st.out, p, q, w, ks)
    ensures RenderFrom(st, PrintItem(item) + (PrintComma(g) + rest), values)
            == RenderFrom(st.(out := p + q'), rest, values)
    ensures Solid(q') == Solid(q) && q' != [] && q'[0] == q[0] && q' == StripSpaces(q) + WhiteIf(g.after)
  {
    ListPosition(st.out, p, q, w, ks);
    PlaceAbsent(st, item.required, item.name, PrintComma(g) + rest, values);
    CommaIsNext(g, rest);
    var t, white := StripSpaces(q), WhiteIf(g.after);
    RenderToks(st.(out := p + t), white, rest, values);
    q' := t + white;
    Assoc(p, t, white);
    StrippedList(q, g.after);
  }

  /** White space at the end of a list is no matter. */
  lemma StrippedList(q: Sql, white: bool)
    requires Solid(q) != []
    ensures var q' := StripSpaces(q) + WhiteIf(white); Solid(q') == Solid(q) && q' != [] && q'[0] == q[0]
  {
    SolidEnd(q);
    StripPrefix(q);
    SolidAppend(StripSpaces(q), WhiteIf(white));
    SolidOne(Space);
  }

  /** A separator after an entry that was kept. */
  lemma {:induction false} AddComma(st: Rendered, g: Gap, rest: Sql, values: Values, p: Sql, q: Sql, w: Sql,
                                    ks: seq<Sql>, k: Sql)
    requires st.out == p + q && Solid(q) == w + Commas(ks) + k
    ensures RenderFrom(st, PrintComma(g) + rest, values) == RenderFrom(st.(out := p + (q + PrintComma(g))), rest, values)
    ensures Solid(q + PrintComma(g)) == w + Commas(ks + [k])
  {
    var sep := PrintComma(g);
    RenderToks(st, sep, rest, values);
    Assoc(p, q, sep);
    SolidAppend(q, sep);
    CommaIsNext(g, rest);
    CommasOne(ks, k);
    Assoc(w, Commas(ks), k);
    Assoc(w, Commas(ks) + k, [Comma]);
  }

  /** An entry that another one follows. */
  lemma {:induction false} EarlierItem(st: Rendered, item: Item, g: Gap, rest: Sql, values: Values, p: Sql, q: Sql,
                                       w: Sql, ks: seq<Sql>)
    returns (q': Sql)
    requires GoodItem(item, values) && ListUnderway(st.out, p, q, w, ks)
    ensures RenderFrom(st, PrintItem(item) + (PrintComma(g) + rest), values)
            == RenderFrom(st.(out := p + q'), rest, values)
    ensures Solid(q') == w + Commas(ks + KeptTexts([item], values)) && q' != [] && q'[0] == q[0]
    ensures Separated(q') <==> Separated(q) && !(Kept(item, values) && EndsWordy(q) && StartsWord(item))
    ensures if Kept(item, values) then !EndsWordy(StripSpaces(q')) else q' == StripSpaces(q) + WhiteIf(g.after)
  {
    if item.Plain? || item.name in values {
      var q1, k := KeepItem(st, item, PrintComma(g) + rest, values, p, q, w, ks);
      AddComma(st.(out := p + q1), g, rest, values, p, q1, w, ks, k);
      q' := q1 + PrintComma(g);
      CommaApart(q1, g);
    } else {
      KeptOne(item, values);
      assert ks + [] == ks;
      q' := SkipComma(st, item, g, rest, values, p, q, w, ks);
      EndsApart(q);
      WhiteIsSeparated(WhiteIf(g.after));
      SeparatedConcat(StripSpaces(q), WhiteIf(g.after));
    }
  }

  lemma {:induction false} CommaApart(out: Sql, g: Gap)
    ensures Separated(out + PrintComma(g)) <==> Separated(out)
    ensures !EndsWordy(StripSpaces(out + PrintComma(g)))
  {
    var comma := WhiteIf(g.before) + [Comma];
    SeparatedConcat(out, PrintComma(g));
    SeparatedConcat(WhiteIf(g.before), [Comma]);
    SeparatedConcat(comma, WhiteIf(g.after));
    assert out + PrintComma(g) == (out + WhiteIf(g.before) + [Comma]) + WhiteIf(g.after);
    StripWhite(out + WhiteIf(g.before) + [Comma], WhiteIf(g.after));
  }

  lemma {:induction false} ItemsSplit(items: seq<Item>, rest: Sql, values: Values, ks: seq<Sql>)
    requires |items| > 1
    ensures PrintItems(items) + rest ==
            PrintItem(items[0]) + (PrintComma(items[1].gap) + (PrintItems(items[1..]) + rest))
    ensures ks + KeptTexts([items[0]], values) + KeptTexts(items[1..], values) == ks + KeptTexts(items, values)
  {
    var first, sep, more := PrintItem(items[0]), PrintComma(items[1].gap), PrintItems(items[1..]);
    Assoc(first + sep, more, rest);
    Assoc(first, sep, more + rest);
    KeptOne(items[0], values);
    Assoc(ks, KeptText(items[0], values), KeptTexts(items[1..], values));
  }

  /** A whole comma list: the absent entries are gone and the commas are right. */
  lemma {:induction false} RenderItems(st: Rendered, items: seq<Item>, rest: Sql, values: Values,
                                       p: Sql, q: Sql, w: Sql, ks: seq<Sql>) returns (q': Sql)
    requires items != [] && forall i :: 0 <= i < |items| ==> GoodItem(items[i], values)
    requires ListUnderway(st.out, p, q, w, ks)
    requires Solid(rest) == [] || !Solid(rest)[0].Comma?
    ensures RenderFrom(st, PrintItems(items) + rest, values) == RenderFrom(st.(out := p + q'), rest, values)
    ensures Solid(q') == w + Listed(ks + KeptTexts(items, values)) && q' != [] && q'[0] == q[0]
    ensures Separated(q') <==> Separated(q) && !FusesBehind(q, items, values)
    decreases |items|
  {
    var item := items[0];
    if |items| == 1 {
      assert items == [item];
      q' := LastItem(st, item, rest, values, p, q, w, ks);
    } else {
      ItemsSplit(items, rest, values, ks);
      var more := PrintItems(items[1..]) + rest;
      var q1 := EarlierItem(st, item, items[1].gap, more, values, p, q, w, ks);
      var ks1 := ks + KeptTexts([item], values);
      q' := RenderItems(st.(out := p + q1), items[1..], rest, values, p, q1, w, ks1);
      if Kept(item, values) { NoWordBehind(q1, items[1..], values); }
    }
  }

  // ----- rendering clauses -----

  function KeptClause(c: Clause, values: Values): Sql {
    Solid(c.head) + Listed(KeptTexts(c.items, values))
  }

  function KeptClauses(cs: seq<Clause>, values: Values): Sql {
    if cs == [] then [] else KeptClause(cs[0], values) + KeptClauses(cs[1..], values)
  }

  function LeadingAbsent(items: seq<Item>, values: Values): (k: nat)
    ensures k <= |items|
  {
    if items == [] || Kept(items[0], values) then 0 else 1 + LeadingAbsent(items[1..], values)
  }

  /** The first entries of the list are absent, and the first kept one starts with a word directly behind its
      comma: with that comma gone, its word stands next to the last word of the keyword phrase. */
  predicate ClauseFuses(c: Clause, values: Values) {
    var k := LeadingAbsent(c.items, values);
    EndsWordy(c.head) && 0 < k < |c.items| && !c.items[k].gap.after && StartsWord(c.items[k])
  }

  predicate AnyFuses(cs: seq<Clause>, values: Values) {
    cs != [] && (ClauseFuses(cs[0], values) || AnyFuses(cs[1..], values))
  }

  lemma {:induction false} FusesAtFirstKept(x: Sql, white: bool, items: seq<Item>, values: Values)
    requires x != [] && !x[|x| - 1].Space?
    ensures var k := LeadingAbsent(items, values);
            FusesBehind(x + WhiteIf(white), items, values) <==>
            k < |items| && EndsWordy(x) && StartsWord(items[k]) && !(if k == 0 then white else items[k].gap.after)
    decreases |items|
  {
    StripWhite(x, WhiteIf(white));
    assert x + [] == x;
    if |items| > 1 && !Kept(items[0], values) {
      FusesAtFirstKept(x, items[1].gap.after, items[1..], values);
    }
  }

  lemma SolidLast(h: Sql)
    requires h != [] && !h[|h| - 1].Space?
    ensures Solid(h) != [] && Solid(h)[|Solid(h)| - 1] == h[|h| - 1]
  {
    SolidEnd(h);
  }

  /** A keyword phrase and the space after it. */
  lemma {:induction false} RenderHead(st: Rendered, h: Sql, rest: Sql, values: Values)
    requires GoodHead(h)
    ensures RenderFrom(st, [Space] + h + [Space] + rest, values) ==
            RenderFrom(st.(out := (st.out + [Space]) + (h + [Space])), rest, values)
    ensures ListUnderway((st.out + [Space]) + (h + [Space]), st.out + [Space], h + [Space], Solid(h), [])
  {
    var lead := [Space] + h + [Space];
    RenderToks(st, lead, rest, values);
    Assoc([Space], h, [Space]);
    Assoc(st.out, [Space], h + [Space]);
    SolidAppend(h, [Space]);
    SolidOne(Space);
    SolidLast(h);
    assert Solid(h) + Commas([]) == Solid(h);
  }

  lemma HeadSpaceApart(h: Sql)
    requires Separated(h)
    ensures Separated(h + [Space])
  {
    SeparatedConcat(h, [Space]);
  }

  lemma HeadSplit(h: Sql, items: Sql, rest: Sql)
    ensures ([Space] + (h + ([Space] + items))) + rest == [Space] + h + [Space] + (items + rest)
  {
  }

  /** A keyword phrase without a list. */
  lemma {:induction false} RenderPhrase(st: Rendered, c: Clause, rest: Sql, values: Values)
    requires GoodClause(c, values) && c.items == []
    ensures RenderFrom(st, ([Space] + PrintClause(c)) + rest, values) ==
            RenderFrom(st.(out := st.out + ([Space] + c.head)), rest, values)
    ensures Solid(c.head) == KeptClause(c, values) && c.head != [] && Separated(c.head) && !ClauseFuses(c, values)
  {
    assert PrintClause(c) == c.head;
    RenderToks(st, [Space] + c.head, rest, values);
  }

  /** A keyword phrase and its list. */
  lemma {:induction false} RenderListed(st: Rendered, c: Clause, rest: Sql, values: Values) returns (q: Sql)
    requires GoodClause(c, values) && c.items != []
    requires Solid(rest) == [] || !Solid(rest)[0].Comma?
    ensures RenderFrom(st, ([Space] + PrintClause(c)) + rest, values) ==
            RenderFrom(st.(out := st.out + ([Space] + q)), rest, values)
    ensures Solid(q) == KeptClause(c, values) && q != [] && q[0] == c.head[0]
    ensures Separated(q) <==> !ClauseFuses(c, values)
  {
    var p, q0, more := st.out + [Space], c.head + [Space], PrintItems(c.items) + rest;
    HeadSplit(c.head, PrintItems(c.items), rest);
    RenderHead(st, c.head, more, values);
    HeadSpaceApart(c.head);
    q := RenderItems(st.(out := p + q0), c.items, rest, values, p, q0, Solid(c.head), []);
    FusesAtFirstKept(c.head, true, c.items, values);
    NoneBefore(KeptTexts(c.items, values));
    Assoc(st.out, [Space], q);
  }

  lemma NoneBefore<T>(s: seq<T>)
    ensures [] + s == s
  {
  }

  lemma {:induction false} RenderClause(st: Rendered, c: Clause, rest: Sql, values: Values) returns (q: Sql)
    requires GoodClause(c, values)
    requires Solid(rest) == [] || !Solid(rest)[0].Comma?
    ensures RenderFrom(st, ([Space] + PrintClause(c)) + rest, values) ==
            RenderFrom(st.(out := st.out + ([Space] + q)), rest, values)
    ensures Solid(q) == KeptClause(c, values) && q != [] && q[0] == c.head[0]
    ensures Separated(q) <==> !ClauseFuses(c, values)
  {
    if c.items == [] {
      RenderPhrase(st, c, rest, values);
      q := c.head;
    } else {
      q := RenderListed(st, c, rest, values);
    }
  }

  lemma ClausesStart(cs: seq<Clause>, rest: Sql, values: Values)
    requires GoodClauses(cs, values)
    requires Solid(rest) == [] || !Solid(rest)[0].Comma?
    ensures var s := Solid(PrintClauses(cs) + rest); s == [] || !s[0].Comma?
  {
    if cs != [] {
      var text := PrintClauses(cs) + rest;
      assert text[0] == Space && text[1] == cs[0].head[0];
      assert text[1..][0] == cs[0].head[0];
    } else {
      assert PrintClauses(cs) + rest == rest;
    }
  }

  lemma SpaceBefore(q: Sql, b: Sql)
    ensures Solid([Space] + q + b) == Solid(q) + Solid(b)
  {
    SolidAppend([Space] + q, b);
    SolidAppend([Space], q);
    SolidOne(Space);
  }

  lemma ClausesSplit(cs: seq<Clause>, rest: Sql)
    requires cs != []
    ensures PrintClauses(cs) + rest == ([Space] + PrintClause(cs[0])) + (PrintClauses(cs[1..]) + rest)
  {
  }

  /** A run of clauses only adds to the text. */
  lemma {:induction false} RenderClauses(st: Rendered, cs: seq<Clause>, rest: Sql, values: Values) returns (b: Sql)
    requires GoodClauses(cs, values)
    requires Solid(rest) == [] || !Solid(rest)[0].Comma?
    ensures RenderFrom(st, PrintClauses(cs) + rest, values) == RenderFrom(st.(out := st.out + b), rest, values)
    ensures Solid(b) == KeptClauses(cs, values)
    ensures cs == [] ==> b == []
    ensures cs != [] ==> |b| > 1 && b[0] == Space && cs[0].head != [] && b[1] == cs[0].head[0]
    ensures Separated(b) <==> !AnyFuses(cs, values)
    decreases |cs|, 0
  {
    if cs == [] {
      b := [];
      assert PrintClauses(cs) + rest == rest && st.out + b == st.out;
    } else {
      var tail := cs[1..];
      assert GoodClause(cs[0], values) && GoodClauses(tail, values);
      ClausesStart(tail, rest, values);
      ClausesSplit(cs, rest);
      b := JoinClause(st, cs[0], tail, rest, values);
    }
  }

  /** Text behind white space adds no new neighbours. */
  lemma RunApart(q: Sql, b: Sql)
    requires b != [] ==> b[0].Space?
    ensures Separated([Space] + q + b) <==> Separated(q) && Separated(b)
  {
    SeparatedConcat([Space], q);
    SeparatedConcat([Space] + q, b);
  }

  lemma {:induction false} JoinClause(st: Rendered, c: Clause, tail: seq<Clause>, rest: Sql, values: Values)
    returns (b: Sql)
    requires GoodClause(c, values) && GoodClauses(tail, values)
    requires Solid(rest) == [] || !Solid(rest)[0].Comma?
    requires var s := Solid(PrintClauses(tail) + rest); s == [] || !s[0].Comma?
    ensures RenderFrom(st, ([Space] + PrintClause(c)) + (PrintClauses(tail) + rest), values)
            == RenderFrom(st.(out := st.out + b), rest, values)
    ensures Solid(b) == KeptClause(c, values) + KeptClauses(tail, values)
    ensures |b| > 1 && b[0] == Space && c.head != [] && b[1] == c.head[0]
    ensures Separated(b) <==> !ClauseFuses(c, values) && !AnyFuses(tail, values)
    decreases |tail|, 1
  {
    var q := RenderClause(st, c, PrintClauses(tail) + rest, values);
    var q1 := [Space] + q;
    assert |q1| > 1 && q1[0] == Space && q1[1] == q[0];
    var b1 := RenderClauses(st.(out := st.out + q1), tail, rest, values);
    b := q1 + b1;
    Assoc(st.out, q1, b1);
    SpaceBefore(q, b1);
    RunApart(q, b1);
  }
}
