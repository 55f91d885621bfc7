// Rendering a whole WHERE, and what the clean-up makes of it: the kept predicates in order with what stays of the
// others, or exactly when an emptied WHERE goes.
module SqlStreaming {
  import opened SqlRewrite
  import opened SqlText
  import opened SqlGone
  import opened SqlPrune
  import opened SqlWhere

  // ----- a WHERE keeps its shape -----

  ghost predicate GoodPreds(preds: seq<Pred>, values: Values) {
    forall i :: 0 <= i < |preds| ==> GoodPred(preds[i], values)
  }

  /** Text without connectors and without WHERE is calm. */
  lemma PlainIsCalm(s: Sql)
    requires forall i :: 0 <= i < |s| ==> !IsConn(s[i]) && s[i] != Key(Where)
    ensures Calm(s)
  {
    var w := Solid(s);
    forall i | 0 <= i < |w| ensures !IsConn(w[i]) && w[i] != Key(Where) {
      SolidMember(s, w[i]);
    }
  }

  lemma CalmConcat(a: Sql, b: Sql)
    requires Calm(a) && Calm(b)
    ensures Calm(a + b)
  {
    SolidAppend(a, b);
    ConnsHoldConcat(Solid(a), Solid(b));
  }

  lemma WithArgument(lead: Sql, closing: Sql, arg: Token)
    requires lead != [] && NoSys(lead) && Calm(lead) && Separated(lead) && !EndsWordy(lead) && arg.Arg?
    requires NoSys(closing) && Calm(closing) && Separated(closing)
    requires closing != [] ==> !Wordy(closing[0]) && !closing[|closing| - 1].Space?
    ensures var t := PrintTest(lead, arg, closing);
            NoSys(t) && Calm(t) && Separated(t) && t[0] == lead[0] && !t[|t| - 1].Space?
  {
    PlainIsCalm([arg]);
    CalmConcat(lead, [arg]);
    CalmConcat(lead + [arg], closing);
    SeparatedConcat(lead, [arg]);
    SeparatedConcat(lead + [arg], closing);
  }

  lemma TestIsGood(lead: Sql, closing: Sql, arg: Token)
    requires GoodLead(lead) && GoodClosing(lead, closing) && arg.Arg?
    ensures GoodText(PrintTest(lead, arg, closing))
  {
    LeadStarts(lead);
    WithArgument(lead, closing, arg);
  }

  lemma KeptIsGood(p: Pred, values: Values, n: nat)
    requires GoodPred(p, values)
    ensures GoodText(KeptPred(p, n))
  {
    if p.Test? { TestIsGood(p.lead, p.closing, Arg(n + 1, p.name)); }
  }

  lemma TextIsBody(t: Sql)
    requires GoodText(t)
    ensures GoodBody(t)
  {
    assert Solid(t)[0] == t[0];
  }

  /** What a skipped parenthesis leaves of calm, separated text. */
  lemma TailIsCalm(a: Sql, t: Token, b: Sql)
    requires Calm(a + [t] + b) && Separated(a + [t] + b) && !t.Space?
    ensures Calm(b) && Separated(b)
  {
    SolidAppend(a + [t], b);
    ConnsHoldEnd(Solid(a + [t]), Solid(b));
    forall i | 0 <= i < |Solid(b)| ensures Solid(b)[i] != Key(Where) {
      assert Solid(b)[i] == Solid(a + [t] + b)[|Solid(a + [t])| + i];
    }
    SeparatedConcat(a + [t], b);
  }

  lemma ConnsHoldEnd(u: Sql, v: Sql)
    requires ConnsHold(u + v)
    ensures ConnsHold(v)
  {
    forall i: nat ensures ConnHolds(v, i) { assert ConnHolds(u + v, |u| + i); }
  }

  /** What stays of a test goes on with it as a body of its own. */
  lemma LeftIsGood(p: Pred, values: Values)
    requires GoodPred(p, values)
    ensures Left(p) != [] ==> GoodBody(Left(p)) && Separated(Left(p))
  {
    if p.Test? && Left(p) != p.closing {
      var w := SkipSplits(p.closing, RParen);
      TailIsCalm(w, RParen, Left(p));
    }
  }

  lemma BodyStarts(b: Sql, more: Sql)
    requires GoodBody(b)
    ensures Solid(b + more) == Solid(b) + Solid(more) && Solid(b) != [] && StartsTest(b + more)
  {
    SolidAppend(b, more);
    SolidEnd(b);
  }

  lemma KeepIsGood(s: Shape, k: Sql)
    requires GoodShape(s) && GoodText(k)
    ensures GoodShape(Keep(s, k)) && !Keep(s, k).first
  {
    TextIsBody(k);
    if s.body == [] {
      assert [] + AND == AND && [Space] + [] == [Space];
    } else {
      AndCalm(s.body, k);
      Assoc(s.body, AND, k);
      BodyStarts(s.body, AND + k);
    }
  }

  lemma DropIsGood(s: Shape, r: Sql)
    requires GoodShape(s) && (r != [] ==> GoodBody(r))
    ensures GoodShape(Drop(s, r)) && !Drop(s, r).first
  {
    if s.body != [] && r != [] {
      CalmConcat(s.body, r);
      BodyStarts(s.body, r);
    } else if r == [] {
      assert s.body + r == s.body;
    }
  }

  // ----- rendering a whole WHERE -----

  /** The clause after its predicates, numbering placeholders from n + 1. */
  function Shaped(s: Shape, preds: seq<Pred>, values: Values, n: nat): Shape
    decreases |preds|
  {
    if preds == [] then s
    else if Dropped(preds[0], values) then Shaped(Drop(s, Left(preds[0])), preds[1..], values, n)
    else Shaped(Keep(s, KeptPred(preds[0], n)), preds[1..], values, if preds[0].Test? then n + 1 else n)
  }

  function PredsText(preds: seq<Pred>): Sql
    requires preds != []
  {
    PrintPred(preds[0]) + PrintMorePreds(preds[1..])
  }

  lemma TextSplit(sep: Sql, first: Sql, more: Sql, rest: Sql)
    ensures sep + (first + more) + rest == sep + first + (more + rest)
  {
  }

  /** A first predicate whose value is absent. */
  lemma FirstDropped(st: Rendered, A: Sql, s: Shape, preds: seq<Pred>, rest: Sql, values: Values)
    requires preds != [] && GoodShape(s) && GoodPred(preds[0], values) && Dropped(preds[0], values)
    requires st.out == A + WhereText(s)
    ensures var s1 := Drop(s, Left(preds[0]));
            && GoodShape(s1) && !s1.first
            && RenderFrom(st, Sep(s) + PredsText(preds) + rest, values) ==
               RenderFrom(st.(out := A + WhereText(s1)), PrintMorePreds(preds[1..]) + rest, values)
  {
    var more := PrintMorePreds(preds[1..]);
    TextSplit(Sep(s), PrintPred(preds[0]), more, rest);
    RenderDropped(st, A, s, preds[0], more + rest, values);
    LeftIsGood(preds[0], values);
    DropIsGood(s, Left(preds[0]));
  }

  /** A first predicate that is kept. */
  lemma FirstKept(st: Rendered, A: Sql, s: Shape, preds: seq<Pred>, rest: Sql, values: Values)
    requires preds != [] && GoodShape(s) && GoodPred(preds[0], values) && !Dropped(preds[0], values)
    requires st.out == A + WhereText(s)
    ensures var s1 := Keep(s, KeptPred(preds[0], |st.args|));
            && GoodShape(s1) && !s1.first
            && RenderFrom(st, Sep(s) + PredsText(preds) + rest, values) ==
               RenderFrom(Rendered(A + WhereText(s1), st.args + Binds(preds[0], values), st.missing),
                          PrintMorePreds(preds[1..]) + rest, values)
  {
    var more := PrintMorePreds(preds[1..]);
    TextSplit(Sep(s), PrintPred(preds[0]), more, rest);
    RenderKept(st, A, s, preds[0], more + rest, values);
    KeptIsGood(preds[0], values, |st.args|);
    KeepIsGood(s, KeptPred(preds[0], |st.args|));
  }

  lemma BindsOne(p: Pred, values: Values)
    requires GoodPred(p, values)
    ensures |Binds(p, values)| == if Dropped(p, values) || p.Fixed? then 0 else 1
  {
  }

  /** The state behind the first predicate, from which the others go on. */
  function AfterFirst(s: Shape, p: Pred, values: Values, n: nat): Shape {
    if Dropped(p, values) then Drop(s, Left(p)) else Keep(s, KeptPred(p, n))
  }

  lemma RenderFirst(st: Rendered, A: Sql, s: Shape, preds: seq<Pred>, rest: Sql, values: Values)
    requires preds != [] && GoodShape(s) && GoodPred(preds[0], values) && st.out == A + WhereText(s)
    ensures var s1 := AfterFirst(s, preds[0], values, |st.args|);
            && GoodShape(s1) && !s1.first
            && RenderFrom(st, Sep(s) + PredsText(preds) + rest, values) ==
               RenderFrom(Rendered(A + WhereText(s1), st.args + Binds(preds[0], values), st.missing),
                          PrintMorePreds(preds[1..]) + rest, values)
  {
    if Dropped(preds[0], values) {
      FirstDropped(st, A, s, preds, rest, values);
      assert st.args + [] == st.args;
    } else {
      FirstKept(st, A, s, preds, rest, values);
    }
  }

  /** Where the run of all predicates goes on behind the first. */
  lemma ShapedFirst(s: Shape, preds: seq<Pred>, values: Values, args: seq<ArgValue>)
    requires preds != [] && GoodPred(preds[0], values)
    ensures var args1 := args + Binds(preds[0], values);
            && Shaped(s, preds, values, |args|) ==
               Shaped(AfterFirst(s, preds[0], values, |args|), preds[1..], values, |args1|)
            && args + BoundArgs(preds, values) == args1 + BoundArgs(preds[1..], values)
  {
    BindsOne(preds[0], values);
    Assoc(args, Binds(preds[0], values), BoundArgs(preds[1..], values));
  }

  /** A whole conjunction: its clause takes the shape that its predicates give it one by one, and the arguments
      are those of the kept tests in order. */
  lemma {:induction false} RenderPreds(st: Rendered, A: Sql, s: Shape, preds: seq<Pred>, rest: Sql, values: Values)
    requires preds != [] && GoodShape(s) && GoodPreds(preds, values) && st.out == A + WhereText(s)
    ensures var s' := Shaped(s, preds, values, |st.args|);
            && GoodShape(s')
            && RenderFrom(st, Sep(s) + PredsText(preds) + rest, values) ==
               RenderFrom(Rendered(A + WhereText(s'), st.args + BoundArgs(preds, values), st.missing), rest, values)
    decreases |preds|
  {
    var tail := preds[1..];
    var s1 := AfterFirst(s, preds[0], values, |st.args|);
    var st1 := Rendered(A + WhereText(s1), st.args + Binds(preds[0], values), st.missing);
    RenderFirst(st, A, s, preds, rest, values);
    ShapedFirst(s, preds, values, st.args);
    if tail == [] {
      assert [] + rest == rest && st1.args + [] == st1.args;
    } else {
      assert GoodPreds(tail, values);
      MoreText(tail);
      RenderPreds(st1, A, s1, tail, rest, values);
    }
  }

  lemma MoreText(preds: seq<Pred>)
    requires preds != []
    ensures PrintMorePreds(preds) == AND + PredsText(preds)
  {
    Assoc(AND, PrintPred(preds[0]), PrintMorePreds(preds[1..]));
  }

  // ----- the clean-up -----

  ghost predicate Whereless(s: Sql) {
    forall i :: 0 <= i < |s| ==> s[i] != Key(Where)
  }

  lemma CalmIsWhereless(s: Sql)
    requires NoWhere(Solid(s))
    ensures Whereless(s)
  {
    forall i | 0 <= i < |s| ensures s[i] != Key(Where) {
      SolidMember(s, Key(Where));
    }
  }

  lemma {:induction false} CollapseAfter(A: Sql, r: Sql)
    requires Whereless(A)
    ensures CollapseWhereConn(A + r) == A + CollapseWhereConn(r)
  {
    if A == [] {
      assert A + r == r;
    } else {
      assert (A + r)[1..] == A[1..] + r;
      CollapseAfter(A[1..], r);
    }
  }

  lemma {:induction false} DanglingAfter(A: Sql, r: Sql)
    requires Whereless(A)
    ensures DropDanglingWhere(A + r) == A + DropDanglingWhere(r)
  {
    if A == [] {
      assert A + r == r;
    } else {
      assert (A + r)[1..] == A[1..] + r;
      DanglingAfter(A[1..], r);
    }
  }

  lemma {:induction false} SolidFrom(s: Sql, n: nat)
    requires n <= LeadSpaces(s)
    ensures Solid(s[n..]) == Solid(s)
  {
    if n > 0 {
      SolidFrom(s[1..], n - 1);
      assert s[1..][n - 1..] == s[n..];
    } else {
      assert s[0..] == s;
    }
  }

  /** A text of a leading spaces, a connector, and b more spaces. */
  lemma LooseParts(s: Sql, a: nat, b: nat)
    requires a < |s| && IsConn(s[a]) && a + 1 + b <= |s|
    requires Solid(s[a..]) == Solid(s) && Solid(s[a + 1..][b..]) == Solid(s[a + 1..])
    ensures Solid(s) == [s[a]] + Solid(s[a + 1 + b..])
  {
    assert s[a..][0] == s[a] && s[a..][1..] == s[a + 1..];
    assert s[a + 1..][b..] == s[a + 1 + b..];
  }

  lemma LooseSolid(s: Sql) returns (c: Token)
    requires LooseConnector(s) > 0
    ensures IsConn(c) && Solid(s) == [c] + Solid(s[LooseConnector(s)..])
  {
    var a := LeadSpaces(s);
    var b := LeadSpaces(s[a + 1..]);
    SolidFrom(s, a);
    SolidFrom(s[a + 1..], b);
    LooseParts(s, a, b);
    c := s[a];
  }

  lemma EndedIsNotHeld(c: Token, rest: Sql)
    requires IsConn(c) && ClauseEnds(rest)
    ensures !ConnsHold([c] + Solid(rest))
  {
    assert rest != [] ==> Solid(rest)[0] == rest[0];
    assert !ConnHolds([c] + Solid(rest), 0);
  }

  /** No connector is loose when each has something of its clause after it. */
  lemma {:induction false} TrailingCalm(s: Sql)
    requires ConnsHold(Solid(s))
    ensures DropTrailingConn(s) == s
  {
    if s != [] {
      var n := LooseConnector(s);
      if n > 0 && ClauseEnds(s[n..]) {
        var c := LooseSolid(s);
        EndedIsNotHeld(c, s[n..]);
        assert false;
      }
      ConnsHoldTail(s);
      TrailingCalm(s[1..]);
    }
  }

  lemma ConnsHoldTail(s: Sql)
    requires s != [] && ConnsHold(Solid(s))
    ensures ConnsHold(Solid(s[1..]))
  {
    var w, v := Solid(s), Solid(s[1..]);
    var d := |w| - |v|;
    assert w == w[..d] + v;
    forall i: nat ensures ConnHolds(v, i) { assert ConnHolds(w, d + i); }
  }

  lemma ConnsHoldConcat(u: Sql, v: Sql)
    requires ConnsHold(u) && ConnsHold(v)
    ensures ConnsHold(u + v)
  {
    forall i: nat ensures ConnHolds(u + v, i) {
      if i < |u| { assert ConnHolds(u, i); } else { assert ConnHolds(v, i - |u|); }
    }
  }

  lemma CollapseCalm(s: Sql)
    requires Whereless(s)
    ensures CollapseWhereConn(s) == s && DropDanglingWhere(s) == s
  {
    CollapseAfter(s, []);
    DanglingAfter(s, []);
    assert s + [] == s;
  }

  /** Calm text is left alone. */
  lemma CleanCalm(s: Sql)
    requires Calm(s)
    ensures Clean(s) == s
  {
    CalmIsWhereless(s);
    CollapseCalm(s);
    TrailingCalm(s);
  }

  lemma ConnBefore(t: Token, w: Sql)
    requires IsConn(t) && w != [] && !IsClauseKey(w[0]) && ConnsHold(w) && NoWhere(w)
    ensures ConnsHold([t] + w) && NoWhere([t] + w)
  {
    forall i: nat ensures ConnHolds([t] + w, i) {
      if i > 0 { assert ConnHolds(w, i - 1); }
    }
  }

  /** One more predicate behind an AND. */
  lemma AndCalm(front: Sql, k: Sql)
    requires Calm(front) && GoodText(k)
    ensures Calm(front + AND + k)
  {
    SolidAppend(front + AND, k);
    SolidAppend(front, AND);
    SolidAnd();
    assert Solid(k)[0] == k[0];
    ConnBefore(Key(And), Solid(k));
    ConnsHoldConcat(Solid(front), [Key(And)] + Solid(k));
    Assoc(Solid(front), [Key(And)], Solid(k));
  }

  lemma SolidAnd()
    ensures Solid(AND) == [Key(And)]
  {
    assert AND[1..] == [Key(And), Space] && AND[1..][1..] == [Space] && [Space][1..] == [];
  }

  lemma OneSpace(x: Sql)
    requires x == [] || !x[0].Space?
    ensures LeadSpaces(x) == 0 && LeadSpaces([Space] + x) == 1 && LeadSpaces([Space, Space] + x) == 2
  {
    assert ([Space] + x)[1..] == x;
    assert ([Space, Space] + x)[1..] == [Space] + x;
  }

  lemma LeadOne(x: Sql)
    requires x != [] && !x[0].Space?
    ensures LooseConnector(AND + x) == 3 && (AND + x)[3..] == x
  {
    var l := AND + x;
    assert l == [Space] + ([Key(And), Space] + x);
    OneSpace([Key(And), Space] + x);
    OneSpace(x);
    assert l[2..] == [Space] + x;
  }

  lemma LeadTwo(x: Sql)
    requires x != [] && !x[0].Space?
    ensures LooseConnector([Space] + AND + x) == 4 && ([Space] + AND + x)[4..] == x
  {
    var l := [Space] + AND + x;
    assert l == [Space, Space] + ([Key(And), Space] + x);
    OneSpace([Key(And), Space] + x);
    OneSpace(x);
    assert l[3..] == [Space] + x;
  }

  lemma DebrisLength(several: bool, x: Sql)
    requires x != [] && !x[0].Space?
    ensures var d := Debris(several) + x; LooseConnector(d) == |Debris(several)| && d[|Debris(several)|..] == x
  {
    if several { LeadOne(x); } else { LeadTwo(x); }
  }

  /** A text from WHERE on, with the debris of the absent leading predicates, collapses to a clean one. */
  lemma CollapseDebris(several: bool, x: Sql)
    requires x != [] && !x[0].Space? && Whereless(x)
    ensures CollapseWhereConn([Key(Where)] + (Debris(several) + x)) == [Key(Where), Space] + x
  {
    var l := Debris(several) + x;
    var s := [Key(Where)] + l;
    assert s[1..] == l;
    DebrisLength(several, x);
    CollapseCalm(x);
    var n := LooseConnector(l);
    assert s[1 + n..] == l[n..];
  }

  /** One cleaning pass takes the debris away. */
  lemma PassDebris(A: Sql, several: bool, x: Sql)
    requires Calm(A) && Calm(x) && x != [] && !x[0].Space?
    ensures CleanPass(A + ([Key(Where)] + (Debris(several) + x))) == A + ([Key(Where), Space] + x)
  {
    CalmIsWhereless(A);
    CalmIsWhereless(x);
    CollapseAfter(A, [Key(Where)] + (Debris(several) + x));
    CollapseDebris(several, x);
    SolidWhere(A, x);
    ConnsHoldConcat(Solid(A), [Key(Where)]);
    ConnsHoldConcat(Solid(A) + [Key(Where)], Solid(x));
    TrailingCalm(A + ([Key(Where), Space] + x));
  }

  /** Behind white space, text that starts a test is no loose connector and ends no clause. */
  lemma StartsAfterWhite(gap: Sql, x: Sql)
    requires White(gap) && StartsTest(x) && Solid(x) != []
    ensures var r := gap + x; LooseConnector(r) == 0 && !ClauseEnds(r[LeadSpaces(r)..]) && Solid(r) == Solid(x)
  {
    var r := gap + x;
    SolidAppend(gap, x);
    WhiteIsNotSolid(gap);
    if LooseConnector(r) > 0 { var c := LooseSolid(r); }
    FirstBehindSpaces(r);
  }

  lemma {:induction false} FirstBehindSpaces(s: Sql)
    requires Solid(s) != []
    ensures LeadSpaces(s) < |s| && s[LeadSpaces(s)] == Solid(s)[0] && s[LeadSpaces(s)..] != []
    ensures s[LeadSpaces(s)..][0] == Solid(s)[0]
  {
    if s[0].Space? { FirstBehindSpaces(s[1..]); }
  }

  /** A WHERE with white space and a predicate behind it is left alone. */
  lemma CleanWhite(A: Sql, gap: Sql, x: Sql)
    requires Calm(A) && Calm(x) && White(gap) && StartsTest(x) && Solid(x) != []
    ensures Clean(A + ([Key(Where)] + (gap + x))) == A + ([Key(Where)] + (gap + x))
  {
    StartsAfterWhite(gap, x);
    CalmIsWhereless(A);
    CalmIsWhereless(gap + x);
    CleanAtWhere(A, gap + x, LeadSpaces(gap + x));
  }

  lemma CleanedOnce(t: Sql)
    requires CleanPass(CleanPass(t)) == CleanPass(t)
    ensures CleanFix(t) == CleanFix(CleanPass(t)) && Clean(t) == Clean(CleanPass(t))
  {
  }

  lemma SpaceIsNoDebris(x: Sql)
    ensures [Key(Where), Space] + x == [Key(Where)] + ([Space] + x)
  {
  }

  /** Cleaning a WHERE with debris before its first predicate. */
  lemma CleanDebris(A: Sql, several: bool, x: Sql)
    requires Calm(A) && Calm(x) && x != [] && !x[0].Space? && StartsTest(x)
    ensures Clean(A + ([Key(Where)] + (Debris(several) + x))) == A + ([Key(Where)] + ([Space] + x))
  {
    var t := A + ([Key(Where)] + ([Space] + x));
    SpaceIsNoDebris(x);
    PassDebris(A, several, x);
    StartsAfterWhite([Space], x);
    CalmIsWhereless(A);
    CalmIsWhereless([Space] + x);
    PassUntouched(A, [Space] + x);
    CleanWhite(A, [Space], x);
    CleanedOnce(A + ([Key(Where)] + (Debris(several) + x)));
  }

  /** What the clean-up leaves between WHERE and the first text behind it. */
  function CleanGap(s: Shape): Sql {
    if s.gap == [] then [] else [Space]
  }

  /** The clean-up of a WHERE with something left behind it leaves exactly that. */
  lemma CleanKept(A: Sql, s: Shape, b: Sql)
    requires GoodShape(s) && s.body != [] && Calm(A) && Calm(b)
    ensures Clean(A + (WhereText(s) + b)) == A + ([Key(Where)] + (CleanGap(s) + (s.body + b)))
  {
    var x := s.body + b;
    CalmConcat(s.body, b);
    BodyStarts(s.body, b);
    assert WhereText(s) + b == [Key(Where)] + (s.gap + x);
    if s.gap == [] || s.gap == [Space] {
      CleanWhite(A, s.gap, x);
    } else if s.gap == Debris(false) {
      CleanDebris(A, false, x);
    } else {
      CleanDebris(A, true, x);
    }
  }

  lemma SolidWhere(A: Sql, x: Sql)
    ensures Solid(A + ([Key(Where), Space] + x)) == Solid(A) + [Key(Where)] + Solid(x)
  {
    SolidAppend(A, [Key(Where), Space] + x);
    SolidAppend([Key(Where), Space], x);
    assert [Key(Where), Space][1..] == [Space] && [Space][1..] == [];
  }

  // ----- a WHERE that keeps nothing -----

  /** The clean-up takes an empty WHERE away only before a clause keyword, or at the end of the text and
      then only while a space is left after it. */
  predicate WhereGoes(gap: Sql, next: Sql) {
    if next == [] then gap != [] else next[0] in {Key(Group), Key(Order), Key(Limit), Key(Having)}
  }

  /** The rest of the text after an emptied WHERE. */
  lemma EmptyTail(gap: Sql, b: Sql) returns (r: Sql, n: nat)
    requires gap in {[Space], []}
    requires b != [] ==> |b| > 1 && b[0] == Space && !b[1].Space? && !IsConn(b[1])
    ensures r == gap + b && n == LeadSpaces(r)
    ensures LooseConnector(r) == 0
    ensures r[n..] == (if b == [] then [] else b[1..]) && Solid(r[n..]) == Solid(b)
    ensures n > 0 <==> gap != [] || b != []
  {
    r := gap + b;
    n := LeadSpaces(r);
    if b == [] {
      assert r == gap;
      OneSpace([]);
      assert [Space] + [] == [Space];
    } else {
      var tail := b[1..];
      assert b == [Space] + tail;
      OneSpace(tail);
      if gap != [] { assert r == [Space, Space] + tail; } else { assert r == [Space] + tail; }
    }
  }

  lemma SolidKey(A: Sql, r: Sql)
    ensures Solid(A + ([Key(Where)] + r)) == Solid(A) + [Key(Where)] + Solid(r)
  {
    SolidAppend(A, [Key(Where)] + r);
    SolidAppend([Key(Where)], r);
    SolidOne(Key(Where));
  }

  lemma ConnsHoldAround(u: Sql, v: Sql)
    requires ConnsHold(u) && ConnsHold(v)
    ensures ConnsHold(u + [Key(Where)] + v)
  {
    ConnsHoldConcat(u, [Key(Where)]);
    ConnsHoldConcat(u + [Key(Where)], v);
  }

  /** No pass touches a WHERE without a loose connector behind it. */
  lemma PassUntouched(A: Sql, r: Sql)
    requires Whereless(A) && ConnsHold(Solid(A)) && ConnsHold(Solid(r)) && Whereless(r) && LooseConnector(r) == 0
    ensures CleanPass(A + ([Key(Where)] + r)) == A + ([Key(Where)] + r)
  {
    var w := [Key(Where)] + r;
    assert CollapseWhereConn(w) == w by {
      CollapseCalm(r);
      assert w[1..] == r;
    }
    CollapseAfter(A, w);
    SolidKey(A, r);
    ConnsHoldAround(Solid(A), Solid(r));
    TrailingCalm(A + w);
  }

  lemma DanglingEmpty(r: Sql, n: nat)
    requires Whereless(r) && n == LeadSpaces(r)
    ensures DropDanglingWhere([Key(Where)] + r) == if n > 0 && ClauseEnds(r[n..]) then r[n..] else [Key(Where)] + r
  {
    var w := [Key(Where)] + r;
    assert w[1..] == r && w[1 + n..] == r[n..];
    CollapseCalm(r);
    CollapseCalm(r[n..]);
  }

  lemma CleanAtWhere(A: Sql, r: Sql, n: nat)
    requires Whereless(A) && ConnsHold(Solid(A)) && Whereless(r) && ConnsHold(Solid(r))
    requires LooseConnector(r) == 0 && n == LeadSpaces(r)
    ensures Clean(A + ([Key(Where)] + r)) == if n > 0 && ClauseEnds(r[n..]) then A + r[n..] else A + ([Key(Where)] + r)
  {
    PassUntouched(A, r);
    DanglingEmpty(r, n);
    DanglingAfter(A, [Key(Where)] + r);
  }

  lemma CleanEmpty(A: Sql, gap: Sql, b: Sql) returns (out: Sql)
    requires Whereless(A) && ConnsHold(Solid(A)) && Whereless(b) && ConnsHold(Solid(b)) && gap in {[Space], []}
    requires b != [] ==> |b| > 1 && b[0] == Space && !b[1].Space? && !IsConn(b[1])
    ensures Clean(A + ([Key(Where)] + (gap + b))) == out
    ensures Solid(out) == Solid(A) + (if WhereGoes(gap, if b == [] then [] else b[1..]) then [] else [Key(Where)]) + Solid(b)
    ensures !EndsWordy(A) ==> (Separated(out) <==> Separated(A) && Separated(b))
  {
    var r, n := EmptyTail(gap, b);
    assert Solid(r) == Solid(b) by { SolidFrom(r, n); }
    CleanAtWhere(A, r, n);
    out := if n > 0 && ClauseEnds(r[n..]) then A + r[n..] else A + ([Key(Where)] + r);
    SolidAppend(A, r[n..]);
    SolidKey(A, r);
    assert [] + Solid(b) == Solid(b) && Solid(A) + [] == Solid(A);
    assert WhereGoes(gap, if b == [] then [] else b[1..]) <==> n > 0 && ClauseEnds(r[n..]);
    EmptyApart(A, gap, b, r, n);
  }

  lemma SpacedTail(A: Sql, b: Sql)
    requires !EndsWordy(A) && (b != [] ==> b[0] == Space)
    ensures Separated(A + (if b == [] then [] else b[1..])) <==> Separated(A) && Separated(b)
  {
    if b != [] {
      assert b == [Space] + b[1..];
      SeparatedConcat([Space], b[1..]);
      SeparatedConcat(A, b[1..]);
    } else {
      assert A + [] == A;
    }
  }

  lemma WhereTail(A: Sql, gap: Sql, b: Sql)
    requires !EndsWordy(A) && gap in {[Space], []} && (b != [] ==> b[0] == Space)
    ensures Separated(A + ([Key(Where)] + (gap + b))) <==> Separated(A) && Separated(b)
  {
    SeparatedConcat(A, [Key(Where)] + (gap + b));
    SeparatedConcat([Key(Where)], gap + b);
    SeparatedConcat(gap, b);
  }

  lemma EmptyApart(A: Sql, gap: Sql, b: Sql, r: Sql, n: nat)
    requires n <= |r| && gap in {[Space], []} && r == gap + b && r[n..] == (if b == [] then [] else b[1..])
    requires b != [] ==> b[0] == Space
    ensures !EndsWordy(A) ==> (Separated(A + r[n..]) <==> Separated(A) && Separated(b))
    ensures !EndsWordy(A) ==> (Separated(A + ([Key(Where)] + r)) <==> Separated(A) && Separated(b))
  {
    if !EndsWordy(A) {
      SpacedTail(A, b);
      WhereTail(A, gap, b);
    }
  }
}
