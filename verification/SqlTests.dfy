// The predicate an absent value takes with it: what the regular expression of dropOptionalValuePredicate
// accepts, stated as a grammar, and that the rewriter's backward search finds its leftmost match.
module SqlTests {
  import opened Wrappers
  import opened SqlRewrite
  import opened SqlText

  // ----- the grammar -----

  predicate NameToken(t: Token) {
    WordLike(t) || t.Dot?
  }

  /** One quoted identifier, or a bare one with dots. */
  ghost predicate IsName(n: Sql) {
    || (|n| == 1 && n[0].Quoted?)
    || (n != [] && WordLike(n[0]) && forall i :: 0 <= i < |n| ==> NameToken(n[i]))
  }

  predicate OperatorToken(t: Token) {
    t.Op? || t in {Key(In), Key(Like), Key(ILike), Key(Is)}
  }

  /** A comparison, in, like, ilike, is, or `not` with in or like behind it. */
  ghost predicate IsOperator(op: Sql) {
    || (|op| == 1 && OperatorToken(op[0]))
    || (|op| > 2 && op[0] == Key(Not) && White(op[1..|op| - 1]) && op[|op| - 1] in {Key(In), Key(Like)})
  }

  /** A name and an operator, with white space or none between them. */
  ghost predicate IsComparison(c: Sql) {
    exists n: Sql, w: Sql, op: Sql :: IsName(n) && White(w) && IsOperator(op) && c == n + w + op
  }

  /** What may stand between the operator and its value: `any`, `(`, and white space. */
  ghost predicate IsOpening(o: Sql) {
    Solid(o) == [] || Solid(o) == [Key(Any)] || Solid(o) == [LParen] || Solid(o) == [Key(Any), LParen]
  }

  /** A test of a value: everything from its operand up to where the value stands. */
  ghost predicate IsTest(p: Sql) {
    exists c: Sql, o: Sql :: IsComparison(c) && IsOpening(o) && p == c + o
  }

  /** Text that begins with a bare `not in` or `not like`: what stands before it is taken for its operand. */
  predicate Negation(p: Sql) {
    |p| > 1 && p[0] == Key(Not) && p[1].Space? && |Solid(p)| > 1 && Solid(p)[1] in {Key(In), Key(Like)}
  }

  /** No identifier that begins at k continues one that stands before it. */
  predicate Boundary(s: Sql, k: nat) {
    k < |s| ==> k == 0 || !NameToken(s[k - 1]) || s[k].Quoted?
  }

  // ----- operands -----

  lemma {:induction false} TakeRunSound(s: Sql)
    requires TakeRun(s).Some?
    ensures var h := TakeRun(s).value;
            && h <= s && |h| < |s| && WordLike(s[|h|])
            && forall i :: |h| <= i < |s| ==> NameToken(s[i])
  {
    var front := s[..|s| - 1];
    if TakeRun(front).Some? { TakeRunSound(front); }
  }

  lemma {:induction false} TakeRunComplete(s: Sql, k: nat)
    requires k < |s| && WordLike(s[k]) && forall i :: k <= i < |s| ==> NameToken(s[i])
    ensures TakeRun(s).Some? && |TakeRun(s).value| <= k
  {
    if k < |s| - 1 { TakeRunComplete(s[..|s| - 1], k); } else { TakeRunSound(s); }
  }

  /** The operand found is a name, and no name at the end begins before it. */
  lemma OperandSound(s: Sql)
    requires DropOperand(s).Some?
    ensures var h := DropOperand(s).value; h <= s && |h| < |s| && IsName(s[|h|..])
  {
    if !s[|s| - 1].Quoted? { TakeRunSound(s); }
  }

  lemma OperandComplete(s: Sql, k: nat)
    requires k < |s| && IsName(s[k..])
    ensures DropOperand(s).Some? && |DropOperand(s).value| <= k
    ensures Boundary(s, k) ==> DropOperand(s).value == s[..k]
  {
    var n := s[k..];
    assert s[|s| - 1] == n[|n| - 1];
    if !s[|s| - 1].Quoted? {
      forall i | k <= i < |s| ensures NameToken(s[i]) { assert s[i] == n[i - k]; }
      TakeRunComplete(s, k);
      TakeRunSound(s);
    }
  }

  lemma NameEnds(n: Sql)
    requires IsName(n)
    ensures n != [] && (NameToken(n[|n| - 1]) || n[|n| - 1].Quoted?)
  {
  }

  /** The operand in front of white space. */
  lemma OperandBefore(g: Sql, n: Sql, w: Sql)
    requires IsName(n) && White(w)
    ensures StripSpaces(g + n + w) == g + n
    ensures DropOperand(g + n).Some? && |DropOperand(g + n).value| <= |g|
    ensures Boundary(g + n, |g|) ==> DropOperand(g + n).value == g
  {
    NameEnds(n);
    assert (g + n)[|g + n| - 1] == n[|n| - 1];
    StripWhite(g + n, w);
    assert (g + n)[|g|..] == n && (g + n)[..|g|] == g;
    OperandComplete(g + n, |g|);
  }

  // ----- operators -----

  /** What is tried for `not in` and `not like` before `not` is taken for an operand. */
  function Negated(front: Sql): Option<Sql> {
    var beforeNot := StripSpaces(front);
    if beforeNot != front && EndsWith(beforeNot, Key(Not))
    then DropOperand(StripSpaces(beforeNot[..|beforeNot| - 1])) else None
  }

  lemma DropTestCases(front: Sql, t: Token)
    ensures DropTest(front + [t]) ==
            if t == Key(In) || t == Key(Like) then
              if Negated(front).Some? then Negated(front) else DropOperand(StripSpaces(front))
            else if OperatorToken(t) then DropOperand(StripSpaces(front))
            else None
  {
    Front(front, t);
  }

  lemma SingleOperator(t: Token)
    requires OperatorToken(t)
    ensures IsOperator([t])
  {
  }

  /** An operand found in front of an operator makes a comparison with it. */
  lemma ComparisonFound(front: Sql, w: Sql, op: Sql)
    requires DropOperand(front).Some? && White(w) && IsOperator(op)
    ensures var h := DropOperand(front).value; h <= front + w + op && IsComparison((front + w + op)[|h|..])
  {
    OperandSound(front);
    var h := DropOperand(front).value;
    var n := front[|h|..];
    assert (front + w + op)[|h|..] == n + w + op;
  }

  lemma NegatedSound(front: Sql, t: Token)
    requires Negated(front).Some? && t in {Key(In), Key(Like)}
    ensures var h := Negated(front).value; h <= front + [t] && IsComparison((front + [t])[|h|..])
  {
    var w2 := StripParts(front);
    var beforeNot := StripSpaces(front);
    var x := beforeNot[..|beforeNot| - 1];
    assert beforeNot == x + [Key(Not)];
    var w1 := StripParts(x);
    var y := StripSpaces(x);
    var op := [Key(Not)] + w2 + [t];
    assert w2 != [];
    assert op[1..|op| - 1] == w2;
    ComparisonFound(y, w1, op);
    assert y + w1 + op == front + [t];
  }

  lemma DropTestSound(s: Sql)
    requires DropTest(s).Some?
    ensures var h := DropTest(s).value; h <= s && IsComparison(s[|h|..])
  {
    var front, t := s[..|s| - 1], s[|s| - 1];
    assert s == front + [t];
    DropTestCases(front, t);
    if t in {Key(In), Key(Like)} && Negated(front).Some? {
      NegatedSound(front, t);
    } else {
      var w := StripParts(front);
      SingleOperator(t);
      ComparisonFound(StripSpaces(front), w, [t]);
    }
  }

  /** When the operand itself ends in `not`, what is found begins no later than it. */
  lemma NegatedStaysBehind(g: Sql, n: Sql, w: Sql)
    requires IsName(n) && White(w) && Negated(g + n + w).Some?
    ensures |Negated(g + n + w).value| <= |g|
    ensures Boundary(g + n, |g|) && n != [Key(Not)] ==> Negated(g + n + w).value == g
  {
    OperandBefore(g, n, w);
    var m := n[..|n| - 1];
    assert n == m + [Key(Not)] by { assert n[|n| - 1] == (g + n)[|g + n| - 1]; }
    assert (g + n)[..|g + n| - 1] == g + m;
    if m == [] {
      assert g + m == g;
      StripPrefix(g);
      OperandSound(StripSpaces(g));
    } else {
      assert IsName(m);
      OperandBefore(g, m, []);
      assert g + m + [] == g + m;
      assert Boundary(g + n, |g|) ==> Boundary(g + m, |g|);
    }
  }

  /** The operand is a `not` that belongs to its operator. */
  predicate Negates(n: Sql, w: Sql, op: Sql) {
    n == [Key(Not)] && w != [] && op != [] && op[0] in {Key(In), Key(Like)}
  }

  /** A comparison at the end is found, or one that begins earlier. */
  lemma DropTestComplete(g: Sql, n: Sql, w: Sql, op: Sql)
    requires IsName(n) && White(w) && IsOperator(op)
    ensures DropTest(g + n + w + op).Some? && |DropTest(g + n + w + op).value| <= |g|
    ensures Boundary(g + n, |g|) && !Negates(n, w, op) ==> DropTest(g + n + w + op).value == g
  {
    OperandBefore(g, n, w);
    if |op| == 1 {
      assert op == [op[0]];
      DropTestCases(g + n + w, op[0]);
      if Negated(g + n + w).Some? { NegatedStaysBehind(g, n, w); }
    } else {
      var w2, t := op[1..|op| - 1], op[|op| - 1];
      var b := g + n + w + [Key(Not)];
      assert g + n + w + op == b + w2 + [t];
      DropTestCases(b + w2, t);
      StripWhite(b, w2);
      Front(g + n + w, Key(Not));
      assert Negated(b + w2) == DropOperand(g + n);
    }
  }

  // ----- the opening -----

  /** Taking one token and the white space around it off the end. */
  lemma UnwrapParts(s: Sql, t: Token) returns (o: Sql)
    requires !t.Space?
    ensures s == Unwrap(s, t) + o && (Solid(o) == [] || Solid(o) == [t])
  {
    if EndsWith(s, t) {
      var front := s[..|s| - 1];
      var w := StripParts(front);
      o := w + [t];
      assert s == front + [t];
      Assoc(StripSpaces(front), w, [t]);
      SolidAppend(w, [t]);
      SolidOne(t);
      WhiteIsNotSolid(w);
    } else {
      o := [];
      assert s + [] == s;
    }
  }

  lemma OpeningFound(e: Sql) returns (o: Sql)
    ensures e == Unwrap(Unwrap(StripSpaces(e), LParen), Key(Any)) + o && IsOpening(o)
  {
    var w := StripParts(e);
    var s := StripSpaces(e);
    var o1 := UnwrapParts(s, LParen);
    var o2 := UnwrapParts(Unwrap(s, LParen), Key(Any));
    var x := Unwrap(Unwrap(s, LParen), Key(Any));
    o := o2 + o1 + w;
    Assoc(x, o2, o1);
    Assoc(x, o2 + o1, w);
    SolidAppend(o2 + o1, w);
    SolidAppend(o2, o1);
    WhiteIsNotSolid(w);
  }

  ghost predicate ClosedEnd(x: Sql) {
    x != [] && var last := x[|x| - 1]; !last.Space? && !last.LParen? && last != Key(Any)
  }

  lemma StripOpening(x: Sql, o: Sql, t: Token) returns (front: Sql)
    requires Solid(o) != [] && Solid(o)[|Solid(o)| - 1] == t && x != [] && !x[|x| - 1].Space?
    ensures Unwrap(StripSpaces(x + o), t) == StripSpaces(x + front) && Solid(front) == Solid(o)[..|Solid(o)| - 1]
  {
    var w;
    front, w := LastSolid(o);
    assert x + o == x + front + [t] + w;
    SolidMember(o, t);
    StripWhite(x + front + [t], w);
    Front(x + front, t);
  }

  lemma OpeningOff(x: Sql, o: Sql)
    requires ClosedEnd(x) && IsOpening(o)
    ensures Unwrap(Unwrap(StripSpaces(x + o), LParen), Key(Any)) == x
  {
    if LParen in Solid(o) {
      var front := StripOpening(x, o, LParen);
      AnyOff(x, front);
    } else {
      AnyOff(x, o);
      if Solid(o) == [] {
        WhiteIsNotSolid(o);
        StripWhite(x, o);
      } else {
        SolidEnd(o);
        StripAfter(x, o);
      }
    }
  }

  lemma AnyOff(x: Sql, o: Sql)
    requires ClosedEnd(x) && (Solid(o) == [] || Solid(o) == [Key(Any)])
    ensures Unwrap(StripSpaces(x + o), Key(Any)) == x
  {
    if Solid(o) == [] {
      WhiteIsNotSolid(o);
      StripWhite(x, o);
    } else {
      var front := StripOpening(x, o, Key(Any));
      WhiteIsNotSolid(front);
      StripWhite(x, front);
    }
  }

  lemma ComparisonEnds(n: Sql, w: Sql, op: Sql)
    requires IsName(n) && IsOperator(op)
    ensures ClosedEnd(n + w + op) && OperatorToken((n + w + op)[|n + w + op| - 1]) && (n + w + op)[0] == n[0]
  {
    assert (n + w + op)[|n + w + op| - 1] == op[|op| - 1];
  }

  // ----- the search finds the leftmost test -----

  lemma TestFrom(x: Sql, o: Sql, k: nat)
    requires k <= |x| && IsComparison(x[k..]) && IsOpening(o)
    ensures IsTest((x + o)[k..]) && x[..k] <= x + o
  {
    assert (x + o)[k..] == x[k..] + o;
  }

  lemma HeadIsTest(e: Sql)
    requires PredicateHead(e).Some?
    ensures var h := PredicateHead(e).value; h <= e && IsTest(e[|h|..])
  {
    var x := Unwrap(Unwrap(StripSpaces(e), LParen), Key(Any));
    var o := OpeningFound(e);
    DropTestSound(x);
    var h := DropTest(x).value;
    assert h == x[..|h|];
    TestFrom(x, o, |h|);
  }

  /** A test that ends the text is found, or one that begins earlier. */
  lemma PartsAreFound(g: Sql, n: Sql, w: Sql, op: Sql, o: Sql)
    requires IsName(n) && White(w) && IsOperator(op) && IsOpening(o)
    ensures var e := g + n + w + op + o;
            && PredicateHead(e).Some? && |PredicateHead(e).value| <= |g|
            && (Boundary(g + n, |g|) && !Negates(n, w, op) ==> PredicateHead(e).value == g)
  {
    ComparisonEnds(n, w, op);
    var x := g + n + w + op;
    assert x == g + (n + w + op);
    OpeningOff(x, o);
    DropTestComplete(g, n, w, op);
  }

  lemma TestParts(p: Sql) returns (n: Sql, w: Sql, op: Sql, o: Sql)
    requires IsTest(p)
    ensures IsName(n) && White(w) && IsOperator(op) && IsOpening(o) && p == n + w + op + o && n[0] == p[0]
  {
    var c: Sql;
    c, o :| IsComparison(c) && IsOpening(o) && p == c + o;
    n, w, op :| IsName(n) && White(w) && IsOperator(op) && c == n + w + op;
  }

  lemma Regrouped(g: Sql, n: Sql, w: Sql, op: Sql, o: Sql)
    ensures g + (n + w + op + o) == g + n + w + op + o
  {
  }

  lemma NegationStarts(w: Sql, op: Sql, o: Sql)
    requires White(w) && w != [] && IsOperator(op) && op[0] in {Key(In), Key(Like)}
    ensures Negation([Key(Not)] + w + op + o)
  {
    var p := [Key(Not)] + w + op + o;
    assert op == [op[0]];
    SolidAppend([Key(Not)] + w + op, o);
    SolidAppend([Key(Not)] + w, op);
    SolidAppend([Key(Not)], w);
    SolidOne(Key(Not));
    SolidOne(op[0]);
    WhiteIsNotSolid(w);
    assert Solid(p) == [Key(Not), op[0]] + Solid(o);
    assert p[1] == w[0];
  }

  lemma TestIsFound(e: Sql, k: nat)
    requires k <= |e| && IsTest(e[k..])
    ensures PredicateHead(e).Some? && |PredicateHead(e).value| <= k < |e|
    ensures Boundary(e, k) && !Negation(e[k..]) ==> PredicateHead(e).value == e[..k]
  {
    var n, w, op, o := TestParts(e[k..]);
    var g := e[..k];
    assert e == g + e[k..];
    Regrouped(g, n, w, op, o);
    PartsAreFound(g, n, w, op, o);
    assert (g + n)[k] == n[0] == e[k];
    if Negates(n, w, op) { NegationStarts(w, op, o); }
    assert k > 0 ==> (g + n)[k - 1] == e[k - 1];
  }

  /** The rewriter removes the longest test that ends the text, and nothing exactly when none ends it. */
  lemma LeftmostTest(e: Sql)
    ensures PredicateHead(e).None? <==> forall k :: 0 <= k <= |e| ==> !IsTest(e[k..])
    ensures PredicateHead(e).Some? ==>
              var h := PredicateHead(e).value;
              h <= e && IsTest(e[|h|..]) && forall k :: 0 <= k < |h| ==> !IsTest(e[k..])
  {
    if PredicateHead(e).Some? { HeadIsTest(e); }
    forall k | 0 <= k <= |e| && IsTest(e[k..]) ensures PredicateHead(e).Some? && |PredicateHead(e).value| <= k {
      TestIsFound(e, k);
    }
  }

  /** A predicate is found as a whole if and only if its text is a test: at any boundary, for any text that
      does not itself begin with `not in` or `not like`. */
  lemma FoundWhole(h: Sql, p: Sql)
    requires p != [] && !Negation(p) && Boundary(h + p, |h|)
    ensures PredicateHead(h + p) == Some(h) <==> IsTest(p)
  {
    assert (h + p)[|h|..] == p && (h + p)[..|h|] == h;
    if IsTest(p) { TestIsFound(h + p, |h|); }
    if PredicateHead(h + p) == Some(h) { HeadIsTest(h + p); }
  }

  // ----- when an absent value takes its whole predicate with it -----

  lemma TestStarts(p: Sql)
    requires IsTest(p)
    ensures p != [] && (WordLike(p[0]) || p[0].Quoted?)
  {
    var n, w, op, o := TestParts(p);
  }

  /** A head that leaves x once its white space is stripped, when one space and something solid follow x. */
  lemma HeadAtSpace(head: Sql, x: Sql, p: Sql)
    requires head <= x + [Space] + p && p != [] && !p[0].Space?
    requires StripSpaces(head) == x && |head| < |x + [Space] + p| && !(x + [Space] + p)[|head|].Space?
    ensures head == x + [Space]
  {
    var w := StripParts(head);
    var e := x + [Space] + p;
    assert e[|x|] == Space && e[|x| + 1] == p[0];
    assert |w| == 1 && w == [Space];
  }

  /** What the search leaves to the test it found. */
  lemma FoundTest(e: Sql) returns (rest: Sql)
    requires PredicateHead(e).Some?
    ensures e == PredicateHead(e).value + rest && IsTest(rest) && rest != [] && !rest[0].Space?
  {
    HeadIsTest(e);
    rest := e[|PredicateHead(e).value|..];
    TestStarts(rest);
  }

  lemma GoneAlone(x: Sql, p: Sql)
    requires x != [] && !x[|x| - 1].Space? && p != [] && !p[0].Space?
    requires DropOptionalValuePredicate(x + [Space] + p) == x + [Space]
    ensures PredicateHead(x + [Space] + p) == Some(x + [Space])
  {
    var e := x + [Space] + p;
    var head := PredicateHead(e).value;
    var rest := FoundTest(e);
    if DropConnector(head).Some? {
      var w := StripParts(DropConnector(head).value);
      assert false;
    }
    Front(StripSpaces(head), Space);
    Front(x, Space);
    assert StripSpaces(head) == x;
    HeadAtSpace(head, x, p);
  }

  /** Behind `where`, or behind anything but a connector: the text before the value goes, and nothing else does,
      if and only if it is a test. */
  lemma FirstTrimExactly(x: Sql, p: Sql)
    requires x != [] && !x[|x| - 1].Space? && !IsConn(x[|x| - 1])
    requires p != [] && !p[0].Space? && !Negation(p)
    ensures DropOptionalValuePredicate(x + [Space] + p) == x + [Space] <==> IsTest(p)
  {
    FoundWhole(x + [Space], p);
    StripNone(x);
    if DropOptionalValuePredicate(x + [Space] + p) == x + [Space] { GoneAlone(x, p); }
  }

  /** Index i holds the first solid token of e behind z. */
  ghost predicate FirstSolid(e: Sql, z: Sql, i: nat) {
    |z| <= i < |e| && z <= e && !e[i].Space? && forall j :: |z| <= j < i ==> e[j].Space?
  }

  lemma StripsBefore(s: Sql, rest: Sql)
    requires rest != [] && !rest[0].Space?
    ensures FirstSolid(s + rest, StripSpaces(s), |s|)
  {
    var w := StripParts(s);
    forall j | |StripSpaces(s)| <= j < |s| ensures (s + rest)[j].Space? {
      assert (s + rest)[j] == w[j - |StripSpaces(s)|];
    }
  }

  /** Where a head's connector stands, and how the head ends. */
  lemma ConnectorPlace(head: Sql, rest: Sql) returns (b: Sql, conn: Token, w: Sql)
    requires DropConnector(head).Some?
    ensures b == DropConnector(head).value && IsConn(conn) && White(w) && w != []
    ensures head == b + [conn] + w && head + rest == b + ([conn] + w + rest)
  {
    var t := StripSpaces(head);
    w := StripParts(head);
    b, conn := t[..|t| - 1], t[|t| - 1];
    assert t == b + [conn];
  }

  /** A head whose connector leaves the same text as the connector c stands behind. */
  lemma HeadAtConnector(head: Sql, rest: Sql, g: Sql, c: Token, p: Sql)
    requires IsConn(c) && p != [] && !p[0].Space? && rest != [] && !rest[0].Space?
    requires head + rest == g + [Space] + ([c] + [Space] + p)
    requires DropConnector(head).Some? && StripSpaces(DropConnector(head).value) == StripSpaces(g)
    ensures head == g + [Space] + [c] + [Space]
  {
    var b, conn, w := ConnectorPlace(head, rest);
    var e := head + rest;
    StripsBefore(b, [conn] + w + rest);
    StripsBefore(g + [Space], [c] + [Space] + p);
    StripOne(g);
    assert |b| == |g + [Space]|;
    SplitsAlike(b, g + [Space], [conn] + w + rest, [c] + [Space] + p);
    GapEnds(w, rest, p);
  }

  lemma SplitsAlike(a: Sql, b: Sql, x: Sql, y: Sql)
    requires |a| == |b| && a + x == b + y
    ensures a == b && x == y
  {
    assert a == (a + x)[..|a|] && b == (b + y)[..|b|];
    assert x == (a + x)[|a|..] && y == (b + y)[|b|..];
  }

  lemma GapEnds(w: Sql, rest: Sql, p: Sql)
    requires White(w) && w != [] && rest != [] && !rest[0].Space? && p != [] && !p[0].Space?
    requires exists t: Token, u: Token :: [t] + w + rest == [u] + [Space] + p
    ensures w == [Space]
  {
    var t: Token, u: Token :| [t] + w + rest == [u] + [Space] + p;
    var s := [t] + w + rest;
    assert s[1] == Space && s[2] == p[0];
    assert |w| == 1;
    assert w == [w[0]] && w[0] == s[1];
  }

  lemma ConnectorIsDropped(g: Sql, c: Token)
    requires IsConn(c)
    ensures DropConnector(g + [Space] + [c] + [Space]) == Some(g + [Space]) && StripSpaces(g + [Space]) == StripSpaces(g)
  {
    var t := g + [Space] + [c];
    StripNone(t);
    Front(g + [Space], c);
    StripOne(g);
  }

  /** Text whose predicate has gone together with a connector does not end in white space. */
  lemma StrippedByConnector(e: Sql, z: Sql)
    requires DropOptionalValuePredicate(e) == z && |z| < |e| && (z == [] || !z[|z| - 1].Space?)
    ensures PredicateHead(e).Some? && DropConnector(PredicateHead(e).value).Some?
    ensures StripSpaces(DropConnector(PredicateHead(e).value).value) == z
  {
    if PredicateHead(e).Some? {
      Front(StripSpaces(PredicateHead(e).value), Space);
    }
  }

  lemma GoneWithConnector(g: Sql, c: Token, p: Sql)
    requires IsConn(c) && p != [] && !p[0].Space?
    requires DropOptionalValuePredicate(g + [Space] + ([c] + [Space] + p)) == StripSpaces(g)
    ensures PredicateHead(g + [Space] + ([c] + [Space] + p)) == Some(g + [Space] + [c] + [Space])
  {
    var e := g + [Space] + ([c] + [Space] + p);
    var w := StripParts(g);
    StrippedByConnector(e, StripSpaces(g));
    var rest := FoundTest(e);
    HeadAtConnector(PredicateHead(e).value, rest, g, c, p);
  }

  lemma RegroupedConnector(g: Sql, c: Token, p: Sql)
    ensures g + [Space] + [c] + [Space] + p == g + [Space] + ([c] + [Space] + p)
  {
  }

  /** Behind a connector: the text before the value goes together with the connector, and nothing else does, if
      and only if it is a test. */
  lemma NextTrimExactly(g: Sql, c: Token, p: Sql)
    requires IsConn(c) && p != [] && !p[0].Space? && !Negation(p)
    ensures DropOptionalValuePredicate(g + [Space] + [c] + [Space] + p) == StripSpaces(g) <==> IsTest(p)
  {
    var h := g + [Space] + [c] + [Space];
    FoundWhole(h, p);
    RegroupedConnector(g, c, p);
    ConnectorIsDropped(g, c);
    if DropOptionalValuePredicate(h + p) == StripSpaces(g) { GoneWithConnector(g, c, p); }
  }

  /** A connector without white space behind it stays: before `and"x" =` the predicate goes alone. */
  lemma TightConnectorStays(g: Sql, c: Token, name: string, tail: Sql)
    requires c in {Key(And), Key(Or)} && IsTest([Quoted(name)] + tail)
    ensures DropOptionalValuePredicate(g + [c] + ([Quoted(name)] + tail)) == g + [c] + [Space]
  {
    FoundWhole(g + [c], [Quoted(name)] + tail);
    StripNone(g + [c]);
  }

  /** An absent value leaves the text as it was if and only if no test ends it, as at `x = lower(`. */
  lemma NothingGoesExactly(e: Sql)
    ensures DropOptionalValuePredicate(e) == e <==> forall k :: 0 <= k <= |e| ==> !IsTest(e[k..])
  {
    LeftmostTest(e);
    if PredicateHead(e).Some? {
      var head := PredicateHead(e).value;
      HeadIsTest(e);
      TestLength(e[|head|..]);
      var w := StripParts(head);
      if DropConnector(head).Some? { var w2 := StripParts(DropConnector(head).value); }
      assert |DropOptionalValuePredicate(e)| < |e|;
    }
  }

  lemma TestLength(p: Sql)
    requires IsTest(p)
    ensures |p| >= 2
  {
    var n, w, op, o := TestParts(p);
  }

  /** A parenthesis that does not belong to an operator: the value position has no test. */
  lemma CallHasNoTest(x: Sql)
    requires x != [] && var last := x[|x| - 1]; !last.Space? && last != Key(Any) && !OperatorToken(last)
    ensures InValuePosition(x + [LParen]) && DropOptionalValuePredicate(x + [LParen]) == x + [LParen]
  {
    var e := x + [LParen];
    StripNone(e);
    Front(x, LParen);
    StripNone(x);
    assert Unwrap(e, LParen) == x;
  }

  /** At `x = lower({sys.opt.p})` nothing is removed but the parameter, and `x = lower()` is left. */
  lemma CallKeepsItsTest(st: Rendered, x: Sql, name: string, values: Values)
    requires x != [] && var last := x[|x| - 1]; !last.Space? && last != Key(Any) && !OperatorToken(last)
    requires !Provided(values, name) && st.out == x + [LParen]
    ensures RenderFrom(st, [Sys(false, name), RParen], values).out == x + [LParen] + [RParen]
  {
    CallHasNoTest(x);
    assert [Sys(false, name), RParen][1..] == [RParen];
    assert [RParen][1..] == [];
  }

  // ----- which operands and operators make a test -----

  /** The ways a query may compare an operand with a parameter. */
  datatype Form =
    | Cmp(op: string)              // x = {p}
    | LikeForm(negated: bool)      // x like {p}, x not like {p}
    | ILikeForm(negated: bool)     // x ilike {p}, x not ilike {p}
    | IsForm                       // x is {p}
    | InForm(negated: bool)        // x in ({p}), x not in ({p})
    | AnyForm(op: string)          // x = any({p})

  function Operator(f: Form): Sql {
    match f
    case Cmp(op) => [Op(op)]
    case LikeForm(negated) => if negated then [Key(Not), Space, Key(Like)] else [Key(Like)]
    case ILikeForm(negated) => if negated then [Key(Not), Space, Key(ILike)] else [Key(ILike)]
    case IsForm => [Key(Is)]
    case InForm(negated) => if negated then [Key(Not), Space, Key(In)] else [Key(In)]
    case AnyForm(op) => [Op(op)]
  }

  function Opening(f: Form): Sql {
    if f.InForm? then [Space, LParen] else if f.AnyForm? then [Space, Key(Any), LParen] else [Space]
  }

  lemma FormOpening(f: Form)
    ensures IsOpening(Opening(f))
  {
    assert [Space][1..] == [];
    assert [Space, LParen][1..] == [LParen] && [LParen][1..] == [];
    assert [Space, Key(Any), LParen][1..] == [Key(Any), LParen] && [Key(Any), LParen][1..] == [LParen];
  }

  /** Names and dots: what an operand can be written as. */
  ghost predicate IsPath(t: Sql) {
    && t != [] && !t[|t| - 1].Dot?
    && forall i :: 0 <= i < |t| ==> t[i].Word? || t[i].Quoted? || t[i].Dot?
  }

  lemma SearchSingle(t: Sql, op: Token)
    requires IsPath(t) && OperatorToken(op)
    ensures DropTest(t + [Space] + [op]) == DropOperand(t)
  {
    DropTestCases(t + [Space], op);
    StripNone(t);
  }

  lemma SearchNegated(t: Sql, op: Token)
    requires IsPath(t) && op in {Key(In), Key(Like), Key(ILike)}
    ensures DropTest(t + [Space] + [Key(Not), Space, op]) == if op == Key(ILike) then Some(t + [Space]) else DropOperand(t)
  {
    var b := t + [Space] + [Key(Not)];
    assert t + [Space] + [Key(Not), Space, op] == b + [Space] + [op];
    DropTestCases(b + [Space], op);
    StripNone(b);
    Front(t + [Space], Key(Not));
    StripNone(t);
    PathHasOperand(t);
    assert TakeRun(t + [Space]).None?;
  }

  /** The search at the end of `path operator opening`. */
  lemma SearchAtForm(t: Sql, f: Form)
    requires IsPath(t)
    ensures PredicateHead(t + [Space] + Operator(f) + Opening(f)) ==
            if f == ILikeForm(true) then Some(t + [Space]) else DropOperand(t)
  {
    var op := Operator(f);
    var x := t + [Space] + op;
    FormOpening(f);
    assert x[|x| - 1] == op[|op| - 1];
    OpeningOff(x, Opening(f));
    if |op| == 1 { SearchSingle(t, op[0]); } else { SearchNegated(t, op[2]); }
  }

  lemma PathHasOperand(t: Sql)
    requires IsPath(t)
    ensures DropOperand(t).Some?
  {
  }

  /** Exact: the predicate of a path under an operator goes as a whole if and only if the path is a single
      quoted identifier or wholly bare, and the operator is not `not ilike`. */
  lemma PathGoesExactly(h: Sql, t: Sql, f: Form)
    requires IsPath(t) && (h == [] || !NameToken(h[|h| - 1]))
    ensures PredicateHead(h + (t + [Space] + Operator(f) + Opening(f))) == Some(h) <==>
              IsName(t) && f != ILikeForm(true)
    ensures IsTest(t + [Space] + Operator(f) + Opening(f)) <==> IsName(t) && f != ILikeForm(true)
  {
    var p := t + [Space] + Operator(f) + Opening(f);
    FoundWhole(h, p);
    FoundWhole([], p);
    assert [] + p == p;
    SearchAtForm(t, f);
    assert t[0..] == t;
    if IsName(t) { OperandComplete(t, 0); }
    if DropOperand(t) == Some([]) { OperandSound(t); }
  }

  /** Of any path whose last part is quoted only that part goes: with a dot before it, the rest of the path
      stays behind with its dot. */
  lemma QuotedPathHalfRemoved(x: Sql, b: string, tail: Sql)
    requires x != [] && x[|x| - 1].Dot? && IsTest([Quoted(b)] + tail)
    ensures DropOptionalValuePredicate(x + ([Quoted(b)] + tail)) == x + [Space]
  {
    FoundWhole(x, [Quoted(b)] + tail);
    StripNone(x);
  }

  lemma NotILikeSearch(x: Sql)
    ensures PredicateHead(x + [Space] + [Key(Not)] + [Space] + [Key(ILike)] + [Space]) == Some(x + [Space])
  {
    var y := x + [Space] + [Key(Not)];
    FormOpening(ILikeForm(false));
    OpeningOff(y + [Space] + [Key(ILike)], [Space]);
    DropTestCases(y + [Space], Key(ILike));
    StripNone(y);
    Front(x + [Space], Key(Not));
    assert TakeRun(x + [Space]).None?;
  }

  /** `x not ilike`: the operator is not known with its negation, so `not` is taken for the operand and the
      real operand stays. */
  lemma NotILikeHalfRemoved(x: Sql)
    requires x != [] && !x[|x| - 1].Space? && !IsConn(x[|x| - 1])
    ensures DropOptionalValuePredicate(x + [Space] + [Key(Not)] + [Space] + [Key(ILike)] + [Space]) == x + [Space]
  {
    NotILikeSearch(x);
    StripNone(x);
  }
}
