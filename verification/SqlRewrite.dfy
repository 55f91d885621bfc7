// The inline-parameter SQL rewriter (pkg/sqlrewrite/sqlrewrite.go): RenderSysParams and the editing of
// text already emitted. SQL text is a sequence of lexical tokens with its white space kept, so that every
// regular expression of the original is a condition on the tokens at one end of the text.
module SqlRewrite {
  import opened Wrappers
  import Text

  /** The words the rewriter looks for, in any letter case. */
  datatype Keyword = Where | And | Or | Group | Order | Limit | Having | In | Like | ILike | Is | Not | Any

  datatype Token =
    | Space                                  // a run of white space
    | Word(text: string)                     // any other bare identifier
    | Key(k: Keyword)
    | Dot
    | Quoted(name: string)                   // "name"
    | Op(text: string)                       // = != <> < > <= >=
    | Comma
    | LParen
    | RParen
    | Lit(text: string)                      // numbers and other literals
    | Punct(text: string)                    // remaining punctuation, such as :: or +
    | Sys(required: bool, name: string)      // {sys.req.name} or {sys.opt.name}
    | Arg(n: nat, name: string)              // $n; the name says which parameter it stands for

  type Sql = seq<Token>

  lemma Assoc<T>(a: seq<T>, b: seq<T>, c: seq<T>)
    ensures (a + b) + c == a + (b + c)
  {
  }

  lemma ConsTail(t: Token, s: Sql)
    ensures ([t] + s)[0] == t && ([t] + s)[1..] == s
  {
  }

  // ----- parameter values -----

  /** A decoded JSON value; list elements may be null. */
  datatype Param = Null | Str(text: string) | Number(text: string) | List(items: seq<Option<string>>)

  datatype ArgValue = ScalarArg(value: Param) | ListArg(items: seq<string>)

  type Values = map<string, Param>

  /** Present with a usable value: not null, not "" and not the empty list. */
  predicate Provided(values: Values, name: string) {
    name in values &&
    match values[name]
    case Null => false
    case Str(s) => s != ""
    case Number(_) => true
    case List(items) => |items| > 0
  }

  function NonNull(items: seq<Option<string>>): seq<string> {
    if items == [] then []
    else (if items[0].Some? then [items[0].value] else []) + NonNull(items[1..])
  }

  /** A list is bound as one array argument, without its nulls. */
  function Bind(v: Param): ArgValue {
    match v
    case List(items) => ListArg(NonNull(items))
    case _ => ScalarArg(v)
  }

  // ----- the ends of a text -----

  function StripSpaces(s: Sql): Sql {
    if s != [] && s[|s| - 1].Space? then StripSpaces(s[..|s| - 1]) else s
  }

  /** The text after leading white space and one token, if it starts that way. */
  function SkipLead(s: Sql, t: Token): (r: Option<Sql>)
    ensures r.Some? ==> |r.value| < |s|
  {
    if s == [] then None
    else if s[0] == t then Some(s[1..])
    else if s[0].Space? then SkipLead(s[1..], t)
    else None
  }

  predicate EndsWith(s: Sql, t: Token) {
    s != [] && s[|s| - 1] == t
  }

  /** A token after which a parameter is a value: a comparison, an open parenthesis, in, like, ilike, is. */
  predicate ValueContext(t: Token) {
    t.Op? || t.LParen? || t in {Key(In), Key(Like), Key(ILike), Key(Is)}
  }

  predicate IsConn(t: Token) {
    t == Key(And) || t == Key(Or)
  }

  predicate IsClauseKey(t: Token) {
    t in {Key(Group), Key(Order), Key(Limit), Key(Having)}
  }

  predicate WordLike(t: Token) {
    t.Word? || t.Key?
  }

  // ----- dropping the predicate an absent value leaves behind -----

  /** What precedes the longest dotted identifier at the end. */
  function TakeRun(s: Sql): Option<Sql> {
    if s == [] then None
    else
      var front := s[..|s| - 1];
      if s[|s| - 1].Dot? then TakeRun(front)
      else if WordLike(s[|s| - 1]) then
        var further := TakeRun(front);
        if further.Some? then further else Some(front)
      else None
  }

  /** What precedes an operand at the end: one quoted identifier, or a dotted bare one. */
  function DropOperand(s: Sql): Option<Sql> {
    if s != [] && s[|s| - 1].Quoted? then Some(s[..|s| - 1]) else TakeRun(s)
  }

  /** What precedes `operand op` at the end. */
  function DropTest(s: Sql): Option<Sql> {
    if s == [] then None
    else
      var front := s[..|s| - 1];
      var last := s[|s| - 1];
      if last.Op? || last == Key(ILike) || last == Key(Is) then DropOperand(StripSpaces(front))
      else if last == Key(In) || last == Key(Like) then
        var beforeNot := StripSpaces(front);
        var negated :=
          if beforeNot != front && EndsWith(beforeNot, Key(Not))
          then DropOperand(StripSpaces(beforeNot[..|beforeNot| - 1])) else None;
        if negated.Some? then negated else DropOperand(StripSpaces(front))
      else None
  }

  /** Without one token at the end, and the white space before it. */
  function Unwrap(s: Sql, t: Token): Sql {
    if EndsWith(s, t) then StripSpaces(s[..|s| - 1]) else s
  }

  /** What precedes `operand op`, `operand in (` or `operand op any (` at the end of emitted text. */
  function PredicateHead(emitted: Sql): Option<Sql> {
    DropTest(Unwrap(Unwrap(StripSpaces(emitted), LParen), Key(Any)))
  }

  /** Text before a connector that is followed by white space at the end, if it ends so. */
  function DropConnector(s: Sql): Option<Sql> {
    var t := StripSpaces(s);
    if t != s && t != [] && IsConn(t[|t| - 1]) then Some(t[..|t| - 1]) else None
  }

  function DropOptionalValuePredicate(emitted: Sql): Sql {
    match PredicateHead(emitted)
    case None => emitted
    case Some(head) =>
      match DropConnector(head)
      case Some(before) => StripSpaces(before)
      case None => StripSpaces(head) + [Space]
  }

  function StripTrailingComma(s: Sql): Sql {
    var t := StripSpaces(s);
    if EndsWith(t, Comma) then t[..|t| - 1] else s
  }

  // ----- one parameter, then all of them -----

  datatype Rendered = Rendered(out: Sql, args: seq<ArgValue>, missing: set<string>)

  predicate InValuePosition(emitted: Sql) {
    var ctx := StripSpaces(emitted);
    ctx != [] && ValueContext(ctx[|ctx| - 1])
  }

  /** What one parameter token does to the text emitted so far and to the text still to come. */
  function Place(st: Rendered, required: bool, name: string, rest: Sql, values: Values): (r: (Rendered, Sql))
    ensures |r.1| <= |rest|
  {
    if InValuePosition(st.out) then
      if Provided(values, name) then
        (Rendered(st.out + [Arg(|st.args| + 1, name)], st.args + [Bind(values[name])], st.missing), rest)
      else if required then (st.(missing := st.missing + {name}), rest)
      else
        var trimmed := DropOptionalValuePredicate(st.out);
        var closing := SkipLead(rest, RParen);
        (st.(out := trimmed),
         if EndsWith(StripSpaces(st.out), LParen) && trimmed != st.out && closing.Some? then closing.value else rest)
    else if name in values then (st.(out := st.out + [Quoted(name)]), rest)
    else if required then (st.(missing := st.missing + {name}), rest)
    else
      match SkipLead(rest, Comma)
      case Some(after) => (st.(out := StripSpaces(st.out)), after)
      case None => (st.(out := StripTrailingComma(st.out)), rest)
  }

  function RenderFrom(st: Rendered, rest: Sql, values: Values): Rendered
    decreases |rest|
  {
    if rest == [] then st
    else if rest[0].Sys? then
      var (next, after) := Place(st, rest[0].required, rest[0].name, rest[1..], values);
      RenderFrom(next, after, values)
    else RenderFrom(st.(out := st.out + [rest[0]]), rest[1..], values)
  }

  const EMPTY := Rendered([], [], {})

  // ----- cleaning up connectors -----

  function LeadSpaces(s: Sql): (n: nat)
    ensures n <= |s|
  {
    if s != [] && s[0].Space? then 1 + LeadSpaces(s[1..]) else 0
  }

  /** Length of white space, and/or, white space at the start; 0 when it does not start so. */
  function LooseConnector(s: Sql): (n: nat)
    ensures n <= |s|
    ensures n > 0 ==> n >= 3
  {
    var a := LeadSpaces(s);
    if a > 0 && a < |s| && IsConn(s[a]) && LeadSpaces(s[a + 1..]) > 0 then a + 1 + LeadSpaces(s[a + 1..]) else 0
  }

  /** `where and ` becomes `where `. */
  function CollapseWhereConn(s: Sql): (r: Sql)
    ensures |r| < |s| || r == s
  {
    if s == [] then []
    else if s[0] == Key(Where) && LooseConnector(s[1..]) > 0 then
      [s[0], Space] + CollapseWhereConn(s[1 + LooseConnector(s[1..])..])
    else
      var rest := CollapseWhereConn(s[1..]);
      if rest == s[1..] then s else [s[0]] + rest
  }

  predicate ClauseEnds(s: Sql) {
    s == [] || IsClauseKey(s[0])
  }

  /** A connector with nothing after it in its clause becomes one space. */
  function DropTrailingConn(s: Sql): (r: Sql)
    ensures |r| < |s| || r == s
  {
    if s == [] then []
    else
      var n := LooseConnector(s);
      if n > 0 && ClauseEnds(s[n..]) then [Space] + DropTrailingConn(s[n..])
      else
        var rest := DropTrailingConn(s[1..]);
        if rest == s[1..] then s else [s[0]] + rest
  }

  /** A `where` and the white space after it, when no predicate follows, disappears. */
  function DropDanglingWhere(s: Sql): Sql {
    if s == [] then []
    else
      var n := LeadSpaces(s[1..]);
      if s[0] == Key(Where) && n > 0 && ClauseEnds(s[1 + n..]) then DropDanglingWhere(s[1 + n..])
      else [s[0]] + DropDanglingWhere(s[1..])
  }

  function CleanPass(s: Sql): (r: Sql)
    ensures |r| < |s| || r == s
  {
    DropTrailingConn(CollapseWhereConn(s))
  }

  function CleanFix(s: Sql): Sql
    decreases |s|
  {
    var r := CleanPass(s);
    if r == s then s else CleanFix(r)
  }

  function Clean(s: Sql): Sql {
    DropDanglingWhere(CleanFix(s))
  }

  method CleanDanglingConnectors(s: Sql) returns (r: Sql)
    ensures r == Clean(s)
  {
    var prev: Sql := [];
    r := s;
    while r != prev
      invariant CleanFix(r) == CleanFix(s)
      invariant r == prev ==> CleanPass(r) == r
      decreases |r|, if r == prev then 0 else 1
    {
      prev := r;
      r := CollapseWhereConn(r);
      r := DropTrailingConn(r);
    }
    r := DropDanglingWhere(r);
  }

  // ----- the whole rewrite -----

  function Render(sql: Sql, values: Values): Rendered {
    var r := RenderFrom(EMPTY, sql, values);
    r.(out := Clean(r.out))
  }

  /** Rendered text, driver arguments in $N order, and the sorted names of absent required parameters. */
  method RenderSysParams(sql: Sql, values: Values)
    returns (rendered: Sql, args: seq<ArgValue>, missingRequired: seq<string>)
    ensures rendered == Render(sql, values).out && args == Render(sql, values).args
    ensures missingRequired == Text.Sorted(Render(sql, values).missing)
  {
    var st := EMPTY;
    var rest := sql;
    while rest != []
      invariant RenderFrom(st, rest, values) == RenderFrom(EMPTY, sql, values)
      decreases |rest|
    {
      var head := rest[0];
      rest := rest[1..];
      if !head.Sys? {
        st := st.(out := st.out + [head]);
        continue;
      }
      var emitted := st.out;
      if InValuePosition(emitted) {
        if Provided(values, head.name) {
          st := Rendered(emitted + [Arg(|st.args| + 1, head.name)], st.args + [Bind(values[head.name])], st.missing);
        } else if head.required {
          st := st.(missing := st.missing + {head.name});
        } else {
          var trimmed := DropOptionalValuePredicate(emitted);
          if EndsWith(StripSpaces(emitted), LParen) && trimmed != emitted {
            var closing := SkipLead(rest, RParen);
            if closing.Some? {
              rest := closing.value;
            }
          }
          st := st.(out := trimmed);
        }
      } else if head.name in values {
        st := st.(out := emitted + [Quoted(head.name)]);
      } else if head.required {
        st := st.(missing := st.missing + {head.name});
      } else {
        var after := SkipLead(rest, Comma);
        if after.Some? {
          st := st.(out := StripSpaces(emitted));
          rest := after.value;
        } else {
          st := st.(out := StripTrailingComma(emitted));
        }
      }
    }
    rendered := CleanDanglingConnectors(st.out);
    args := st.args;
    missingRequired := Text.Sorted(st.missing);
  }
}
