// Finding a JSON object inside model output (pkg/llmclient/toolcall.go): the brace matcher and the scan
// for a bare tool call. Strings follow section 7 of RFC 8259.
module BraceMatch {
  import opened Wrappers
  import opened Text

  // ----- the matcher -----

  /** What the matcher remembers between two characters. */
  datatype Scanner = Scanner(depth: int, inStr: bool, escape: bool)

  function Feed(st: Scanner, c: char): Scanner {
    if st.escape then st.(escape := false)
    else if st.inStr then
      if c == '\\' then st.(escape := true) else if c == '"' then st.(inStr := false) else st
    else if c == '"' then st.(inStr := true)
    else if c == '{' then st.(depth := st.depth + 1)
    else if c == '}' then st.(depth := st.depth - 1)
    else st
  }

  /** This character closes the brace the scan started from. */
  predicate Closes(st: Scanner, c: char) {
    !st.escape && !st.inStr && c == '}' && st.depth == 1
  }

  /** Distance to the closing brace, if there is one. */
  function ClosingIn(st: Scanner, rest: string): Option<nat>
    decreases |rest|
  {
    if rest == "" then None
    else if Closes(st, rest[0]) then Some(0)
    else
      match ClosingIn(Feed(st, rest[0]), rest[1..])
      case None => None
      case Some(d) => Some(d + 1)
  }

  const START := Scanner(0, false, false)

  /** Index of the matching brace, or -1. */
  method FindMatchingBrace(s: string, openIdx: nat) returns (r: int)
    requires openIdx <= |s|
    ensures r == match ClosingIn(START, s[openIdx..]) case None => -1 case Some(d) => openIdx + d
  {
    var depth, inStr, escape := 0, false, false;
    for i := openIdx to |s|
      invariant ClosingIn(START, s[openIdx..]) ==
                match ClosingIn(Scanner(depth, inStr, escape), s[i..])
                case None => None
                case Some(d) => Some(i - openIdx + d)
    {
      var c := s[i];
      assert s[i..][0] == c && s[i..][1..] == s[i + 1..];
      if escape {
        escape := false;
        continue;
      }
      if inStr {
        if c == '\\' {
          escape := true;
        } else if c == '"' {
          inStr := false;
        }
        continue;
      }
      if c == '"' {
        inStr := true;
      } else if c == '{' {
        depth := depth + 1;
      } else if c == '}' {
        depth := depth - 1;
        if depth == 0 {
          return i;
        }
      }
    }
    return -1;
  }

  // ----- counting braces -----

  /** Open braces less closing ones. */
  function Depth(s: string): int {
    (multiset(s)['{'] as int) - (multiset(s)['}'] as int)
  }

  lemma DepthFront(c: char, s: string)
    ensures Depth([c] + s) == (if c == '{' then 1 else if c == '}' then -1 else 0) + Depth(s)
  {
    assert multiset([c] + s) == multiset{c} + multiset(s);
  }

  /** A closing brace at d brings the count, k before this text, to zero. */
  ghost predicate ZeroAt(k: int, s: string, d: nat) {
    d < |s| && s[d] == '}' && k + Depth(s[..d + 1]) == 0
  }

  ghost predicate NoQuote(s: string) {
    forall i :: 0 <= i < |s| ==> s[i] != '"'
  }

  lemma ZeroBehind(k: int, s: string, d: nat)
    requires s != "" && d < |s| - 1
    ensures ZeroAt(k, s, d + 1) <==> ZeroAt(Feed(Scanner(k, false, false), s[0]).depth, s[1..], d) || (s[0] == '"' && ZeroAt(k, s, d + 1))
  {
    assert s[..d + 2] == [s[0]] + s[1..][..d + 1];
    DepthFront(s[0], s[1..][..d + 1]);
  }

  lemma ZeroFirst(k: int, s: string)
    requires s != ""
    ensures ZeroAt(k, s, 0) <==> s[0] == '}' && k == 1
  {
    assert s[..1] == [s[0]] + "";
    DepthFront(s[0], "");
  }

  lemma {:induction false} ClosesAtZero(k: int, s: string)
    requires NoQuote(s)
    ensures var r := ClosingIn(Scanner(k, false, false), s);
            && (r.Some? ==> ZeroAt(k, s, r.value))
            && forall d: nat :: ZeroAt(k, s, d) ==> r.Some? && r.value <= d
    decreases |s|
  {
    if s != "" {
      var next := Feed(Scanner(k, false, false), s[0]);
      ZeroFirst(k, s);
      if !(s[0] == '}' && k == 1) {
        assert NoQuote(s[1..]);
        ClosesAtZero(next.depth, s[1..]);
        var r := ClosingIn(Scanner(k, false, false), s);
        if r.Some? { ZeroBehind(k, s, r.value - 1); }
        forall d: nat | ZeroAt(k, s, d) ensures r.Some? && r.value <= d {
          if d > 0 { ZeroBehind(k, s, d - 1); }
        }
      }
    }
  }

  /** Exact, for text without strings: the matching brace is the first closing one that brings the count of braces
      to zero, and there is none if none does. */
  lemma BracesExactly(s: string)
    requires NoQuote(s)
    ensures var r := ClosingIn(START, s);
            && (r.Some? ==> ZeroAt(0, s, r.value) && forall d: nat :: d < r.value ==> !ZeroAt(0, s, d))
            && (r.None? ==> forall d: nat :: !ZeroAt(0, s, d))
  {
    ClosesAtZero(0, s);
  }

  // ----- printed JSON -----

  /** One unit of a string literal: a plain character, or a backslash with the character it protects. */
  datatype Unit = Plain(c: char) | Escape(c: char)

  predicate ValidUnits(us: seq<Unit>) {
    forall i | 0 <= i < |us| :: us[i].Plain? ==> us[i].c != '"' && us[i].c != '\\'
  }

  datatype Json =
    | Atom(text: string)
    | Str(units: seq<Unit>)
    | Arr(items: seq<Json>)
    | Obj(members: seq<Member>)

  datatype Member = Member(key: seq<Unit>, value: Json)

  /** Numbers and literal names hold no quote and no brace; strings are well-formed. */
  predicate Valid(j: Json) {
    match j
    case Atom(text) => IsQuietText(text)
    case Str(us) => ValidUnits(us)
    case Arr(items) => forall i | 0 <= i < |items| :: Valid(items[i])
    case Obj(ms) => forall i | 0 <= i < |ms| :: ValidUnits(ms[i].key) && Valid(ms[i].value)
  }

  predicate IsQuietText(t: string) {
    forall i | 0 <= i < |t| :: t[i] != '"' && t[i] != '{' && t[i] != '}'
  }

  function PrintUnits(us: seq<Unit>): string {
    if us == [] then ""
    else (match us[0] case Plain(c) => [c] case Escape(c) => ['\\', c]) + PrintUnits(us[1..])
  }

  function PrintStr(us: seq<Unit>): string {
    "\"" + PrintUnits(us) + "\""
  }

  /** Prints with the same filler, usually white space, after every structural character. */
  function Print(j: Json, gap: string): string
    decreases j, 1, 0
  {
    match j
    case Atom(text) => text
    case Str(us) => PrintStr(us)
    case Arr(items) => "[" + gap + PrintItems(j, 0, gap) + "]"
    case Obj(ms) => "{" + gap + PrintMembers(j, 0, gap) + "}"
  }

  function PrintItems(j: Json, from: nat, gap: string): string
    requires j.Arr? && from <= |j.items|
    decreases j, 0, |j.items| - from
  {
    if from == |j.items| then ""
    else Print(j.items[from], gap) + (if from + 1 < |j.items| then "," else "") + gap + PrintItems(j, from + 1, gap)
  }

  function PrintMembers(j: Json, from: nat, gap: string): string
    requires j.Obj? && from <= |j.members|
    decreases j, 0, |j.members| - from
  {
    if from == |j.members| then ""
    else
      PrintStr(j.members[from].key) + ":" + gap + Print(j.members[from].value, gap)
      + (if from + 1 < |j.members| then "," else "") + gap + PrintMembers(j, from + 1, gap)
  }

  // ----- scanning printed JSON -----

  /** Reading p from this state reaches no closing brace and ends in state `end`. */
  ghost predicate PassesTo(st: Scanner, p: string, end: Scanner)
    decreases |p|
  {
    if p == "" then st == end
    else !Closes(st, p[0]) && PassesTo(Feed(st, p[0]), p[1..], end)
  }

  lemma {:induction false} PassesCompose(st: Scanner, p: string, mid: Scanner, q: string, end: Scanner)
    requires PassesTo(st, p, mid) && PassesTo(mid, q, end)
    ensures PassesTo(st, p + q, end)
    decreases |p|
  {
    if p == "" {
      assert p + q == q;
    } else {
      assert (p + q)[1..] == p[1..] + q;
      PassesCompose(Feed(st, p[0]), p[1..], mid, q, end);
    }
  }

  lemma {:induction false} PassesThenCloses(st: Scanner, p: string, end: Scanner, suffix: string)
    requires PassesTo(st, p, end) && Closes(end, '}')
    ensures ClosingIn(st, p + "}" + suffix) == Some(|p|)
    decreases |p|
  {
    var text := p + "}" + suffix;
    if p != "" {
      assert text[1..] == p[1..] + "}" + suffix;
      PassesThenCloses(Feed(st, p[0]), p[1..], end, suffix);
    }
  }

  /** Outside strings, inside at least one open brace. */
  ghost predicate Outside(st: Scanner) {
    st.depth >= 1 && !st.inStr && !st.escape
  }

  lemma {:induction false} QuietTextPasses(st: Scanner, t: string)
    requires Outside(st) && IsQuietText(t)
    ensures PassesTo(st, t, st)
  {
    if t != "" { QuietTextPasses(st, t[1..]); }
  }

  /** Whatever a string holds, its units leave the scanner inside the string. */
  lemma {:induction false} UnitsPass(st: Scanner, us: seq<Unit>)
    requires st.inStr && !st.escape && ValidUnits(us)
    ensures PassesTo(st, PrintUnits(us), st)
  {
    if us != [] {
      UnitsPass(st, us[1..]);
      var head := match us[0] case Plain(c) => [c] case Escape(c) => ['\\', c];
      if us[0].Escape? {
        assert head[1..] == [us[0].c] && head[1..][1..] == "";
        assert Feed(Feed(st, '\\'), us[0].c) == st;
      } else {
        assert head[1..] == "";
      }
      assert PassesTo(st, head, st);
      PassesCompose(st, head, st, PrintUnits(us[1..]), st);
    }
  }

  lemma StrPasses(st: Scanner, us: seq<Unit>)
    requires Outside(st) && ValidUnits(us)
    ensures PassesTo(st, PrintStr(us), st)
  {
    var inside := st.(inStr := true);
    OnePasses(st, '"');
    OnePasses(inside, '"');
    UnitsPass(inside, us);
    PassesCompose(st, "\"", inside, PrintUnits(us), inside);
    PassesCompose(st, "\"" + PrintUnits(us), inside, "\"", st);
  }

  /** A printed value inside an object leaves the scanner where it was. */
  lemma {:induction false} ValuePasses(st: Scanner, j: Json, gap: string)
    requires Outside(st) && Valid(j) && IsQuietText(gap)
    ensures PassesTo(st, Print(j, gap), st)
    decreases j, 1, 0
  {
    match j
    case Atom(text) => QuietTextPasses(st, text);
    case Str(us) => StrPasses(st, us);
    case Arr(items) =>
      QuietTextPasses(st, "[" + gap);
      QuietTextPasses(st, "]");
      ItemsPass(st, j, 0, gap);
      PassesCompose(st, "[" + gap, st, PrintItems(j, 0, gap), st);
      PassesCompose(st, "[" + gap + PrintItems(j, 0, gap), st, "]", st);
    case Obj(ms) =>
      var deeper := st.(depth := st.depth + 1);
      BracePasses(st);
      QuietTextPasses(deeper, gap);
      MembersPass(deeper, j, 0, gap);
      PassesCompose(st, "{", deeper, gap, deeper);
      PassesCompose(st, "{" + gap, deeper, PrintMembers(j, 0, gap), deeper);
      PassesCompose(st, "{" + gap + PrintMembers(j, 0, gap), deeper, "}", st);
  }

  lemma OnePasses(st: Scanner, c: char)
    requires !Closes(st, c)
    ensures PassesTo(st, [c], Feed(st, c))
  {
    assert [c][1..] == "";
  }

  lemma BracePasses(st: Scanner)
    requires Outside(st)
    ensures PassesTo(st, "{", st.(depth := st.depth + 1)) && PassesTo(st.(depth := st.depth + 1), "}", st)
  {
    OnePasses(st, '{');
    OnePasses(st.(depth := st.depth + 1), '}');
  }

  lemma {:induction false} ItemsPass(st: Scanner, j: Json, from: nat, gap: string)
    requires Outside(st) && j.Arr? && Valid(j) && from <= |j.items| && IsQuietText(gap)
    ensures PassesTo(st, PrintItems(j, from, gap), st)
    decreases j, 0, |j.items| - from
  {
    if from < |j.items| {
      var first, sep := Print(j.items[from], gap), (if from + 1 < |j.items| then "," else "") + gap;
      ValuePasses(st, j.items[from], gap);
      QuietTextPasses(st, sep);
      ItemsPass(st, j, from + 1, gap);
      PassesCompose(st, first, st, sep, st);
      PassesCompose(st, first + sep, st, PrintItems(j, from + 1, gap), st);
      assert first + sep + PrintItems(j, from + 1, gap) == PrintItems(j, from, gap);
    }
  }

  lemma KeyPasses(st: Scanner, key: seq<Unit>, gap: string)
    requires Outside(st) && ValidUnits(key) && IsQuietText(gap)
    ensures PassesTo(st, PrintStr(key) + (":" + gap), st)
  {
    StrPasses(st, key);
    QuietTextPasses(st, ":" + gap);
    PassesCompose(st, PrintStr(key), st, ":" + gap, st);
  }

  lemma TailPasses(st: Scanner, val: string, sep: string, gap: string)
    requires Outside(st) && PassesTo(st, val, st) && IsQuietText(gap) && IsQuietText(sep)
    ensures PassesTo(st, val + (sep + gap), st)
  {
    QuietTextPasses(st, sep + gap);
    PassesCompose(st, val, st, sep + gap, st);
  }

  lemma MemberText(key: string, gap: string, val: string, sep: string)
    ensures key + (":" + gap) + (val + (sep + gap)) == key + ":" + gap + val + sep + gap
  {
  }

  lemma MemberPasses(st: Scanner, m: Member, sep: string, gap: string)
    requires Outside(st) && ValidUnits(m.key) && PassesTo(st, Print(m.value, gap), st)
    requires IsQuietText(gap) && IsQuietText(sep)
    ensures PassesTo(st, PrintStr(m.key) + ":" + gap + Print(m.value, gap) + sep + gap, st)
  {
    KeyPasses(st, m.key, gap);
    TailPasses(st, Print(m.value, gap), sep, gap);
    PassesCompose(st, PrintStr(m.key) + (":" + gap), st, Print(m.value, gap) + (sep + gap), st);
    MemberText(PrintStr(m.key), gap, Print(m.value, gap), sep);
  }

  lemma {:induction false} MembersPass(st: Scanner, j: Json, from: nat, gap: string)
    requires Outside(st) && j.Obj? && Valid(j) && from <= |j.members| && IsQuietText(gap)
    ensures PassesTo(st, PrintMembers(j, from, gap), st)
    decreases j, 0, |j.members| - from
  {
    if from < |j.members| {
      var m := j.members[from];
      var sep := if from + 1 < |j.members| then "," else "";
      ValuePasses(st, m.value, gap);
      MemberPasses(st, m, sep, gap);
      MembersPass(st, j, from + 1, gap);
      PassesCompose(st, PrintStr(m.key) + ":" + gap + Print(m.value, gap) + sep + gap, st,
                    PrintMembers(j, from + 1, gap), st);
    }
  }

  /** Everything of a printed object but its closing brace. */
  function ObjectBody(j: Json, gap: string): string
    requires j.Obj?
  {
    "{" + gap + PrintMembers(j, 0, gap)
  }

  lemma BodyPasses(j: Json, gap: string)
    requires j.Obj? && Valid(j) && IsQuietText(gap)
    ensures PassesTo(START, ObjectBody(j, gap), Scanner(1, false, false))
  {
    var open := Scanner(1, false, false);
    OnePasses(START, '{');
    QuietTextPasses(open, gap);
    MembersPass(open, j, 0, gap);
    PassesCompose(START, "{", open, gap, open);
    PassesCompose(START, "{" + gap, open, PrintMembers(j, 0, gap), open);
  }

  /** On a printed object followed by anything at all, the matcher stops at the object's last character,
      whatever braces, quotes and escapes its strings hold. */
  lemma MatchesPrintedObject(j: Json, gap: string, suffix: string)
    requires j.Obj? && Valid(j) && IsQuietText(gap)
    ensures ClosingIn(START, Print(j, gap) + suffix) == Some(|Print(j, gap)| - 1)
  {
    BodyPasses(j, gap);
    PassesThenCloses(START, ObjectBody(j, gap), Scanner(1, false, false), suffix);
    assert Print(j, gap) == ObjectBody(j, gap) + "}";
  }

  // ----- the scan for a bare tool call -----

  /** What json.Unmarshal and the key filter make of a candidate: a call, or nothing. */
  type Decoder<!C> = string -> Option<C>

  datatype Found<C> = Found(call: C, textBefore: string)

  /** What the brace at i encloses, up to and including its closing brace. */
  function Candidate(content: string, i: nat): Option<string>
    requires i < |content|
  {
    match ClosingIn(START, content[i..])
    case None => None
    case Some(d) =>
      ClosingInside(START, content[i..]);
      Some(content[i..i + d + 1])
  }

  /** The first accepted object; an unbalanced brace ends the search. */
  function FirstCall<C>(content: string, from: nat, decode: Decoder<C>): Option<Found<C>>
    requires from <= |content|
    decreases |content| - from
  {
    if from == |content| then None
    else if content[from] != '{' then FirstCall(content, from + 1, decode)
    else
      match Candidate(content, from)
      case None => None
      case Some(candidate) =>
        var call := decode(candidate);
        if call.Some? then Some(Found(call.value, TrimSpace(content[..from])))
        else FirstCall(content, from + 1, decode)
  }

  lemma {:induction false} ClosingInside(st: Scanner, rest: string)
    ensures ClosingIn(st, rest).Some? ==> ClosingIn(st, rest).value < |rest|
    decreases |rest|
  {
    if rest != "" { ClosingInside(Feed(st, rest[0]), rest[1..]); }
  }

  method ExtractBareToolCall<C>(content: string, decode: Decoder<C>) returns (r: Option<Found<C>>)
    ensures r == FirstCall(content, 0, decode)
  {
    for i := 0 to |content|
      invariant FirstCall(content, 0, decode) == FirstCall(content, i, decode)
    {
      if content[i] != '{' {
        continue;
      }
      var endIdx := FindMatchingBrace(content, i);
      if endIdx < 0 {
        return None;
      }
      ClosingInside(START, content[i..]);
      var call := decode(content[i..endIdx + 1]);
      if call.None? {
        continue;
      }
      return Some(Found(call.value, TrimSpace(content[..i])));
    }
    return None;
  }

  lemma {:induction false} SkipsPlainText<C>(content: string, from: nat, to: nat, decode: Decoder<C>)
    requires from <= to <= |content|
    requires forall i :: from <= i < to ==> content[i] != '{'
    ensures FirstCall(content, from, decode) == FirstCall(content, to, decode)
    decreases |content| - from
  {
    if from < to { SkipsPlainText(content, from + 1, to, decode); }
  }

  /** An open brace the search goes on from: it closes, and what it encloses is no call. */
  ghost predicate PassedOver<C>(content: string, i: nat, decode: Decoder<C>)
    requires i < |content|
  {
    Candidate(content, i).Some? && decode(Candidate(content, i).value).None?
  }

  /** The search reaches this position. */
  ghost predicate Reached<C>(content: string, n: nat, decode: Decoder<C>)
    requires n <= |content|
  {
    forall i :: 0 <= i < n && content[i] == '{' ==> PassedOver(content, i, decode)
  }

  /** Where the accepted object starts. */
  ghost function CallAt<C>(content: string, from: nat, decode: Decoder<C>): (r: Option<nat>)
    requires from <= |content|
    decreases |content| - from
  {
    if from == |content| then None
    else if content[from] != '{' then CallAt(content, from + 1, decode)
    else if Candidate(content, from).None? then None
    else if PassedOver(content, from, decode) then CallAt(content, from + 1, decode)
    else Some(from)
  }

  lemma {:induction false} CallAtIsFirst<C>(content: string, from: nat, decode: Decoder<C>)
    requires from <= |content|
    ensures var at := CallAt(content, from, decode);
            && (at.None? <==> FirstCall(content, from, decode).None?)
            && (at.Some? ==> from <= at.value < |content|)
            && (at.Some? ==> FirstCall(content, from, decode).value.textBefore == TrimSpace(content[..at.value]))
    decreases |content| - from
  {
    if from < |content| {
      if content[from] != '{' || PassedOver(content, from, decode) { CallAtIsFirst(content, from + 1, decode); }
    }
  }

  lemma {:induction false} ReachedOrNot<C>(content: string, from: nat, n: nat, decode: Decoder<C>)
    requires from <= n < |content| && content[n] == '{'
    requires Candidate(content, n).Some? && !PassedOver(content, n, decode)
    ensures CallAt(content, from, decode) == Some(n) <==>
              forall i :: from <= i < n && content[i] == '{' ==> PassedOver(content, i, decode)
    ensures CallAt(content, from, decode) == Some(n) ==> FirstCall(content, from, decode) == FirstCall(content, n, decode)
    decreases n - from
  {
    if from < n {
      ReachedOrNot(content, from + 1, n, decode);
      CallAtIsFirst(content, from + 1, decode);
    }
  }

  /** What the search makes of a decodable object once it gets there. */
  lemma TakesPrintedCall<C>(before: string, j: Json, gap: string, after: string, decode: Decoder<C>)
    requires j.Obj? && Valid(j) && IsQuietText(gap) && decode(Print(j, gap)).Some?
    ensures var content, n := before + Print(j, gap) + after, |before|;
            && n < |content| && content[n] == '{' && Candidate(content, n).Some?
            && !PassedOver(content, n, decode)
            && FirstCall(content, n, decode) == Some(Found(decode(Print(j, gap)).value, TrimSpace(before)))
  {
    var content, n := before + Print(j, gap) + after, |before|;
    assert content[n..] == Print(j, gap) + after;
    MatchesPrintedObject(j, gap, after);
    assert content[n..n + |Print(j, gap)|] == Print(j, gap);
    assert content[..n] == before;
  }

  /** Exact, after any prose: a decodable object is the one that is found, whole and with the prose before it, if
      and only if every open brace of the prose closes and encloses no call. */
  lemma FindsCallExactly<C>(before: string, j: Json, gap: string, after: string, decode: Decoder<C>)
    requires j.Obj? && Valid(j) && IsQuietText(gap) && decode(Print(j, gap)).Some?
    ensures var content := before + Print(j, gap) + after;
            && (CallAt(content, 0, decode) == Some(|before|) <==> Reached(content, |before|, decode))
            && (Reached(content, |before|, decode) ==>
                  FirstCall(content, 0, decode) == Some(Found(decode(Print(j, gap)).value, TrimSpace(before))))
  {
    var content := before + Print(j, gap) + after;
    TakesPrintedCall(before, j, gap, after, decode);
    ReachedOrNot(content, 0, |before|, decode);
  }

  /** In particular after prose without open braces, no matter what follows. */
  lemma FindsPrintedCall<C>(before: string, j: Json, gap: string, after: string, decode: Decoder<C>)
    requires forall i :: 0 <= i < |before| ==> before[i] != '{'
    requires j.Obj? && Valid(j) && IsQuietText(gap) && decode(Print(j, gap)).Some?
    ensures FirstCall(before + Print(j, gap) + after, 0, decode) ==
            Some(Found(decode(Print(j, gap)).value, TrimSpace(before)))
  {
    FindsCallExactly(before, j, gap, after, decode);
  }

  // ----- a stray open brace before the call -----

  lemma {:induction false} PassesThenGoesOn(st: Scanner, p: string, end: Scanner, rest: string)
    requires PassesTo(st, p, end)
    ensures ClosingIn(st, p + rest) ==
            match ClosingIn(end, rest) case None => None case Some(d) => Some(|p| + d)
    decreases |p|
  {
    if p == "" {
      assert p + rest == rest;
    } else {
      assert (p + rest)[1..] == p[1..] + rest;
      PassesThenGoesOn(Feed(st, p[0]), p[1..], end, rest);
    }
  }

  /** An open brace that is still open, outside strings, where the call begins: it closes if and only if the text
      after the call closes it, and then the candidate runs past the call. */
  lemma StrayBrace(open: string, j: Json, gap: string, after: string, end: Scanner)
    requires PassesTo(START, open, end) && Outside(end) && Valid(j) && IsQuietText(gap)
    ensures ClosingIn(START, open + Print(j, gap) + after) ==
            match ClosingIn(end, after) case None => None case Some(d) => Some(|open + Print(j, gap)| + d)
  {
    ValuePasses(end, j, gap);
    PassesCompose(START, open, end, Print(j, gap), end);
    PassesThenGoesOn(START, open + Print(j, gap), end, after);
  }

  /** The comment at the source's break says that no later brace is worth a look. A stray open brace that
      nothing after the call closes makes the search miss a call that stands there whole. */
  lemma StrayBraceHidesCall<C>(prose: string, open: string, j: Json, gap: string, after: string, end: Scanner,
                               decode: Decoder<C>)
    requires forall i :: 0 <= i < |prose| ==> prose[i] != '{'
    requires open != "" && open[0] == '{' && PassesTo(START, open, end) && Outside(end)
    requires j.Obj? && Valid(j) && IsQuietText(gap) && ClosingIn(end, after).None?
    ensures FirstCall(prose + open + Print(j, gap) + after, 0, decode) == None
  {
    var content, n := prose + open + Print(j, gap) + after, |prose|;
    var rest := open + Print(j, gap) + after;
    assert content == prose + rest && content[n..] == rest;
    StrayBrace(open, j, gap, after, end);
    SkipsPlainText(content, 0, n, decode);
  }

  /** `{ {"name": ..., "arguments": ...}`: the search gives up at the first brace; begun at the second, it finds
      the call. */
  lemma StrayBraceExample<C>(j: Json, gap: string, decode: Decoder<C>)
    requires j.Obj? && Valid(j) && IsQuietText(gap) && decode(Print(j, gap)).Some?
    ensures FirstCall("{ " + Print(j, gap), 0, decode) == None
    ensures FirstCall("{ " + Print(j, gap), 2, decode).Some?
  {
    var open := Scanner(1, false, false);
    OnePasses(START, '{');
    OnePasses(open, ' ');
    PassesCompose(START, "{", open, " ", open);
    assert "{" + " " == "{ ";
    StrayBraceHidesCall("", "{ ", j, gap, "", open, decode);
    TakesPrintedCall("{ ", j, gap, "", decode);
    assert "" + "{ " + Print(j, gap) + "" == "{ " + Print(j, gap) == "{ " + Print(j, gap) + "";
  }
}
