// Postgres text[] literals (pkg/httputil/httputil.go): a printer that quotes every element and a
// parser that also accepts unquoted ones. A Go string is a sequence of bytes; so is a string here.
module PgArray {
  import opened Text

  // ----- printing -----

  /** strings.ReplaceAll for a one-byte pattern. */
  function ReplaceAll(s: string, c: char, repl: string): string {
    if s == "" then "" else (if s[0] == c then repl else [s[0]]) + ReplaceAll(s[1..], c, repl)
  }

  /** Backslashes are doubled first, then quotes get a backslash. */
  function Quote(s: string): string {
    "\"" + ReplaceAll(ReplaceAll(s, '\\', "\\\\"), '"', "\\\"") + "\""
  }

  function QuoteAll(arr: seq<string>): seq<string> {
    seq(|arr|, i requires 0 <= i < |arr| => Quote(arr[i]))
  }

  function Print(arr: seq<string>): string {
    "{" + Join(QuoteAll(arr), ",") + "}"
  }

  method StringsSliceToPgArray(arr: seq<string>) returns (s: string)
    ensures s == Print(arr)
  {
    if |arr| == 0 {
      return "{}";
    }
    var parts := [];
    for k := 0 to |arr|
      invariant parts == QuoteAll(arr[..k])
    {
      parts := parts + [Quote(arr[k])];
    }
    assert arr[..|arr|] == arr;
    s := "{" + Join(parts, ",") + "}";
  }

  // ----- parsing -----

  /** The elements still to come, from what is left of the literal and of the element under way. */
  function Elements(rest: string, cur: string, inQuote: bool, hasContent: bool): seq<string>
    decreases |rest|
  {
    if rest == "" then (if hasContent then [cur] else [])
    else
      var c := rest[0];
      if inQuote then
        if c == '\\' && |rest| > 1 then Elements(rest[2..], cur + [rest[1]], true, true)
        else if c == '"' then Elements(rest[1..], cur, false, hasContent)
        else Elements(rest[1..], cur + [c], true, true)
      else if c == '"' then Elements(rest[1..], cur, true, true)
      else if c == ',' then (if hasContent then [cur] else []) + Elements(rest[1..], "", false, false)
      else Elements(rest[1..], cur + [c], false, true)
  }

  /** Empty elements and NULL markers are dropped, order kept. */
  function Present(elems: seq<string>): seq<string> {
    if elems == [] then []
    else (if elems[0] != "NULL" && elems[0] != "" then [elems[0]] else []) + Present(elems[1..])
  }

  function Parse(text: string): seq<string> {
    var s := TrimSpace(text);
    if |s| < 2 || s[0] != '{' || s[|s| - 1] != '}' then []
    else Present(Elements(s[1..|s| - 1], "", false, false))
  }

  lemma AppendIf(a: seq<string>, x: string, on: bool, b: seq<string>)
    ensures a + ((if on then [x] else []) + b) == (if on then a + [x] else a) + b
  {
  }

  lemma PresentAt(elems: seq<string>, k: nat)
    requires k < |elems|
    ensures Present(elems[k..]) ==
            (if elems[k] != "NULL" && elems[k] != "" then [elems[k]] else []) + Present(elems[k + 1..])
  {
    assert elems[k..][1..] == elems[k + 1..];
  }

  method DropMissing(elems: seq<string>) returns (out: seq<string>)
    ensures out == Present(elems)
  {
    out := [];
    for k := 0 to |elems|
      invariant out + Present(elems[k..]) == Present(elems)
    {
      PresentAt(elems, k);
      AppendIf(out, elems[k], elems[k] != "NULL" && elems[k] != "", Present(elems[k + 1..]));
      if elems[k] != "NULL" && elems[k] != "" {
        out := out + [elems[k]];
      }
    }
  }

  /** One character of the scan. */
  lemma ElementsAt(s: string, i: nat, cur: string, inQuote: bool, hasContent: bool)
    requires i < |s|
    ensures Elements(s[i..], cur, inQuote, hasContent) ==
            if inQuote then
              if s[i] == '\\' && i + 1 < |s| then Elements(s[i + 2..], cur + [s[i + 1]], true, true)
              else if s[i] == '"' then Elements(s[i + 1..], cur, false, hasContent)
              else Elements(s[i + 1..], cur + [s[i]], true, true)
            else if s[i] == '"' then Elements(s[i + 1..], cur, true, true)
            else if s[i] == ',' then (if hasContent then [cur] else []) + Elements(s[i + 1..], "", false, false)
            else Elements(s[i + 1..], cur + [s[i]], false, true)
  {
    var rest := s[i..];
    assert rest[0] == s[i] && rest[1..] == s[i + 1..];
    if i + 1 < |s| { assert rest[1] == s[i + 1] && rest[2..] == s[i + 2..]; }
  }

  method ParsePgTextArray(text: string) returns (out: seq<string>)
    ensures out == Parse(text)
  {
    var s := TrimSpace(text);
    if |s| < 2 || s[0] != '{' || s[|s| - 1] != '}' {
      return [];
    }
    var inner := s[1..|s| - 1];
    if inner == "" {
      return [];
    }
    var result: seq<string> := [];
    var cur, inQuote, hasContent, i := "", false, false, 0;
    while i < |inner|
      invariant i <= |inner|
      invariant result + Elements(inner[i..], cur, inQuote, hasContent) == Elements(inner, "", false, false)
    {
      var c := inner[i];
      ElementsAt(inner, i, cur, inQuote, hasContent);
      if inQuote {
        if c == '\\' && i + 1 < |inner| {
          cur := cur + [inner[i + 1]];
          i := i + 2;
          hasContent := true;
          continue;
        }
        if c == '"' {
          inQuote := false;
          i := i + 1;
          continue;
        }
        cur := cur + [c];
        hasContent := true;
        i := i + 1;
        continue;
      }
      if c == '"' {
        inQuote := true;
        hasContent := true;
        i := i + 1;
        continue;
      }
      if c == ',' {
        AppendIf(result, cur, hasContent, Elements(inner[i + 1..], "", false, false));
        if hasContent {
          result := result + [cur];
        }
        cur := "";
        hasContent := false;
        i := i + 1;
        continue;
      }
      cur := cur + [c];
      hasContent := true;
      i := i + 1;
    }
    if hasContent {
      result := result + [cur];
    }
    assert result == Elements(inner, "", false, false);
    out := DropMissing(result);
  }

  // ----- round trip -----

  /** The body between the quotes, character by character. */
  function Escaped(s: string): string {
    if s == "" then ""
    else (if s[0] == '\\' || s[0] == '"' then ['\\', s[0]] else [s[0]]) + Escaped(s[1..])
  }

  /** Doubling backslashes before escaping quotes escapes each character once: the second pass never
      sees a backslash of its own making. */
  lemma {:induction false} TwoPassEscape(s: string)
    ensures ReplaceAll(ReplaceAll(s, '\\', "\\\\"), '"', "\\\"") == Escaped(s)
  {
    if s != "" {
      var head := if s[0] == '\\' then "\\\\" else [s[0]];
      var tail := ReplaceAll(s[1..], '\\', "\\\\");
      TwoPassEscape(s[1..]);
      ReplaceAllAppend(head, tail, '"', "\\\"");
      if s[0] == '\\' {
        assert head[1..] == ['\\'] && head[1..][1..] == "";
        assert ReplaceAll(head, '"', "\\\"") == head;
      } else {
        assert head[1..] == "";
      }
    }
  }

  lemma {:induction false} ReplaceAllAppend(a: string, b: string, c: char, repl: string)
    ensures ReplaceAll(a + b, c, repl) == ReplaceAll(a, c, repl) + ReplaceAll(b, c, repl)
  {
    if a == "" {
      assert a + b == b;
    } else {
      assert (a + b)[1..] == a[1..] + b;
      ReplaceAllAppend(a[1..], b, c, repl);
    }
  }

  /** Inside quotes the parser reads an escaped body back, and the closing quote ends it. */
  lemma {:induction false} ReadsEscaped(s: string, rest: string, cur: string)
    ensures Elements(Escaped(s) + "\"" + rest, cur, true, true) == Elements(rest, cur + s, false, true)
    decreases |s|
  {
    var text := Escaped(s) + "\"" + rest;
    if s == "" {
      assert text[1..] == rest && cur + s == cur;
    } else {
      var tail := Escaped(s[1..]) + "\"" + rest;
      ReadsEscaped(s[1..], rest, cur + [s[0]]);
      assert cur + [s[0]] + s[1..] == cur + s;
      if s[0] == '\\' || s[0] == '"' {
        assert text[0] == '\\' && text[1] == s[0] && text[2..] == tail;
      } else {
        assert text[0] == s[0] && text[1..] == tail;
      }
    }
  }

  lemma ReadsQuoted(s: string, rest: string)
    ensures Elements(Quote(s) + rest, "", false, false) == Elements(rest, s, false, true)
  {
    TwoPassEscape(s);
    var text := Quote(s) + rest;
    assert text[0] == '"' && text[1..] == Escaped(s) + "\"" + rest;
    ReadsEscaped(s, rest, "");
    assert "" + s == s;
  }

  lemma {:induction false} ReadsJoined(arr: seq<string>)
    ensures Elements(Join(QuoteAll(arr), ","), "", false, false) == arr
  {
    if |arr| == 1 {
      assert Quote(arr[0]) + "" == Quote(arr[0]);
      ReadsQuoted(arr[0], "");
    } else if |arr| > 1 {
      assert QuoteAll(arr)[1..] == QuoteAll(arr[1..]);
      var rest := "," + Join(QuoteAll(arr[1..]), ",");
      assert Join(QuoteAll(arr), ",") == Quote(arr[0]) + rest;
      ReadsQuoted(arr[0], rest);
      assert rest[1..] == Join(QuoteAll(arr[1..]), ",");
      ReadsJoined(arr[1..]);
    }
  }

  /** Parsing a printed array gives it back without its empty and NULL elements. */
  lemma RoundTrip(arr: seq<string>)
    ensures Parse(Print(arr)) == Present(arr)
  {
    var s := Print(arr);
    NothingToTrim(s);
    assert s[1..|s| - 1] == Join(QuoteAll(arr), ",");
    ReadsJoined(arr);
  }

  /** The round trip is the identity exactly on arrays with no empty element and no "NULL". */
  lemma {:induction false} RoundTripExact(arr: seq<string>)
    ensures Parse(Print(arr)) == arr <==> forall k :: 0 <= k < |arr| ==> arr[k] != "" && arr[k] != "NULL"
  {
    RoundTrip(arr);
    PresentShorter(arr);
  }

  lemma {:induction false} PresentShorter(arr: seq<string>)
    ensures |Present(arr)| <= |arr|
    ensures Present(arr) == arr <==> forall k :: 0 <= k < |arr| ==> arr[k] != "" && arr[k] != "NULL"
  {
    if arr != [] {
      PresentShorter(arr[1..]);
      assert arr == [arr[0]] + arr[1..];
      assert forall k :: 0 < k < |arr| ==> arr[k] == arr[1..][k - 1];
      if arr[0] != "NULL" && arr[0] != "" {
        assert Present(arr)[1..] == Present(arr[1..]);
        assert forall k :: 0 <= k < |arr[1..]| ==> arr[1..][k] == arr[k + 1];
      }
    }
  }

  // ----- any literal the parser accepts -----

  /** An element as it may be written: between quotes, or as it is when it holds neither quote nor comma. */
  datatype Written = InQuotes(text: string) | Bare(text: string)

  predicate PlainText(s: string) {
    forall i | 0 <= i < |s| :: s[i] != '"' && s[i] != ','
  }

  function WrittenText(w: Written): string {
    if w.InQuotes? then Quote(w.text) else w.text
  }

  function WrittenTexts(ws: seq<Written>): seq<string> {
    seq(|ws|, i requires 0 <= i < |ws| => WrittenText(ws[i]))
  }

  function Values(ws: seq<Written>): seq<string> {
    seq(|ws|, i requires 0 <= i < |ws| => ws[i].text)
  }

  predicate WellWritten(ws: seq<Written>) {
    forall i | 0 <= i < |ws| :: ws[i].Bare? ==> PlainText(ws[i].text)
  }

  lemma {:induction false} ReadsBare(s: string, rest: string, cur: string, has: bool)
    requires PlainText(s)
    ensures Elements(s + rest, cur, false, has) == Elements(rest, cur + s, false, has || s != "")
    decreases |s|
  {
    if s == "" {
      assert s + rest == rest && cur + s == cur;
    } else {
      assert (s + rest)[1..] == s[1..] + rest;
      ReadsBare(s[1..], rest, cur + [s[0]], true);
      assert cur + [s[0]] + s[1..] == cur + s;
    }
  }

  /** One written element, and what follows it. */
  lemma ReadsOne(w: Written, rest: string)
    requires w.Bare? ==> PlainText(w.text)
    ensures Elements(WrittenText(w) + rest, "", false, false) == Elements(rest, w.text, false, w.InQuotes? || w.text != "")
  {
    if w.InQuotes? {
      ReadsQuoted(w.text, rest);
    } else {
      ReadsBare(w.text, rest, "", false);
      assert "" + w.text == w.text;
    }
  }

  lemma PresentFirst(x: string, has: bool, more: seq<string>)
    requires !has ==> x == ""
    ensures Present((if has then [x] else []) + more) == (if x != "NULL" && x != "" then [x] else []) + Present(more)
  {
    assert ([x] + more)[1..] == more && [] + more == more;
    assert [] + Present(more) == Present(more);
  }

  predicate Content(w: Written) {
    w.InQuotes? || w.text != ""
  }

  /** An element and, behind a comma, the rest of the list. */
  lemma ReadsFirst(w: Written, tail: string, values: seq<string>)
    requires w.Bare? ==> PlainText(w.text)
    requires Present(Elements(tail, "", false, false)) == Present(values)
    ensures Present(Elements(WrittenText(w) + ("," + tail), "", false, false)) == Present([w.text] + values)
  {
    var rest := "," + tail;
    assert rest[1..] == tail;
    ReadsOne(w, rest);
    PresentFirst(w.text, Content(w), Elements(tail, "", false, false));
    PresentFirst(w.text, true, values);
  }

  lemma ReadsLast(w: Written)
    requires w.Bare? ==> PlainText(w.text)
    ensures Present(Elements(WrittenText(w), "", false, false)) == Present([w.text])
  {
    assert WrittenText(w) + "" == WrittenText(w);
    ReadsOne(w, "");
    PresentFirst(w.text, Content(w), []);
    PresentFirst(w.text, true, []);
    assert [w.text] + [] == [w.text];
  }

  lemma WrittenSplit(w: Written, tail: seq<Written>)
    ensures Values([w] + tail) == [w.text] + Values(tail)
    ensures tail != [] ==> Join(WrittenTexts([w] + tail), ",") == WrittenText(w) + ("," + Join(WrittenTexts(tail), ","))
  {
    assert WrittenTexts([w] + tail) == [WrittenText(w)] + WrittenTexts(tail);
  }

  lemma {:induction false} ReadsWritten(ws: seq<Written>)
    requires WellWritten(ws)
    ensures Present(Elements(Join(WrittenTexts(ws), ","), "", false, false)) == Present(Values(ws))
    decreases |ws|
  {
    if ws != [] {
      var w, tail := ws[0], ws[1..];
      assert ws == [w] + tail;
      WrittenSplit(w, tail);
      if tail == [] {
        ReadsLast(w);
      } else {
        ReadsWritten(tail);
        ReadsFirst(w, Join(WrittenTexts(tail), ","), Values(tail));
      }
    }
  }

  /** Exact: of a literal in braces, quoted and unquoted elements mixed, with any white space around it, the elements
      are read in order, but for empty ones and NULL. */
  lemma ReadsAnyLiteral(l: string, ws: seq<Written>, r: string)
    requires WellWritten(ws) && AllSpace(l) && AllSpace(r)
    ensures Parse(l + ("{" + Join(WrittenTexts(ws), ",") + "}") + r) == Present(Values(ws))
  {
    var s := "{" + Join(WrittenTexts(ws), ",") + "}";
    TrimExactly(l, s, r);
    assert s[1..|s| - 1] == Join(WrittenTexts(ws), ",");
    ReadsWritten(ws);
  }

  /** Anything else than braces around it gives nothing. */
  lemma ReadsNothingElse(l: string, s: string, r: string)
    requires AllSpace(l) && AllSpace(r) && s != "" && !IsSpace(s[0]) && !IsSpace(s[|s| - 1])
    requires s[0] != '{' || s[|s| - 1] != '}'
    ensures Parse(l + s + r) == []
  {
    TrimExactly(l, s, r);
  }

  /** Exact: only the empty text and NULL are dropped, and the order is kept. */
  lemma {:induction false} PresentExactly(a: seq<string>, x: string, b: seq<string>)
    ensures Present([]) == []
    ensures Present(a + [x] + b) == Present(a) + (if x == "" || x == "NULL" then [] else [x]) + Present(b)
  {
    if a == [] {
      assert a + [x] + b == [x] + b;
      PresentFirst(x, true, b);
    } else {
      assert (a + [x] + b)[1..] == a[1..] + [x] + b;
      PresentExactly(a[1..], x, b);
    }
  }
}
