// Strings as the Go standard library treats them: byte order of UTF-8 (which is code-point order),
// TrimSpace, and decimal numbers.
module Text {
  // ----- order -----

  predicate LessEq(a: string, b: string) {
    a == "" || (b != "" && (a[0] < b[0] || (a[0] == b[0] && LessEq(a[1..], b[1..]))))
  }

  lemma {:induction false} LessEqTotal(a: string, b: string)
    ensures LessEq(a, b) || LessEq(b, a)
    ensures LessEq(a, b) && LessEq(b, a) ==> a == b
    ensures a == b ==> LessEq(a, b)
  {
    if a != "" && b != "" {
      LessEqTotal(a[1..], b[1..]);
      assert a == [a[0]] + a[1..] && b == [b[0]] + b[1..];
    }
  }

  /** At k, behind a common beginning, a is smaller. */
  predicate SmallerAt(a: string, b: string, k: nat) {
    k < |a| && k < |b| && a[..k] == b[..k] && a[k] < b[k]
  }

  lemma SmallerBehind(c: char, a: string, b: string, k: nat)
    ensures SmallerAt([c] + a, [c] + b, k + 1) <==> SmallerAt(a, b, k)
  {
    if k < |a| && k < |b| {
      assert ([c] + a)[..k + 1] == [c] + a[..k] && ([c] + b)[..k + 1] == [c] + b[..k];
      assert ([c] + a[..k])[1..] == a[..k] && ([c] + b[..k])[1..] == b[..k];
    }
  }

  lemma SmallerFirst(a: string, b: string)
    requires a != "" && b != ""
    ensures SmallerAt(a, b, 0) <==> a[0] < b[0]
    ensures forall k: nat :: k > 0 && SmallerAt(a, b, k) ==> a[0] == b[0]
  {
    assert a[..0] == b[..0];
    forall k: nat | k > 0 && SmallerAt(a, b, k) ensures a[0] == b[0] {
      assert a[..k][0] == b[..k][0];
    }
  }

  /** Exact: a is a prefix of b, or smaller where they first differ. */
  lemma {:induction false} LessEqExactly(a: string, b: string)
    ensures LessEq(a, b) <==> a <= b || exists k: nat :: SmallerAt(a, b, k)
  {
    if a != "" && b != "" {
      SmallerFirst(a, b);
      if a[0] == b[0] {
        LessEqExactly(a[1..], b[1..]);
        assert a == [a[0]] + a[1..] && b == [a[0]] + b[1..];
        forall k: nat | SmallerAt(a[1..], b[1..], k) ensures SmallerAt(a, b, k + 1) {
          SmallerBehind(a[0], a[1..], b[1..], k);
        }
        forall k: nat | SmallerAt(a, b, k) ensures k > 0 && SmallerAt(a[1..], b[1..], k - 1) {
          SmallerBehind(a[0], a[1..], b[1..], k - 1);
        }
      }
    }
  }

  lemma {:induction false} LessEqTransitive(a: string, b: string, c: string)
    requires LessEq(a, b) && LessEq(b, c)
    ensures LessEq(a, c)
  {
    if a != "" && a[0] == b[0] == c[0] {
      LessEqTransitive(a[1..], b[1..], c[1..]);
    }
  }

  ghost predicate IsLeast(x: string, s: set<string>) {
    x in s && forall y :: y in s ==> LessEq(x, y)
  }

  lemma {:induction false} LeastExists(s: set<string>)
    requires s != {}
    ensures exists x :: IsLeast(x, s)
  {
    var x :| x in s;
    LessEqTotal(x, x);
    if s == {x} {
      assert IsLeast(x, s);
    } else {
      LeastExists(s - {x});
      var y :| IsLeast(y, s - {x});
      LessEqTotal(x, y);
      if LessEq(x, y) {
        forall z | z in s ensures LessEq(x, z) {
          if z != x { LessEqTransitive(x, y, z); }
        }
        assert IsLeast(x, s);
      } else {
        assert IsLeast(y, s);
      }
    }
  }

  lemma LeastUnique(x: string, y: string, s: set<string>)
    requires IsLeast(x, s) && IsLeast(y, s)
    ensures x == y
  {
    LessEqTotal(x, y);
  }

  function Least(s: set<string>): (x: string)
    requires s != {}
    ensures IsLeast(x, s)
  {
    LeastExists(s);
    assert forall x, y :: IsLeast(x, s) && IsLeast(y, s) ==> x == y by {
      forall x, y | IsLeast(x, s) && IsLeast(y, s) ensures x == y { LeastUnique(x, y, s); }
    }
    assert forall x :: IsLeast(x, s) <==> (x in s && forall y | y in s :: LessEq(x, y));
    var x :| x in s && forall y | y in s :: LessEq(x, y);
    x
  }

  /** Strictly ascending, so in particular without repetitions. */
  ghost predicate Ascending(s: seq<string>) {
    forall i: nat, j: nat :: AscendsAt(s, i, j)
  }

  predicate AscendsAt(s: seq<string>, i: nat, j: nat) {
    i < j < |s| ==> LessEq(s[i], s[j]) && s[i] != s[j]
  }

  lemma ConsAscends(x: string, rest: seq<string>)
    requires Ascending(rest) && forall y :: y in rest ==> LessEq(x, y) && x != y
    ensures Ascending([x] + rest)
  {
    forall i: nat, j: nat ensures AscendsAt([x] + rest, i, j) {
      if 0 < i < j {
        assert AscendsAt(rest, i - 1, j - 1);
      } else if i < j <= |rest| {
        assert rest[j - 1] in rest;
      }
    }
  }

  /** All but the last of an ascending list come before the last. */
  lemma AscendingFront(s: seq<string>)
    requires Ascending(s) && s != []
    ensures var n := |s| - 1;
            Ascending(s[..n]) && forall x :: x in s[..n] ==> LessEq(x, s[n]) && x != s[n]
  {
    var n := |s| - 1;
    forall i: nat, j: nat ensures AscendsAt(s[..n], i, j) { assert AscendsAt(s, i, j); }
    forall x | x in s[..n] ensures LessEq(x, s[n]) && x != s[n] {
      var i: nat :| i < n && s[..n][i] == x;
      assert AscendsAt(s, i, n);
    }
  }

  /** The elements of a set in ascending order, as sort.Strings leaves the keys of a map. */
  function Sorted(s: set<string>): (r: seq<string>)
    ensures forall x :: x in r <==> x in s
    ensures Ascending(r)
  {
    if s == {} then []
    else
      var x := Least(s);
      var rest := Sorted(s - {x});
      ConsAscends(x, rest);
      [x] + rest
  }

  // ----- white space -----

  predicate IsSpace(c: char) {
    c in {'\t', '\n', '\U{0B}', '\U{0C}', '\r', ' ', '\U{85}', '\U{A0}', '\U{1680}', '\U{2028}', '\U{2029}',
          '\U{202F}', '\U{205F}', '\U{3000}'} || '\U{2000}' <= c <= '\U{200A}'
  }

  function TrimLeft(s: string): string {
    if s != "" && IsSpace(s[0]) then TrimLeft(s[1..]) else s
  }

  function TrimRight(s: string): string {
    if s != "" && IsSpace(s[|s| - 1]) then TrimRight(s[..|s| - 1]) else s
  }

  function TrimSpace(s: string): string {
    TrimRight(TrimLeft(s))
  }

  /** Text without white space at either end is left alone. */
  lemma NothingToTrim(s: string)
    requires s == "" || (!IsSpace(s[0]) && !IsSpace(s[|s| - 1]))
    ensures TrimSpace(s) == s
  {
  }

  lemma {:induction false} TrimLeftEnds(s: string)
    ensures TrimLeft(s) == "" || (!IsSpace(TrimLeft(s)[0]) && TrimLeft(s)[|TrimLeft(s)| - 1] == s[|s| - 1])
  {
    if s != "" && IsSpace(s[0]) { TrimLeftEnds(s[1..]); }
  }

  lemma {:induction false} TrimRightEnds(s: string)
    ensures TrimRight(s) == "" || (!IsSpace(TrimRight(s)[|TrimRight(s)| - 1]) && TrimRight(s)[0] == s[0])
  {
    if s != "" && IsSpace(s[|s| - 1]) { TrimRightEnds(s[..|s| - 1]); }
  }

  lemma TrimIsIdempotent(s: string)
    ensures TrimSpace(TrimSpace(s)) == TrimSpace(s)
  {
    TrimLeftEnds(s);
    TrimRightEnds(TrimLeft(s));
    NothingToTrim(TrimSpace(s));
  }

  predicate AllSpace(s: string) {
    forall i | 0 <= i < |s| :: IsSpace(s[i])
  }

  /** Exact: what trimming leaves is the text without the white space at its ends. */
  lemma {:induction false} TrimExactly(l: string, m: string, r: string)
    requires AllSpace(l) && AllSpace(r) && (m == "" || (!IsSpace(m[0]) && !IsSpace(m[|m| - 1])))
    ensures TrimSpace(l + m + r) == m
    decreases |l| + |r|
  {
    if l != "" {
      assert l + m + r == [l[0]] + (l[1..] + m + r);
      TrimExactly(l[1..], m, r);
    } else {
      assert l + m + r == m + r;
      if m == "" { LeftOfSpace(r); assert m + r == r; } else { RightOfSpace(m, r); }
    }
  }

  lemma {:induction false} LeftOfSpace(r: string)
    requires AllSpace(r)
    ensures TrimLeft(r) == ""
  {
    if r != "" { LeftOfSpace(r[1..]); }
  }

  lemma {:induction false} RightOfSpace(m: string, r: string)
    requires AllSpace(r) && m != "" && !IsSpace(m[0]) && !IsSpace(m[|m| - 1])
    ensures TrimLeft(m + r) == m + r && TrimRight(m + r) == m
    decreases |r|
  {
    if r != "" {
      assert (m + r)[..|m + r| - 1] == m + r[..|r| - 1];
      RightOfSpace(m, r[..|r| - 1]);
    } else {
      assert m + r == m;
    }
  }

  // ----- numbers -----

  predicate IsDigit(c: char) {
    '0' <= c <= '9'
  }

  predicate IsDigits(s: string) {
    s != "" && forall i | 0 <= i < |s| :: IsDigit(s[i])
  }

  function Decimal(n: nat): (s: string)
    ensures IsDigits(s)
  {
    if n < 10 then ['0' + n as char] else Decimal(n / 10) + ['0' + (n % 10) as char]
  }

  function ValueOf(digits: string): int {
    if digits == "" then 0 else 10 * ValueOf(digits[..|digits| - 1]) + (digits[|digits| - 1] as int - '0' as int)
  }

  /** Exact: the digits of n, most significant first, without leading zeros. */
  lemma {:induction false} DecimalExactly(n: nat)
    ensures ValueOf(Decimal(n)) == n && (|Decimal(n)| > 1 ==> Decimal(n)[0] != '0')
  {
    if n >= 10 {
      DecimalExactly(n / 10);
      var last := ['0' + (n % 10) as char];
      assert (Decimal(n / 10) + last)[..|Decimal(n / 10)|] == Decimal(n / 10);
      NoZero(n / 10);
    } else {
      assert Decimal(n)[..0] == "";
    }
  }

  lemma NoZero(n: nat)
    requires n > 0
    ensures |Decimal(n)| == 1 ==> Decimal(n)[0] != '0'
  {
  }

  // ----- joining -----

  /** strings.Join. */
  function Join(parts: seq<string>, sep: string): string {
    if parts == [] then ""
    else if |parts| == 1 then parts[0]
    else parts[0] + sep + Join(parts[1..], sep)
  }
}
