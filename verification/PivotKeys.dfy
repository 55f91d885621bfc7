// The key a row's dimension values are joined into: when two tuples of values share one.
module PivotKeys {
  import opened Text
  import opened Pivot

  // ----- counting separators -----

  /** How many separators can be found one after another, from the left. */
  function Bars(s: string): nat {
    if |s| < 2 then 0
    else if s[0] == '|' && s[1] == '|' then 1 + Bars(s[2..])
    else Bars(s[1..])
  }

  lemma {:induction false} BarsGrow(c: char, s: string)
    ensures Bars(s) <= Bars([c] + s) <= Bars(s) + 1
    decreases |s|
  {
    assert ([c] + s)[1..] == s;
    if s != [] {
      assert ([c] + s)[2..] == s[1..];
      assert s == [s[0]] + s[1..];
      BarsGrow(s[0], s[1..]);
    }
  }

  /** A separator inside a text counts, whatever stands before it. */
  lemma {:induction false} BarsBehind(x: string, y: string)
    ensures Bars(x + BARS + y) >= 1 + Bars(y)
    decreases |x|
  {
    var s := x + BARS + y;
    if x == "" {
      assert s[2..] == y;
    } else if s[0] == '|' && s[1] == '|' {
      if |x| == 1 {
        assert s[2..] == ['|'] + y;
        BarsGrow('|', y);
      } else {
        assert s[2..] == x[2..] + BARS + y;
        BarsBehind(x[2..], y);
      }
    } else {
      assert s[1..] == x[1..] + BARS + y;
      BarsBehind(x[1..], y);
    }
  }

  lemma {:induction false} BarsOfAny(c: seq<string>)
    requires c != []
    ensures Bars(Join(c, BARS)) >= |c| - 1
  {
    if |c| > 1 {
      BarsOfAny(c[1..]);
      BarsBehind(c[0], Join(c[1..], BARS));
    }
  }

  // ----- values that do not meet a separator -----

  ghost predicate HasBars(s: string) {
    exists i, j :: 0 <= i && j == i + 1 && j < |s| && s[i] == '|' && s[j] == '|'
  }

  predicate StartsBar(s: string) {
    s != "" && s[0] == '|'
  }

  predicate EndsBar(s: string) {
    s != "" && s[|s| - 1] == '|'
  }

  /** Some value holds a separator, or half of one where it meets a separator. */
  ghost predicate Ambiguous(a: seq<string>) {
    && |a| > 1
    && exists i :: 0 <= i < |a| && (HasBars(a[i]) || (i < |a| - 1 && EndsBar(a[i])) || (i > 0 && StartsBar(a[i])))
  }

  lemma {:induction false} BarsOfPlain(x: string, y: string)
    requires !HasBars(x) && !EndsBar(x)
    ensures Bars(x + BARS + y) == 1 + Bars(y)
    decreases |x|
  {
    var s := x + BARS + y;
    if x == "" {
      assert s[2..] == y;
    } else {
      assert s[1..] == x[1..] + BARS + y;
      assert s[0] == x[0] && (|x| > 1 ==> s[1] == x[1]);
      BarsOfTail(x);
      BarsOfPlain(x[1..], y);
    }
  }

  lemma BarsOfTail(x: string)
    requires x != "" && !HasBars(x)
    ensures !HasBars(x[1..])
  {
  }

  lemma {:induction false} BarsOfOne(x: string)
    requires !HasBars(x)
    ensures Bars(x) == 0
  {
    if |x| > 1 {
      BarsOfTail(x);
      BarsOfOne(x[1..]);
    }
  }

  /** No value holds a separator, and none but the first begins with a bar, and none but the last ends with one. */
  ghost predicate Plain(a: seq<string>) {
    forall i :: 0 <= i < |a| ==> !HasBars(a[i]) && (i < |a| - 1 ==> !EndsBar(a[i])) && (i > 0 ==> !StartsBar(a[i]))
  }

  lemma PlainTail(a: seq<string>)
    requires |a| > 1 && Plain(a)
    ensures Plain(a[1..]) && !HasBars(a[0]) && !EndsBar(a[0]) && !StartsBar(a[1..][0])
  {
    forall i | 0 <= i < |a[1..]|
      ensures !HasBars(a[1..][i]) && (i < |a[1..]| - 1 ==> !EndsBar(a[1..][i])) && (i > 0 ==> !StartsBar(a[1..][i]))
    {
      var m := i + 1;
      assert a[1..][i] == a[m];
    }
  }

  lemma {:induction false} BarsOfPlainKey(a: seq<string>)
    requires a != [] && Plain(a)
    ensures Bars(Join(a, BARS)) == |a| - 1
  {
    if |a| > 1 {
      PlainTail(a);
      BarsOfPlainKey(a[1..]);
      BarsOfPlain(a[0], Join(a[1..], BARS));
    } else {
      BarsOfOne(a[0]);
    }
  }

  lemma JoinSplit(a: seq<string>)
    requires |a| > 1
    ensures Join(a, BARS) == a[0] + (BARS + Join(a[1..], BARS))
  {
  }

  lemma NoBarAdded(s: string)
    requires !StartsBar(s)
    ensures Bars(['|'] + s) == Bars(s)
  {
    assert (['|'] + s)[1..] == s;
  }

  lemma BarAndSeparator(y: string)
    ensures Bars(['|'] + (BARS + y)) == 1 + Bars(['|'] + y)
  {
    assert (['|'] + (BARS + y))[2..] == ['|'] + y;
  }

  /** One more bar in front of a plain key completes no further separator. */
  lemma {:induction false} BarBeforePlainKey(a: seq<string>)
    requires a != [] && Plain(a) && !StartsBar(a[0])
    ensures Bars(['|'] + Join(a, BARS)) == |a| - 1
  {
    if |a| > 1 && a[0] == "" {
      PlainTail(a);
      BarBeforePlainKey(a[1..]);
      BarAndSeparator(Join(a[1..], BARS));
      JoinSplit(a);
      assert "" + (BARS + Join(a[1..], BARS)) == BARS + Join(a[1..], BARS);
    } else {
      BarsOfPlainKey(a);
      NoBarAdded(Join(a, BARS));
    }
  }

  // ----- plain tuples have a key of their own -----

  lemma SplitText(a: string, x: string, b: string, y: string)
    requires a + x == b + y && |a| <= |b|
    ensures b[..|a|] == a && x == b[|a|..] + y
  {
    assert (a + x)[..|a|] == (b + y)[..|a|];
    assert (a + x)[|a|..] == (b + y)[|a|..];
  }

  /** A plain tuple and another one with the same key begin alike. */
  lemma SameFirst(a: seq<string>, b: seq<string>)
    requires |a| == |b| > 1 && Plain(a) && Join(a, BARS) == Join(b, BARS)
    ensures a[0] == b[0] && Join(a[1..], BARS) == Join(b[1..], BARS)
  {
    var ya, yb := Join(a[1..], BARS), Join(b[1..], BARS);
    PlainTail(a);
    JoinSplit(a);
    JoinSplit(b);
    if |b[0]| < |a[0]| {
      FirstTooShort(a[0], ya, b[0], yb);
    } else {
      SplitText(a[0], BARS + ya, b[0], BARS + yb);
      var z := b[0][|a[0]|..];
      if z != "" {
        BarsOfPlainKey(a[1..]);
        BarsOfAny(b[1..]);
        LongerFirst(z, ya, yb);
        LessBars(a[1..], yb);
      }
      SameRest(a[0], ya, b[0], yb);
    }
  }

  lemma SameRest(a: string, ya: string, b: string, yb: string)
    requires a + (BARS + ya) == b + (BARS + yb) && |a| == |b|
    ensures a == b && ya == yb
  {
    SplitText(a, BARS + ya, b, BARS + yb);
    assert b[|a|..] == "" && "" + (BARS + yb) == BARS + yb;
    assert (BARS + ya)[2..] == ya && (BARS + yb)[2..] == yb;
  }

  lemma FirstTooShort(a: string, ya: string, b: string, yb: string)
    requires a + (BARS + ya) == b + (BARS + yb) && |b| < |a|
    ensures HasBars(a) || EndsBar(a)
  {
    var i, j := |b|, |b| + 1;
    assert (b + (BARS + yb))[i] == '|' && (b + (BARS + yb))[j] == '|';
    assert a[i] == '|';
    if j < |a| { assert a[j] == '|'; }
  }

  /** When a first value reaches past another one, it takes in a separator, or the first half of one. */
  lemma LongerFirst(z: string, ya: string, yb: string)
    requires BARS + ya == z + (BARS + yb) && z != ""
    ensures Bars(ya) > Bars(yb) || ya == ['|'] + yb
  {
    var s := BARS + ya;
    assert s[2..] == ya;
    if |z| == 1 {
      assert s[0] == z[0] == '|';
      assert (z + (BARS + yb))[2..] == ['|'] + yb;
    } else {
      assert (z + (BARS + yb))[2..] == z[2..] + BARS + yb;
      BarsBehind(z[2..], yb);
    }
  }

  /** A plain key that begins with a bar has a separator there, and without its first bar it has one less. */
  lemma LessBars(a: seq<string>, y: string)
    requires a != [] && Plain(a) && !StartsBar(a[0]) && Join(a, BARS) == ['|'] + y
    ensures Bars(y) < |a| - 1
  {
    var s := Join(a, BARS);
    assert s[0] == '|';
    assert |a| > 1 && a[0] == "";
    PlainTail(a);
    var t := Join(a[1..], BARS);
    assert s == BARS + t;
    assert s[1..] == ['|'] + t && (['|'] + y)[1..] == y;
    BarBeforePlainKey(a[1..]);
  }

  /** A tuple without such values is told apart from every other by its key. */
  lemma {:induction false} KeysDistinguish(a: seq<string>, b: seq<string>)
    requires |a| == |b| && Join(a, BARS) == Join(b, BARS) && !Ambiguous(a)
    ensures a == b
  {
    if |a| > 1 {
      assert Plain(a);
      SameFirst(a, b);
      PlainTail(a);
      assert !Ambiguous(a[1..]);
      KeysDistinguish(a[1..], b[1..]);
      assert a == [a[0]] + a[1..] && b == [b[0]] + b[1..];
    } else if |a| == 1 {
      assert a == [a[0]] && b == [b[0]];
    }
  }

  // ----- the others share theirs -----

  /** Two neighbours that are replaced by others with the same text leave the key as it was. */
  lemma {:induction false} ReplacePair(a: seq<string>, i: nat, u: string, v: string)
    requires i + 1 < |a| && a[i] + BARS + a[i + 1] == u + BARS + v
    ensures Join(a[i := u][i + 1 := v], BARS) == Join(a, BARS)
    decreases i
  {
    var b := a[i := u][i + 1 := v];
    if i > 0 {
      ReplacePair(a[1..], i - 1, u, v);
      assert b[1..] == a[1..][i - 1 := u][i := v];
    } else {
      assert b[1..][1..] == a[1..][1..];
      if |a| > 2 {
        var y := Join(a[2..], BARS);
        assert a[1..][1..] == a[2..];
        assert Join(a, BARS) == a[0] + BARS + (a[1] + BARS + y) == (a[0] + BARS + a[1]) + BARS + y;
        assert Join(b, BARS) == u + BARS + (v + BARS + y) == (u + BARS + v) + BARS + y;
      }
    }
  }

  ghost predicate Collides(a: seq<string>) {
    exists b: seq<string> :: |b| == |a| && b != a && Join(b, BARS) == Join(a, BARS)
  }

  lemma PairCollides(a: seq<string>, i: nat, u: string, v: string)
    requires i + 1 < |a| && a[i] + BARS + a[i + 1] == u + BARS + v && u != a[i]
    ensures Collides(a)
  {
    ReplacePair(a, i, u, v);
    var b := a[i := u][i + 1 := v];
    assert b[i] == u;
  }

  lemma SplitAtBars(s: string) returns (x: string, y: string)
    requires HasBars(s)
    ensures s == x + BARS + y
  {
    var i, j :| 0 <= i && j == i + 1 && j < |s| && s[i] == '|' && s[j] == '|';
    x, y := s[..i], s[j + 1..];
  }

  lemma AmbiguousCollides(a: seq<string>)
    requires Ambiguous(a)
    ensures Collides(a)
  {
    var i: nat :| i < |a| && (HasBars(a[i]) || (i < |a| - 1 && EndsBar(a[i])) || (i > 0 && StartsBar(a[i])));
    if HasBars(a[i]) {
      var x, y := SplitAtBars(a[i]);
      if i + 1 < |a| {
        assert a[i] + BARS + a[i + 1] == x + BARS + (y + BARS + a[i + 1]);
        PairCollides(a, i, x, y + BARS + a[i + 1]);
      } else {
        assert a[i - 1] + BARS + a[i] == (a[i - 1] + BARS + x) + BARS + y;
        PairCollides(a, i - 1, a[i - 1] + BARS + x, y);
      }
    } else if i < |a| - 1 && EndsBar(a[i]) {
      var x := a[i][..|a[i]| - 1];
      assert a[i] == x + "|";
      assert a[i] + BARS + a[i + 1] == x + BARS + ("|" + a[i + 1]);
      PairCollides(a, i, x, "|" + a[i + 1]);
    } else {
      var y := a[i][1..];
      assert a[i] == "|" + y;
      assert a[i - 1] + BARS + a[i] == (a[i - 1] + "|") + BARS + y;
      PairCollides(a, i - 1, a[i - 1] + "|", y);
    }
  }

  /** Exact: some other tuple of the same length has the same key if and only if a value holds a separator,
      or half of one where it meets a separator; the rows of the two tuples then share a bucket. */
  lemma KeysCollide(a: seq<string>)
    ensures Collides(a) <==> Ambiguous(a)
  {
    if Ambiguous(a) {
      AmbiguousCollides(a);
    } else if Collides(a) {
      var b: seq<string> :| |b| == |a| && b != a && Join(b, BARS) == Join(a, BARS);
      KeysDistinguish(a, b);
    }
  }
}
