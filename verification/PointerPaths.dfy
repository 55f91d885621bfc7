// Where a string stands inside a value: access paths, and that the leaves the gate looks at are exactly the
// strings they lead to, in order.
module PointerPaths {
  import opened Wrappers
  import opened MissionTypes
  import opened Text
  import opened Pointer

  /** One step into a value: into a field of an object, or to a position in a list. */
  datatype Access = Field(name: string) | Index(position: nat)

  /** What an access path leads to. */
  function At(v: Value, path: seq<Access>): Option<Value>
    decreases |path|
  {
    if path == [] then Some(v)
    else
      match path[0]
      case Field(name) => if v.Object? && name in v.fields then At(v.fields[name], path[1..]) else None
      case Index(i) => if v.Items? && i < |v.items| then At(v.items[i], path[1..]) else None
  }

  /** How a path is written in a report: $.field[3]. */
  function Written(base: string, path: seq<Access>): string
    decreases |path|
  {
    if path == [] then base
    else
      Written(match path[0] case Field(name) => base + "." + name case Index(i) => base + "[" + Decimal(i) + "]", path[1..])
  }

  /** Path a is visited before path b: at their first difference, by name or by position. */
  predicate Earlier(a: seq<Access>, b: seq<Access>)
    decreases |a|
  {
    && a != [] && b != []
    && if a[0] == b[0] then Earlier(a[1..], b[1..])
       else if a[0].Field? && b[0].Field? then LessEq(a[0].name, b[0].name)
       else a[0].Index? && b[0].Index? && a[0].position < b[0].position
  }

  ghost predicate LeadsToText(v: Value, path: seq<Access>, text: string) {
    At(v, path) == Some(Value.Text(text))
  }

  // ----- the paths of all leaves -----

  function Under(step: Access, paths: seq<seq<Access>>): seq<seq<Access>> {
    seq(|paths|, i requires 0 <= i < |paths| => [step] + paths[i])
  }

  function Paths(v: Value): seq<seq<Access>>
    decreases v, 1, 0
  {
    match v
    case Text(_) => [[]]
    case Object(fields) => FieldPaths(v, Sorted(fields.Keys))
    case Items(items) => ItemPaths(v, 0)
    case Scalar => []
  }

  function FieldPaths(v: Value, keys: seq<string>): seq<seq<Access>>
    requires v.Object? && forall k :: k in keys ==> k in v.fields
    decreases v, 0, |keys|
  {
    if keys == [] then [] else Under(Field(keys[0]), Paths(v.fields[keys[0]])) + FieldPaths(v, keys[1..])
  }

  function ItemPaths(v: Value, from: nat): seq<seq<Access>>
    requires v.Items? && from <= |v.items|
    decreases v, 0, |v.items| - from
  {
    if from == |v.items| then [] else Under(Index(from), Paths(v.items[from])) + ItemPaths(v, from + 1)
  }

  /** Leaf by leaf, the text and the written path of what the paths lead to. */
  ghost predicate Aligned(v: Value, base: string, paths: seq<seq<Access>>, leaves: seq<Leaf>) {
    |paths| == |leaves| && forall i :: 0 <= i < |paths| ==>
      LeadsToText(v, paths[i], leaves[i].text) && leaves[i].path == Written(base, paths[i])
  }

  lemma WrittenStep(base: string, step: Access, path: seq<Access>)
    ensures Written(base, [step] + path) == Written(Written(base, [step]), path)
  {
    assert ([step] + path)[1..] == path && [step][1..] == [];
    var here := match step case Field(name) => base + "." + name case Index(i) => base + "[" + Decimal(i) + "]";
    assert Written(base, [step]) == Written(here, []) == here;
    assert Written(base, [step] + path) == Written(here, path);
  }

  lemma AlignedUnder(v: Value, base: string, step: Access, sub: Value, paths: seq<seq<Access>>, leaves: seq<Leaf>)
    requires match step
             case Field(name) => v.Object? && name in v.fields && sub == v.fields[name]
             case Index(i) => v.Items? && i < |v.items| && sub == v.items[i]
    requires Aligned(sub, Written(base, [step]), paths, leaves)
    ensures Aligned(v, base, Under(step, paths), leaves)
  {
    forall i | 0 <= i < |paths|
      ensures LeadsToText(v, [step] + paths[i], leaves[i].text) && leaves[i].path == Written(base, [step] + paths[i])
    {
      assert ([step] + paths[i])[1..] == paths[i];
      WrittenStep(base, step, paths[i]);
    }
  }

  lemma AlignedConcat(v: Value, base: string, a: seq<seq<Access>>, x: seq<Leaf>, b: seq<seq<Access>>, y: seq<Leaf>)
    requires Aligned(v, base, a, x) && Aligned(v, base, b, y)
    ensures Aligned(v, base, a + b, x + y)
  {
  }

  lemma {:induction false} PathsAlign(v: Value, base: string)
    ensures Aligned(v, base, Paths(v), Leaves(v, base))
    decreases v, 1, 0
  {
    match v
    case Text(_) =>
    case Object(fields) => FieldPathsAlign(v, Sorted(fields.Keys), base);
    case Items(items) => ItemPathsAlign(v, 0, base);
    case Scalar =>
  }

  lemma {:induction false} FieldPathsAlign(v: Value, keys: seq<string>, base: string)
    requires v.Object? && forall k :: k in keys ==> k in v.fields
    ensures Aligned(v, base, FieldPaths(v, keys), FieldLeaves(v, keys, base))
    decreases v, 0, |keys|
  {
    if keys != [] {
      var step, sub := Field(keys[0]), v.fields[keys[0]];
      assert Written(base, [step]) == base + "." + keys[0] by { assert [step][1..] == []; }
      PathsAlign(sub, base + "." + keys[0]);
      FieldPathsAlign(v, keys[1..], base);
      AlignedUnder(v, base, step, sub, Paths(sub), Leaves(sub, base + "." + keys[0]));
      AlignedConcat(v, base, Under(step, Paths(sub)), Leaves(sub, base + "." + keys[0]),
                    FieldPaths(v, keys[1..]), FieldLeaves(v, keys[1..], base));
    }
  }

  lemma {:induction false} ItemPathsAlign(v: Value, from: nat, base: string)
    requires v.Items? && from <= |v.items|
    ensures Aligned(v, base, ItemPaths(v, from), ItemLeaves(v, from, base))
    decreases v, 0, |v.items| - from
  {
    if from < |v.items| {
      var step, sub := Index(from), v.items[from];
      var here := base + "[" + Decimal(from) + "]";
      assert Written(base, [step]) == here by { assert [step][1..] == []; }
      PathsAlign(sub, here);
      ItemPathsAlign(v, from + 1, base);
      AlignedUnder(v, base, step, sub, Paths(sub), Leaves(sub, here));
      AlignedConcat(v, base, Under(step, Paths(sub)), Leaves(sub, here), ItemPaths(v, from + 1), ItemLeaves(v, from + 1, base));
    }
  }

  // ----- complete -----

  lemma InUnder(step: Access, path: seq<Access>, paths: seq<seq<Access>>)
    requires path in paths
    ensures [step] + path in Under(step, paths)
  {
    var i :| 0 <= i < |paths| && paths[i] == path;
    assert Under(step, paths)[i] == [step] + path;
  }

  lemma {:induction false} PathsComplete(v: Value, path: seq<Access>)
    requires At(v, path).Some? && At(v, path).value.Text?
    ensures path in Paths(v)
    decreases |path|
  {
    if path != [] {
      assert path == [path[0]] + path[1..];
      match path[0]
      case Field(name) =>
        PathsComplete(v.fields[name], path[1..]);
        InUnder(path[0], path[1..], Paths(v.fields[name]));
        FieldIn(v, Sorted(v.fields.Keys), name, path);
      case Index(i) =>
        PathsComplete(v.items[i], path[1..]);
        InUnder(path[0], path[1..], Paths(v.items[i]));
        ItemIn(v, 0, i, path);
    }
  }

  lemma {:induction false} FieldIn(v: Value, keys: seq<string>, name: string, path: seq<Access>)
    requires v.Object? && (forall k :: k in keys ==> k in v.fields) && name in keys
    requires path in Under(Field(name), Paths(v.fields[name]))
    ensures path in FieldPaths(v, keys)
    decreases |keys|
  {
    if keys[0] != name { FieldIn(v, keys[1..], name, path); }
  }

  lemma {:induction false} ItemIn(v: Value, from: nat, i: nat, path: seq<Access>)
    requires v.Items? && from <= i < |v.items| && path in Under(Index(i), Paths(v.items[i]))
    ensures path in ItemPaths(v, from)
    decreases i - from
  {
    if from < i { ItemIn(v, from + 1, i, path); }
  }

  // ----- in order -----

  ghost predicate EarlierAt(paths: seq<seq<Access>>, i: nat, j: nat) {
    i < j < |paths| ==> Earlier(paths[i], paths[j])
  }

  ghost predicate InVisitOrder(paths: seq<seq<Access>>) {
    forall i: nat, j: nat :: EarlierAt(paths, i, j)
  }

  lemma OrderUnder(step: Access, paths: seq<seq<Access>>)
    requires InVisitOrder(paths)
    ensures InVisitOrder(Under(step, paths))
  {
    forall i: nat, j: nat ensures EarlierAt(Under(step, paths), i, j) {
      assert EarlierAt(paths, i, j);
      if i < j < |paths| {
        assert ([step] + paths[i])[1..] == paths[i] && ([step] + paths[j])[1..] == paths[j];
      }
    }
  }

  lemma OrderConcat(a: seq<seq<Access>>, b: seq<seq<Access>>)
    requires InVisitOrder(a) && InVisitOrder(b) && forall x, y :: x in a && y in b ==> Earlier(x, y)
    ensures InVisitOrder(a + b)
  {
    forall i: nat, j: nat ensures EarlierAt(a + b, i, j) {
      assert EarlierAt(a, i, j);
      if |a| <= i < j { assert EarlierAt(b, i - |a|, j - |a|); }
    }
  }

  lemma {:induction false} PathsInOrder(v: Value)
    ensures InVisitOrder(Paths(v))
    decreases v, 1, 0
  {
    match v
    case Text(_) =>
    case Object(fields) => FieldPathsInOrder(v, Sorted(fields.Keys));
    case Items(items) => ItemPathsInOrder(v, 0);
    case Scalar =>
  }

  lemma {:induction false} FieldStarts(v: Value, keys: seq<string>)
    requires v.Object? && forall k :: k in keys ==> k in v.fields
    ensures forall y: seq<Access> :: y in FieldPaths(v, keys) ==> y != [] && y[0].Field? && y[0].name in keys
    decreases |keys|
  {
    if keys != [] { FieldStarts(v, keys[1..]); }
  }

  lemma AscendingTail(keys: seq<string>)
    requires Ascending(keys) && keys != []
    ensures Ascending(keys[1..]) && forall k :: k in keys[1..] ==> LessEq(keys[0], k) && k != keys[0]
  {
    forall i: nat, j: nat ensures AscendsAt(keys[1..], i, j) { assert AscendsAt(keys, i + 1, j + 1); }
    forall k | k in keys[1..] ensures LessEq(keys[0], k) && k != keys[0] {
      var i: nat :| i < |keys| - 1 && keys[1..][i] == k;
      assert AscendsAt(keys, 0, i + 1);
    }
  }

  lemma {:induction false} FieldPathsInOrder(v: Value, keys: seq<string>)
    requires v.Object? && (forall k :: k in keys ==> k in v.fields) && Ascending(keys)
    ensures InVisitOrder(FieldPaths(v, keys))
    decreases v, 0, |keys|
  {
    if keys != [] {
      var first := Under(Field(keys[0]), Paths(v.fields[keys[0]]));
      AscendingTail(keys);
      PathsInOrder(v.fields[keys[0]]);
      OrderUnder(Field(keys[0]), Paths(v.fields[keys[0]]));
      FieldPathsInOrder(v, keys[1..]);
      FieldStarts(v, keys[1..]);
      OrderConcat(first, FieldPaths(v, keys[1..]));
    }
  }

  lemma {:induction false} ItemStarts(v: Value, from: nat)
    requires v.Items? && from <= |v.items|
    ensures forall y: seq<Access> :: y in ItemPaths(v, from) ==> y != [] && y[0].Index? && from <= y[0].position
    decreases |v.items| - from
  {
    if from < |v.items| { ItemStarts(v, from + 1); }
  }

  lemma {:induction false} ItemPathsInOrder(v: Value, from: nat)
    requires v.Items? && from <= |v.items|
    ensures InVisitOrder(ItemPaths(v, from))
    decreases v, 0, |v.items| - from
  {
    if from < |v.items| {
      PathsInOrder(v.items[from]);
      OrderUnder(Index(from), Paths(v.items[from]));
      ItemPathsInOrder(v, from + 1);
      ItemStarts(v, from + 1);
      OrderConcat(Under(Index(from), Paths(v.items[from])), ItemPaths(v, from + 1));
    }
  }

  // ----- the leaves -----

  /** Exact: the leaves of a value are the strings that access paths lead to, each with its written path, every
      one of them, in the order in which the paths are visited: fields by name, lists by position. */
  lemma LeavesExactly(v: Value, base: string) returns (paths: seq<seq<Access>>)
    ensures Aligned(v, base, paths, Leaves(v, base)) && InVisitOrder(paths)
    ensures forall path :: path in paths <==> At(v, path).Some? && At(v, path).value.Text?
  {
    paths := Paths(v);
    PathsAlign(v, base);
    PathsInOrder(v);
    forall path ensures path in paths <==> At(v, path).Some? && At(v, path).value.Text? {
      if At(v, path).Some? && At(v, path).value.Text? { PathsComplete(v, path); }
      if path in paths {
        var i :| 0 <= i < |paths| && paths[i] == path;
        assert LeadsToText(v, paths[i], Leaves(v, base)[i].text);
      }
    }
  }
}
