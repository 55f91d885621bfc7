// Dependency graphs and their cycles, independent of any search.
module Graph {
  /** Each task id with the ids it depends on; an id that is not a key has no dependencies. */
  type Deps = map<string, seq<string>>

  function DepsOf(g: Deps, id: string): seq<string> {
    if id in g then g[id] else []
  }

  ghost predicate Edge(g: Deps, a: string, b: string) {
    b in DepsOf(g, a)
  }

  ghost predicate IsPath(g: Deps, p: seq<string>) {
    |p| > 0 && forall k :: 0 <= k < |p| - 1 ==> Edge(g, p[k], p[k + 1])
  }

  ghost predicate IsCycle(g: Deps, p: seq<string>) {
    IsPath(g, p) && |p| > 1 && p[0] == p[|p| - 1]
  }

  ghost predicate OnCycle(g: Deps, id: string) {
    exists p :: IsCycle(g, p) && p[0] == id
  }

  ghost predicate Acyclic(g: Deps) {
    forall p :: !IsCycle(g, p)
  }

  /** Every id in the order has all its dependencies before it. */
  ghost predicate DepsFirst(g: Deps, order: seq<string>) {
    forall k, d :: 0 <= k < |order| && d in DepsOf(g, order[k]) ==> d in order[..k]
  }

  ghost predicate Distinct(p: seq<string>) {
    forall i, j :: 0 <= i < j < |p| ==> p[i] != p[j]
  }

  /** A path that starts inside a dependencies-first order only moves backwards in it. */
  lemma {:induction false} PathDescends(g: Deps, order: seq<string>, p: seq<string>, k: nat)
    requires DepsFirst(g, order) && Distinct(order)
    requires IsPath(g, p) && |p| > 1
    requires k < |order| && order[k] == p[0]
    ensures p[|p| - 1] in order[..k]
  {
    assert Edge(g, p[0], p[1]);
    assert p[1] in order[..k];
    if |p| > 2 {
      var j :| 0 <= j < k && order[j] == p[1];
      var q := p[1..];
      forall m | 0 <= m < |q| - 1 ensures Edge(g, q[m], q[m + 1]) {
        var n := m + 1;
        assert Edge(g, p[n], p[n + 1]);
      }
      PathDescends(g, order, q, j);
      assert q[|q| - 1] == p[|p| - 1];
    }
  }

  lemma OrderedIdIsNotOnCycle(g: Deps, order: seq<string>, p: seq<string>)
    requires DepsFirst(g, order) && Distinct(order)
    requires IsPath(g, p) && p[0] in order
    ensures !IsCycle(g, p)
  {
    var k :| 0 <= k < |order| && order[k] == p[0];
    if IsCycle(g, p) {
      PathDescends(g, order, p, k);
    }
  }

  /** A graph whose every key can be put in a dependencies-first order has no cycle. */
  lemma OrderedGraphIsAcyclic(g: Deps, order: seq<string>)
    requires DepsFirst(g, order) && Distinct(order)
    requires forall id :: id in g ==> id in order
    ensures Acyclic(g)
  {
    forall p ensures !IsCycle(g, p) {
      if IsCycle(g, p) {
        assert Edge(g, p[0], p[1]);
        OrderedIdIsNotOnCycle(g, order, p);
      }
    }
  }

  /** An edge from the end of a path back to one of its nodes closes a cycle through that node. */
  lemma BackEdgeClosesCycle(g: Deps, p: seq<string>, d: string)
    requires IsPath(g, p) && d in p && Edge(g, p[|p| - 1], d)
    ensures OnCycle(g, d)
  {
    var k :| 0 <= k < |p| && p[k] == d;
    var c := p[k..] + [d];
    forall m | 0 <= m < |c| - 1 ensures Edge(g, c[m], c[m + 1]) {
      if m + 1 < |p| - k {
        assert c[m] == p[k + m] && c[m + 1] == p[k + m + 1];
        assert Edge(g, p[k + m], p[k + m + 1]);
      } else {
        assert c[m] == p[|p| - 1];
      }
    }
    assert IsCycle(g, c);
  }

  lemma PathExtends(g: Deps, p: seq<string>, d: string)
    requires IsPath(g, p) && Edge(g, p[|p| - 1], d)
    ensures IsPath(g, p + [d])
  {
    var q := p + [d];
    forall m | 0 <= m < |q| - 1 ensures Edge(g, q[m], q[m + 1]) {
      if m + 1 < |p| { assert Edge(g, p[m], p[m + 1]); }
    }
  }
}
