/**
 * The connected components of the relation graph, found breadth-first from
 * each node not yet visited, in the graph's key order (lines 55-65).
 */
module Components {
  import opened Wrappers
  import opened Sequences
  import opened Rows
  import opened Graph

  /** `p` walks along edges of `g` from `p[0]` to its last node. */
  ghost predicate IsPath(g: Graph, p: seq<string>) {
    && |p| >= 1
    && (forall i :: 0 <= i < |p| ==> p[i] in g)
    && (forall i :: 0 <= i < |p| - 1 ==> p[i + 1] in g[p[i]])
  }

  /** Some path leads from `a` to `b`. */
  ghost predicate Connected(g: Graph, a: string, b: string) {
    exists p :: IsPath(g, p) && p[0] == a && p[|p| - 1] == b
  }

  /** No edge leaves `s`. */
  ghost predicate Closed(g: Graph, s: set<string>) {
    forall u | u in s && u in g :: g[u] <= s
  }

  /**
   * A component as the search lists it: nonempty, no node twice, closed
   * under the edges, and every node reachable from the first.
   */
  ghost predicate IsComponent(g: Graph, c: seq<string>) {
    && |c| >= 1
    && Distinct(c)
    && Elems(c) <= g.Keys
    && Closed(g, Elems(c))
    && (forall x | x in c :: Connected(g, c[0], x))
  }

  /** The nodes the components `cs` cover. */
  function Covered(cs: seq<seq<string>>): set<string> {
    if cs == [] then {} else Covered(cs[..|cs| - 1]) + Elems(cs[|cs| - 1])
  }

  /** The first element of `s` outside `visited`. */
  function FirstOutside(s: seq<string>, visited: set<string>): (r: Option<string>)
    ensures r.Some? ==> r.value in s && r.value !in visited
    ensures r.None? <==> forall i :: 0 <= i < |s| ==> s[i] in visited
  {
    if s == [] then None
    else if s[0] !in visited then Some(s[0])
    else FirstOutside(s[1..], visited)
  }

  // ---------------------------------------------------------------------
  // Paths

  lemma SinglePath(g: Graph, a: string)
    requires a in g
    ensures Connected(g, a, a)
  {
    assert IsPath(g, [a]);
  }

  /** A path extended by one edge. */
  lemma ExtendPath(g: Graph, a: string, u: string, v: string)
    requires Connected(g, a, u) && u in g && v in g[u] && v in g
    ensures Connected(g, a, v)
  {
    var p :| IsPath(g, p) && p[0] == a && p[|p| - 1] == u;
    var q := p + [v];
    assert IsPath(g, q);
  }

  /** In a symmetric graph a path read backwards is a path. */
  lemma {:induction false} ConnectedSymmetric(g: Graph, a: string, b: string)
    requires ValidGraph(g)
    requires Connected(g, a, b)
    ensures Connected(g, b, a)
  {
    var p :| IsPath(g, p) && p[0] == a && p[|p| - 1] == b;
    var q := seq(|p|, i requires 0 <= i < |p| => p[|p| - 1 - i]);
    forall i | 0 <= i < |q| - 1
      ensures q[i + 1] in g[q[i]]
    {
      var k := |p| - 2 - i;
      assert p[k + 1] in g[p[k]];
    }
    assert IsPath(g, q);
  }

  /** Two paths joined at a common node. */
  lemma ConnectedTransitive(g: Graph, a: string, b: string, c: string)
    requires Connected(g, a, b) && Connected(g, b, c)
    ensures Connected(g, a, c)
  {
    var p :| IsPath(g, p) && p[0] == a && p[|p| - 1] == b;
    var q :| IsPath(g, q) && q[0] == b && q[|q| - 1] == c;
    var r := p + q[1..];
    forall i | 0 <= i < |r| - 1
      ensures r[i + 1] in g[r[i]]
    {
      if i < |p| - 1 {
        assert r[i] == p[i] && r[i + 1] == p[i + 1];
      } else {
        assert r[i] == q[i - |p| + 1] && r[i + 1] == q[i - |p| + 2];
      }
    }
    assert IsPath(g, r);
  }

  /** A path that starts in a closed set stays in it. */
  lemma {:induction false} ClosedKeepsPath(g: Graph, s: set<string>, p: seq<string>)
    requires Closed(g, s) && IsPath(g, p) && p[0] in s
    ensures p[|p| - 1] in s
  {
    if |p| > 1 {
      var init := p[..|p| - 1];
      assert IsPath(g, init);
      ClosedKeepsPath(g, s, init);
      assert p[|p| - 1] in g[p[|p| - 2]];
    }
  }

  lemma ClosedKeepsConnected(g: Graph, s: set<string>, a: string, b: string)
    requires Closed(g, s) && a in s && Connected(g, a, b)
    ensures b in s
  {
    var p :| IsPath(g, p) && p[0] == a && p[|p| - 1] == b;
    ClosedKeepsPath(g, s, p);
  }

  // ---------------------------------------------------------------------
  // The search

  lemma DistinctConcat(a: seq<string>, b: seq<string>)
    requires Distinct(a) && Distinct(b) && Elems(a) !! Elems(b)
    ensures Distinct(a + b)
  {
    forall i, j | 0 <= i < j < |a + b|
      ensures (a + b)[i] != (a + b)[j]
    {
      if i < |a| && j >= |a| {
        assert (a + b)[i] in Elems(a) && (a + b)[j] in Elems(b);
      }
    }
  }

  /**
   * `for v in G[u]: if v not in visited: visited.add(v); dq.append(v)`. The
   * neighbours are taken in an arbitrary order, as a set's iteration order
   * is not fixed.
   */
  method VisitNeighbours(g: Graph, u: string, visited0: set<string>) returns (visited: set<string>, found: seq<string>)
    requires u in g
    ensures Distinct(found)
    ensures Elems(found) == g[u] - visited0
    ensures visited == visited0 + g[u]
  {
    visited, found := visited0, [];
    var todo := g[u];
    while todo != {}
      invariant todo <= g[u]
      invariant Distinct(found)
      invariant Elems(found) == (g[u] - todo) - visited0
      invariant visited == visited0 + (g[u] - todo)
      decreases todo
    {
      var v :| v in todo;
      todo := todo - {v};
      if v !in visited {
        visited := visited + {v};
        assert Elems(found + [v]) == Elems(found) + {v};
        found := found + [v];
      }
    }
  }

  /**
   * The state of the search from `n`: `comp` has left the queue, `dq` is
   * waiting in it, and the nodes marked visited are the earlier components
   * and these. Every node out of the queue has its neighbours marked, and
   * every listed node is reachable from `n`.
   */
  ghost predicate Searching(g: Graph, visited0: set<string>, n: string, comp: seq<string>, dq: seq<string>, visited: set<string>) {
    && visited0 <= visited <= g.Keys
    && visited == visited0 + Elems(comp + dq)
    && Distinct(comp + dq) && Elems(comp + dq) !! visited0
    && |comp + dq| >= 1 && (comp + dq)[0] == n
    && (forall u | u in comp :: g[u] <= visited)
    && (forall x | x in comp + dq :: Connected(g, n, x))
  }

  /** Neighbours of a node reachable from `n` are reachable from `n`. */
  lemma NeighboursReachable(g: Graph, n: string, u: string, found: seq<string>)
    requires ValidGraph(g) && u in g && Connected(g, n, u) && Elems(found) <= g[u]
    ensures forall v | v in found :: Connected(g, n, v)
  {
    assert g[u] <= g.Keys;
    forall v | v in found
      ensures Connected(g, n, v)
    {
      assert v in Elems(found);
      ExtendPath(g, n, u, v);
    }
  }

  /** Taking the head of the queue and marking its neighbours keeps the search state. */
  lemma SearchStep(g: Graph, visited0: set<string>, n: string, comp: seq<string>, dq: seq<string>, visited: set<string>,
                   found: seq<string>, visited1: set<string>)
    requires ValidGraph(g)
    requires Searching(g, visited0, n, comp, dq, visited) && dq != []
    requires dq[0] in g && Distinct(found) && Elems(found) == g[dq[0]] - visited && visited1 == visited + g[dq[0]]
    ensures Searching(g, visited0, n, comp + [dq[0]], dq[1..] + found, visited1)
  {
    var u := dq[0];
    assert comp + dq == (comp + [u]) + dq[1..];
    assert u in comp + dq && Connected(g, n, u);
    NeighboursReachable(g, n, u, found);
    DistinctConcat(comp + dq, found);
    assert Elems((comp + dq) + found) == Elems(comp + dq) + Elems(found);
    assert (comp + dq) + found == (comp + [u]) + (dq[1..] + found);
  }

  /** Marking neighbours either marks a new node or leaves the queue shorter. */
  lemma SearchProgress(g: Graph, u: string, visited: set<string>, found: seq<string>, visited1: set<string>)
    requires ValidGraph(g) && u in g && visited <= g.Keys
    requires Elems(found) == g[u] - visited && visited1 == visited + g[u]
    ensures found == [] ==> visited1 == visited
    ensures found != [] ==> g.Keys - visited1 < g.Keys - visited
  {
    if found != [] {
      assert found[0] in Elems(found);
    } else {
      assert Elems(found) == {};
      forall x | x in g[u]
        ensures x in visited
      {
        assert x !in Elems(found);
      }
    }
  }

  /** A finished search has found a whole component. */
  lemma SearchDone(g: Graph, visited0: set<string>, n: string, comp: seq<string>, visited: set<string>)
    requires ValidGraph(g) && Closed(g, visited0)
    requires Searching(g, visited0, n, comp, [], visited)
    ensures IsComponent(g, comp) && comp[0] == n
    ensures Elems(comp) !! visited0
    ensures visited == visited0 + Elems(comp)
    ensures Closed(g, visited)
  {
    assert comp + [] == comp;
  }

  /**
   * Lines 58-64: the breadth-first search from `n`. `visited0` holds the
   * components found before; the new component is listed in the order its
   * nodes leave the queue.
   */
  method Explore(g: Graph, visited0: set<string>, n: string) returns (comp: seq<string>, visited: set<string>)
    requires ValidGraph(g)
    requires n in g && n !in visited0
    requires visited0 <= g.Keys && Closed(g, visited0)
    ensures IsComponent(g, comp) && comp[0] == n
    ensures Elems(comp) !! visited0
    ensures visited == visited0 + Elems(comp)
    ensures Closed(g, visited)
  {
    comp := [];
    var dq := [n];
    visited := visited0 + {n};
    SinglePath(g, n);
    assert Searching(g, visited0, n, comp, dq, visited);
    while dq != []
      invariant Searching(g, visited0, n, comp, dq, visited)
      decreases g.Keys - visited, |dq|
    {
      var u := dq[0];
      var visited1, found := VisitNeighbours(g, u, visited);
      SearchStep(g, visited0, n, comp, dq, visited, found, visited1);
      SearchProgress(g, u, visited, found, visited1);
      comp, dq := comp + [u], dq[1..] + found;
      visited := visited1;
    }
    SearchDone(g, visited0, n, comp, visited);
  }

  // ---------------------------------------------------------------------
  // All components

  /** Components that do not overlap, each found by a search. */
  ghost predicate DisjointComponents(g: Graph, comps: seq<seq<string>>) {
    && (forall i :: 0 <= i < |comps| ==> IsComponent(g, comps[i]))
    && (forall i, j :: 0 <= i < j < |comps| ==> Elems(comps[i]) !! Elems(comps[j]))
  }

  /** Each component starts at the first key that the earlier ones leave out. */
  ghost predicate InKeyOrder(order: seq<string>, comps: seq<seq<string>>) {
    forall i :: 0 <= i < |comps| ==> |comps[i]| >= 1 && Some(comps[i][0]) == FirstOutside(order, Covered(comps[..i]))
  }

  lemma {:induction false} CoveredHas(cs: seq<seq<string>>, i: nat)
    requires i < |cs|
    ensures Elems(cs[i]) <= Covered(cs)
  {
    if i < |cs| - 1 {
      CoveredHas(cs[..|cs| - 1], i);
    }
  }

  lemma {:induction false} FirstOutsideAt(s: seq<string>, visited: set<string>, k: nat)
    requires k < |s| && s[k] !in visited
    requires forall j :: 0 <= j < k ==> s[j] in visited
    ensures FirstOutside(s, visited) == Some(s[k])
  {
    if k > 0 {
      FirstOutsideAt(s[1..], visited, k - 1);
    }
  }

  lemma CoveredAppend(comps: seq<seq<string>>, comp: seq<string>)
    ensures Covered(comps + [comp]) == Covered(comps) + Elems(comp)
  {
    assert (comps + [comp])[..|comps|] == comps;
  }

  /** Appending a component disjoint from the covered nodes keeps them disjoint. */
  lemma AddDisjoint(g: Graph, comps: seq<seq<string>>, comp: seq<string>)
    requires DisjointComponents(g, comps) && IsComponent(g, comp) && Elems(comp) !! Covered(comps)
    ensures DisjointComponents(g, comps + [comp])
  {
    var cs := comps + [comp];
    forall i | 0 <= i < |comps|
      ensures Elems(cs[i]) !! Elems(comp)
    {
      CoveredHas(comps, i);
      assert cs[i] == comps[i];
    }
    assert forall i :: 0 <= i < |comps| ==> cs[i] == comps[i];
  }

  /** Appending the component found from the `k`-th key keeps the key order. */
  lemma AddInKeyOrder(order: seq<string>, k: nat, comps: seq<seq<string>>, comp: seq<string>)
    requires k < |order| && order[k] !in Covered(comps)
    requires forall j :: 0 <= j < k ==> order[j] in Covered(comps)
    requires InKeyOrder(order, comps)
    requires |comp| >= 1 && comp[0] == order[k]
    ensures InKeyOrder(order, comps + [comp])
  {
    var cs := comps + [comp];
    assert cs[..|comps|] == comps;
    forall i | 0 <= i < |comps|
      ensures cs[..i] == comps[..i]
    {
    }
    FirstOutsideAt(order, Covered(comps), k);
  }

  /**
   * The state of the scan after `k` keys: the visited nodes are those the
   * components found so far cover, a closed set holding every scanned key.
   */
  ghost predicate Scanned(g: Graph, order: seq<string>, k: nat, comps: seq<seq<string>>, visited: set<string>) {
    && k <= |order|
    && visited == Covered(comps) && visited <= g.Keys && Closed(g, visited)
    && (forall j :: 0 <= j < k ==> order[j] in visited)
    && DisjointComponents(g, comps) && InKeyOrder(order, comps)
  }

  /** A scanned key found unvisited yields a new component. */
  lemma ScanStep(g: Graph, order: seq<string>, k: nat, comps: seq<seq<string>>, visited: set<string>,
                 comp: seq<string>, visited1: set<string>)
    requires Scanned(g, order, k, comps, visited) && k < |order| && order[k] !in visited
    requires IsComponent(g, comp) && comp[0] == order[k] && Elems(comp) !! visited
    requires visited1 == visited + Elems(comp) && Closed(g, visited1)
    ensures Scanned(g, order, k + 1, comps + [comp], visited1)
  {
    CoveredAppend(comps, comp);
    AddDisjoint(g, comps, comp);
    AddInKeyOrder(order, k, comps, comp);
    assert comp[0] in Elems(comp);
  }

  /**
   * Lines 55-65: a search from each key, in key order, that no earlier
   * search has reached. The keys of `g` in insertion order are `order`.
   */
  method FindComponents(g: Graph, order: seq<string>) returns (comps: seq<seq<string>>)
    requires ValidGraph(g) && g.Keys == Elems(order)
    ensures DisjointComponents(g, comps)
    ensures Covered(comps) == g.Keys
    ensures InKeyOrder(order, comps)
  {
    var visited: set<string> := {};
    comps := [];
    for k := 0 to |order|
      invariant Scanned(g, order, k, comps, visited)
    {
      var n := order[k];
      if n in visited {
        continue;
      }
      var comp, visited1 := Explore(g, visited, n);
      ScanStep(g, order, k, comps, visited, comp, visited1);
      comps, visited := comps + [comp], visited1;
    }
    assert forall x | x in g :: x in order;
  }

  /**
   * Two nodes share a component exactly when a path joins them: the
   * components are the connected classes of the graph.
   */
  lemma SameComponentIffConnected(g: Graph, comps: seq<seq<string>>, i: nat, j: nat, x: string, y: string)
    requires ValidGraph(g) && DisjointComponents(g, comps)
    requires i < |comps| && j < |comps| && x in comps[i] && y in comps[j]
    ensures i == j <==> Connected(g, x, y)
  {
    var c := comps[i];
    assert IsComponent(g, c) && IsComponent(g, comps[j]);
    if i == j {
      ConnectedSymmetric(g, c[0], x);
      ConnectedTransitive(g, x, c[0], y);
    }
    if Connected(g, x, y) {
      assert x in Elems(c);
      ClosedKeepsConnected(g, Elems(c), x, y);
    }
  }

  /** A record referencing another joins the two, whichever way it is declared. */
  lemma ReferenceConnects(rows: seq<Row>, i: nat, o: string)
    requires forall k :: 0 <= k < |rows| ==> WellFormed(rows[k])
    requires i < |rows| && o in rows[i].sameAs
    ensures Connected(RelationGraph(rows), rows[i].wish, o) && Connected(RelationGraph(rows), o, rows[i].wish)
  {
    var g, w := RelationGraph(rows), rows[i].wish;
    assert IsNode(rows, w) && IsNode(rows, o);
    MentionsAreNodes(rows, w);
    MentionsAreNodes(rows, o);
    assert Declared(rows, w, o) && Declared(rows, o, w);
    NeighboursAreDeclared(rows, w, o);
    NeighboursAreDeclared(rows, o, w);
    assert g[w] == Neighbours(rows, w) && g[o] == Neighbours(rows, o);
    assert IsPath(g, [w, o]) && IsPath(g, [o, w]);
  }
}
