/**
 * The relation graph: an adjacency map from identifier to its set of
 * neighbours, built from the accepted records (lines 47-52).
 */
module Graph {
  import opened Sequences
  import opened Rows

  /** Identifier to neighbour set; the keys are the nodes. */
  type Graph = map<string, set<string>>

  /** Every identifier mentioned by the records, in the order the build touches them. */
  function Mentions(rows: seq<Row>): seq<string> {
    if rows == [] then []
    else Mentions(rows[..|rows| - 1]) + [rows[|rows| - 1].wish] + rows[|rows| - 1].sameAs
  }

  /** The neighbours the records give `a`, from both directions of each reference. */
  function Neighbours(rows: seq<Row>, a: string): set<string> {
    if rows == [] then {}
    else
      var r := rows[|rows| - 1];
      Neighbours(rows[..|rows| - 1], a)
        + (if r.wish == a then Elems(r.sameAs) else {})
        + (if a in r.sameAs then {r.wish} else {})
  }

  /** Some record declares `b` as a reference of `a` or `a` as one of `b`. */
  ghost predicate Declared(rows: seq<Row>, a: string, b: string) {
    exists i :: 0 <= i < |rows| && ((rows[i].wish == a && b in rows[i].sameAs) || (rows[i].wish == b && a in rows[i].sameAs))
  }

  /** A node is an identifier some record mentions, as subject or reference. */
  ghost predicate IsNode(rows: seq<Row>, x: string) {
    exists i :: 0 <= i < |rows| && (rows[i].wish == x || x in rows[i].sameAs)
  }

  /** The relation graph of the records. */
  function RelationGraph(rows: seq<Row>): Graph {
    map a | a in Mentions(rows) :: Neighbours(rows, a)
  }

  /** Neighbours is exactly the declared relation, read in both directions. */
  lemma {:induction false} NeighboursAreDeclared(rows: seq<Row>, a: string, b: string)
    ensures b in Neighbours(rows, a) <==> Declared(rows, a, b)
  {
    if rows != [] {
      var init := rows[..|rows| - 1];
      NeighboursAreDeclared(init, a, b);
      if Declared(init, a, b) {
        var i :| 0 <= i < |init| && ((init[i].wish == a && b in init[i].sameAs) || (init[i].wish == b && a in init[i].sameAs));
        assert rows[i] == init[i];
      }
      if Declared(rows, a, b) {
        var i :| 0 <= i < |rows| && ((rows[i].wish == a && b in rows[i].sameAs) || (rows[i].wish == b && a in rows[i].sameAs));
        if i < |init| {
          assert init[i] == rows[i];
        }
      }
    }
  }

  /** The mentioned identifiers are exactly the nodes. */
  lemma {:induction false} MentionsAreNodes(rows: seq<Row>, x: string)
    ensures x in Mentions(rows) <==> IsNode(rows, x)
  {
    if rows != [] {
      var init := rows[..|rows| - 1];
      MentionsAreNodes(init, x);
      if IsNode(init, x) {
        var i :| 0 <= i < |init| && (init[i].wish == x || x in init[i].sameAs);
        assert rows[i] == init[i];
      }
      if IsNode(rows, x) {
        var i :| 0 <= i < |rows| && (rows[i].wish == x || x in rows[i].sameAs);
        if i < |init| {
          assert init[i] == rows[i];
        }
      }
    }
  }

  /** A graph whose edges join nodes and go both ways. */
  ghost predicate ValidGraph(g: Graph) {
    && (forall a | a in g :: g[a] <= g.Keys)
    && (forall a, b | a in g && b in g[a] :: a in g[b])
  }

  /**
   * The relation graph of well-formed records: every subject is a node, the
   * nodes are exactly the mentioned identifiers, the adjacency is symmetric,
   * has no self-loop, and joins exactly the declared pairs.
   */
  lemma RelationGraphProperties(rows: seq<Row>)
    requires forall i :: 0 <= i < |rows| ==> WellFormed(rows[i])
    ensures ValidGraph(RelationGraph(rows))
    ensures forall i :: 0 <= i < |rows| ==> rows[i].wish in RelationGraph(rows)
    ensures forall x :: x in RelationGraph(rows) <==> IsNode(rows, x)
    ensures forall a, b | a in RelationGraph(rows) :: b in RelationGraph(rows)[a] <==> Declared(rows, a, b)
    ensures forall a | a in RelationGraph(rows) :: a !in RelationGraph(rows)[a]
  {
    var g := RelationGraph(rows);
    forall x
      ensures x in g <==> IsNode(rows, x)
    {
      MentionsAreNodes(rows, x);
    }
    forall a, b | a in g
      ensures b in g[a] <==> Declared(rows, a, b)
    {
      NeighboursAreDeclared(rows, a, b);
    }
    forall a, b | a in g && b in g[a]
      ensures b in g && a in g[b]
    {
      var i :| 0 <= i < |rows| && ((rows[i].wish == a && b in rows[i].sameAs) || (rows[i].wish == b && a in rows[i].sameAs));
      assert IsNode(rows, b);
      NeighboursAreDeclared(rows, b, a);
    }
    forall a | a in g
      ensures a !in g[a]
    {
      assert !Declared(rows, a, a) by {
        forall i | 0 <= i < |rows|
          ensures !(rows[i].wish == a && a in rows[i].sameAs)
        {
          assert WellFormed(rows[i]);
        }
      }
    }
    forall i | 0 <= i < |rows|
      ensures rows[i].wish in g
    {
      assert IsNode(rows, rows[i].wish);
    }
  }

  // ---------------------------------------------------------------------
  // The build, step by step

  /** `G[w]` on a dictionary with default: makes `w` a node if it is not one. */
  function EnsureNode(g: Graph, w: string): (h: Graph)
    ensures h.Keys == g.Keys + {w}
    ensures forall x | x in g :: h[x] == g[x]
    ensures w !in g ==> h[w] == {}
  {
    if w in g then g else g[w := {}]
  }

  /** `G[w].add(o); G[o].add(w)`. */
  function AddEdge(g: Graph, w: string, o: string): (h: Graph)
    requires w in g
    ensures h.Keys == g.Keys + {o}
  {
    var h := g[w := g[w] + {o}];
    h[o := (if o in h then h[o] else {}) + {w}]
  }

  /** The inner loop: adds the edges from `w` to each of `refs`, in order. */
  function AddEdges(g: Graph, w: string, refs: seq<string>): (h: Graph)
    requires w in g
    ensures h.Keys == g.Keys + Elems(refs)
  {
    if refs == [] then g
    else AddEdge(AddEdges(g, w, refs[..|refs| - 1]), w, refs[|refs| - 1])
  }

  /** The graph after the loop has processed `rows`. */
  function GraphOf(rows: seq<Row>): Graph {
    if rows == [] then map[]
    else
      var r := rows[|rows| - 1];
      AddEdges(EnsureNode(GraphOf(rows[..|rows| - 1]), r.wish), r.wish, r.sameAs)
  }

  /** What the inner loop adds: `w` gains the references, each reference gains `w`. */
  lemma {:induction false} AddEdgesNeighbours(g: Graph, w: string, refs: seq<string>, x: string)
    requires w in g
    requires x in AddEdges(g, w, refs)
    ensures AddEdges(g, w, refs)[x] ==
      (if x in g then g[x] else {}) + (if x == w then Elems(refs) else {}) + (if x in refs then {w} else {})
  {
    if refs != [] {
      var init, o := refs[..|refs| - 1], refs[|refs| - 1];
      assert refs == init + [o];
      var h := AddEdges(g, w, init);
      assert Elems(refs) == Elems(init) + {o};
      if x in h {
        AddEdgesNeighbours(g, w, init, x);
      } else {
        assert x == o && x !in g && x !in init;
      }
    }
  }

  /** The step-by-step build yields the relation graph. */
  lemma {:induction false} GraphOfIsRelationGraph(rows: seq<Row>)
    ensures GraphOf(rows) == RelationGraph(rows)
  {
    if rows != [] {
      GraphOfIsRelationGraph(rows[..|rows| - 1]);
      GraphOfKeys(rows);
      RelationGraphKeys(rows);
      forall x | x in GraphOf(rows)
        ensures GraphOf(rows)[x] == RelationGraph(rows)[x]
      {
        GraphOfStepAt(rows, x);
      }
    }
  }

  /** The build's nodes are the mentioned identifiers. */
  lemma {:induction false} GraphOfKeys(rows: seq<Row>)
    ensures GraphOf(rows).Keys == Elems(Mentions(rows))
  {
    if rows != [] {
      var init, r := rows[..|rows| - 1], rows[|rows| - 1];
      GraphOfKeys(init);
      ElemsConcat(Mentions(init) + [r.wish], r.sameAs);
      ElemsConcat(Mentions(init), [r.wish]);
      assert Elems([r.wish]) == {r.wish};
    }
  }

  lemma RelationGraphKeys(rows: seq<Row>)
    ensures RelationGraph(rows).Keys == Elems(Mentions(rows))
  {
  }

  /** One more record adds its edges to the neighbour sets. */
  lemma GraphOfStepAt(rows: seq<Row>, x: string)
    requires rows != []
    requires GraphOf(rows[..|rows| - 1]) == RelationGraph(rows[..|rows| - 1])
    requires x in GraphOf(rows)
    ensures GraphOf(rows)[x] == Neighbours(rows, x)
  {
    var init, r := rows[..|rows| - 1], rows[|rows| - 1];
    var g0 := EnsureNode(GraphOf(init), r.wish);
    AddEdgesNeighbours(g0, r.wish, r.sameAs, x);
    if x !in GraphOf(init) {
      NoNeighboursOutsideMentions(init, x);
    }
  }

  /** An identifier no record mentions has no neighbours. */
  lemma NoNeighboursOutsideMentions(rows: seq<Row>, x: string)
    requires x !in Mentions(rows)
    ensures Neighbours(rows, x) == {}
  {
    if y :| y in Neighbours(rows, x) {
      NeighboursAreDeclared(rows, x, y);
      var k :| 0 <= k < |rows| && ((rows[k].wish == x && y in rows[k].sameAs) || (rows[k].wish == y && x in rows[k].sameAs));
      assert IsNode(rows, x);
      MentionsAreNodes(rows, x);
    }
  }

  /**
   * Lines 47-52: `G[w]` makes each subject a node, and each kept reference
   * `o` adds `o` to `G[w]` and `w` to `G[o]`. The dictionary's keys, in
   * insertion order, are `order`.
   */
  method BuildGraph(rows: seq<Row>) returns (g: Graph, order: seq<string>)
    ensures g == RelationGraph(rows)
    ensures order == Dedup(Mentions(rows))
    ensures g.Keys == Elems(order) && Distinct(order)
  {
    g, order := map[], [];
    for i := 0 to |rows|
      invariant g == GraphOf(rows[..i])
      invariant order == Dedup(Mentions(rows[..i]))
      invariant g.Keys == Elems(order)
    {
      var r := rows[i];
      var w := r.wish;
      ghost var seen := Mentions(rows[..i]);
      assert (seen + [w])[..|seen|] == seen;
      if w !in g {
        g := g[w := {}];
        order := order + [w];
      }
      ghost var (g1, order1) := (g, order);
      g, order := AddReferences(g, order, w, r.sameAs);
      KeysFollowOrder(seen + [w], g1, order1, w, r.sameAs);
      assert rows[..i + 1][..i] == rows[..i];
    }
    assert rows[..|rows|] == rows;
    GraphOfIsRelationGraph(rows);
    DedupElements(Mentions(rows));
  }

  /**
   * After the references of a subject are added, the keys are still the
   * deduplicated mentions, in order.
   */
  lemma KeysFollowOrder(seen: seq<string>, g1: Graph, order1: seq<string>, w: string, refs: seq<string>)
    requires w in g1
    requires order1 == Dedup(seen)
    requires g1.Keys == Elems(order1)
    ensures AppendNew(order1, refs) == Dedup(seen + refs)
    ensures AddEdges(g1, w, refs).Keys == Elems(AppendNew(order1, refs))
  {
    AppendNewConcat([], seen, refs);
    DedupElements(seen);
    AppendNewElements(order1, refs);
  }

  /** The inner loop of the build: `for o in r["same_as"]`. */
  method AddReferences(g0: Graph, order0: seq<string>, w: string, refs: seq<string>)
    returns (g: Graph, order: seq<string>)
    requires w in g0
    ensures g == AddEdges(g0, w, refs)
    ensures order == AppendNew(order0, refs)
  {
    g, order := g0, order0;
    for j := 0 to |refs|
      invariant g == AddEdges(g0, w, refs[..j])
      invariant order == AppendNew(order0, refs[..j])
    {
      var o := refs[j];
      assert refs[..j + 1][..j] == refs[..j];
      if o !in order {
        order := order + [o];
      }
      g := g[w := g[w] + {o}];
      g := g[o := (if o in g then g[o] else {}) + {w}];
    }
    assert refs[..|refs|] == refs;
  }
}
