/**
 The graph builder (`build_graph` in main.rs): the edge list is folded, edge by
 edge, into a directed graph keyed by the raw vertex ids of the input.
 */
module GraphBuilder {
  import opened EdgeParser

  /** A directed graph: each vertex id maps to the set of its out-neighbours. */
  type Graph = map<nat, set<nat>>

  /** Every out-neighbour is itself a vertex of the graph. */
  predicate WellFormed(g: Graph)
  {
    forall u, v :: u in g && v in g[u] ==> v in g
  }

  /** The graph has the arc `a -> b`. */
  predicate HasArc(g: Graph, a: nat, b: nat)
  {
    a in g && b in g[a]
  }

  /** Every id that occurs in some edge, as source or as target. */
  function Endpoints(edges: seq<Edge>): set<nat>
  {
    (set e | e in edges :: e.0) + (set e | e in edges :: e.1)
  }

  /**
   One step of the fold: both endpoints become vertices (with no arcs when
   they are new), `b` joins the out-neighbours of `a`, and nothing else changes.
   */
  function AddEdge(g: Graph, e: Edge): (g': Graph)
    ensures g'.Keys == g.Keys + {e.0, e.1}
    ensures g'[e.0] == (if e.0 in g then g[e.0] else {}) + {e.1}
    ensures forall v :: v in g' && v != e.0 ==> g'[v] == (if v in g then g[v] else {})
  {
    var (a, b) := e;
    var withA := if a in g then g else g[a := {}];
    var withB := if b in withA then withA else withA[b := {}];
    withB[a := withB[a] + {b}]
  }

  /** The graph of an edge list: the fold of `AddEdge` over it, from the empty graph. */
  function Build(edges: seq<Edge>): Graph
  {
    if edges == [] then map[] else AddEdge(Build(edges[..|edges| - 1]), edges[|edges| - 1])
  }

  /** `build_graph`: one pass over the edges that keeps the set of ids seen so far. */
  method BuildGraph(edges: seq<Edge>) returns (g: Graph)
    ensures g == Build(edges)
    ensures g.Keys == Endpoints(edges)
    ensures forall a: nat, b: nat :: HasArc(g, a, b) <==> (a, b) in edges
  {
    g := map[];
    var nodes: set<nat> := {};
    for i := 0 to |edges|
      invariant g == Build(edges[..i])
      invariant nodes == g.Keys
    {
      assert edges[..i + 1][..i] == edges[..i];
      var (first, second) := edges[i];
      if first !in nodes {
        nodes := nodes + {first};
        g := g[first := {}];
      }
      if second !in nodes {
        nodes := nodes + {second};
        g := g[second := {}];
      }
      g := g[first := g[first] + {second}];
    }
    assert edges[..|edges|] == edges;
    BuildExact(edges);
  }

  /**
   The built graph is exactly the edge list: its vertices are the endpoints
   of the edges, and it has the arc `a -> b` exactly when `(a, b)` is an edge.
   */
  lemma BuildExact(edges: seq<Edge>)
    ensures Build(edges).Keys == Endpoints(edges)
    ensures forall a: nat, b: nat :: HasArc(Build(edges), a, b) <==> (a, b) in edges
  {
    BuildVertices(edges);
    forall a: nat, b: nat ensures HasArc(Build(edges), a, b) <==> (a, b) in edges {
      BuildArcs(edges, a, b);
    }
  }

  lemma {:induction false} BuildVertices(edges: seq<Edge>)
    ensures Build(edges).Keys == Endpoints(edges)
    decreases |edges|
  {
    if edges != [] {
      var init, e := edges[..|edges| - 1], edges[|edges| - 1];
      assert edges == init + [e];
      BuildVertices(init);
      assert forall x :: x in edges <==> x in init || x == e;
      assert Endpoints(edges) == Endpoints(init) + {e.0, e.1};
    }
  }

  lemma {:induction false} BuildArcs(edges: seq<Edge>, a: nat, b: nat)
    ensures HasArc(Build(edges), a, b) <==> (a, b) in edges
    decreases |edges|
  {
    if edges != [] {
      var init, e := edges[..|edges| - 1], edges[|edges| - 1];
      assert edges == init + [e];
      BuildArcs(init, a, b);
      assert (a, b) in edges <==> (a, b) in init || (a, b) == e;
    }
  }

  /** The built graph is well formed: arcs only lead to vertices. */
  lemma BuildWellFormed(edges: seq<Edge>)
    ensures WellFormed(Build(edges))
  {
    BuildExact(edges);
    var g := Build(edges);
    forall u, v | u in g && v in g[u] ensures v in g {
      assert HasArc(g, u, v);
      assert (u, v) in edges;
    }
  }

  /** The graph depends only on which edges occur, not on their order or repetitions. */
  lemma SameEdgesSameGraph(edges1: seq<Edge>, edges2: seq<Edge>)
    requires forall e :: e in edges1 <==> e in edges2
    ensures Build(edges1) == Build(edges2)
  {
    var g1, g2 := Build(edges1), Build(edges2);
    SameEdgesSameVertices(edges1, edges2);
    assert g1.Keys == g2.Keys;
    forall v | v in g1 ensures g1[v] == g2[v] {
      SameEdgesSameNeighbours(edges1, edges2, v);
    }
    SameEntriesSameGraph(g1, g2);
  }

  /** Two graphs with the same vertices and the same out-neighbours are equal. */
  lemma SameEntriesSameGraph(g1: Graph, g2: Graph)
    requires g1.Keys == g2.Keys
    requires forall v :: v in g1 ==> g1[v] == g2[v]
    ensures g1 == g2
  {
  }

  lemma SameEdgesSameVertices(edges1: seq<Edge>, edges2: seq<Edge>)
    requires forall e :: e in edges1 <==> e in edges2
    ensures Build(edges1).Keys == Build(edges2).Keys
  {
    BuildVertices(edges1);
    BuildVertices(edges2);
    assert (set e | e in edges1 :: e.0) == (set e | e in edges2 :: e.0);
    assert (set e | e in edges1 :: e.1) == (set e | e in edges2 :: e.1);
  }

  lemma SameEdgesSameNeighbours(edges1: seq<Edge>, edges2: seq<Edge>, v: nat)
    requires forall e :: e in edges1 <==> e in edges2
    requires v in Build(edges1) && v in Build(edges2)
    ensures Build(edges1)[v] == Build(edges2)[v]
  {
    forall w: nat ensures w in Build(edges1)[v] <==> w in Build(edges2)[v] {
      BuildArcs(edges1, v, w);
      BuildArcs(edges2, v, w);
    }
  }

  /** Repeating an edge, or the whole list, leaves the graph unchanged. */
  lemma DuplicateEdgesIdempotent(edges: seq<Edge>, e: Edge)
    requires e in edges
    ensures Build(edges + [e]) == Build(edges)
    ensures Build(edges + edges) == Build(edges)
  {
    SameEdgesSameGraph(edges + [e], edges);
    SameEdgesSameGraph(edges + edges, edges);
  }

  /** An edge `(a, b)` never gives the reverse arc `b -> a` on its own. */
  lemma OneWay(edges: seq<Edge>, a: nat, b: nat)
    requires (b, a) !in edges
    ensures !HasArc(Build(edges), b, a)
  {
    BuildExact(edges);
  }
}
