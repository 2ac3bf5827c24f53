/**
 The aggregator (`average_distance` in main.rs): one breadth-first traversal
 from every vertex, adding up the depths of the vertices each traversal
 yields and counting, per source, the vertices it reaches other than itself.
 The result is the mean shortest distance over all ordered pairs `(s, t)`
 with `s != t` and `t` reachable from `s`, or zero when there is no such pair.
 */
module Aggregator {
  import opened EdgeParser
  import opened GraphBuilder
  import opened Reachability
  import opened SetSum
  import opened Traversal

  // ---------------------------------------------------------------------------
  // The specification of the totals
  // ---------------------------------------------------------------------------

  /** The vertices `s` reaches, itself included. */
  ghost function Reached(g: Graph, s: nat): (r: set<nat>)
    requires WellFormed(g) && s in g
    ensures s in r && r <= g.Keys
    ensures forall t :: t in r <==> Reaches(g, s, t)
  {
    assert s in Within(g, s, 0);
    ReachesInGraph(g, s);
    ShortestDistances(g, s).Keys
  }

  /** The sum of the shortest distances from `s` to the vertices it reaches. */
  ghost function SourceTotal(g: Graph, s: nat): nat
    requires WellFormed(g) && s in g
  {
    var m := ShortestDistances(g, s);
    Sum(m, m.Keys)
  }

  /** The number of vertices other than `s` that `s` reaches. */
  ghost function SourcePairs(g: Graph, s: nat): (n: nat)
    requires WellFormed(g) && s in g
    ensures n == |Reached(g, s) - {s}|
  {
    |Reached(g, s)| - 1
  }

  ghost function Totals(g: Graph): map<nat, nat>
    requires WellFormed(g)
  {
    map v | v in g.Keys :: SourceTotal(g, v)
  }

  ghost function PairsBySource(g: Graph): map<nat, nat>
    requires WellFormed(g)
  {
    map v | v in g.Keys :: SourcePairs(g, v)
  }

  /** The sum, over every source, of the shortest distances to the vertices it reaches. */
  ghost function TotalDistance(g: Graph): nat
    requires WellFormed(g)
  {
    Sum(Totals(g), g.Keys)
  }

  /** The number of ordered pairs `(s, t)`, `s != t`, with a path from `s` to `t`. */
  ghost function PairCount(g: Graph): nat
    requires WellFormed(g)
  {
    Sum(PairsBySource(g), g.Keys)
  }

  /** The mean of `total` over `pairs`, and zero when there are no pairs. */
  function Average(total: nat, pairs: nat): (r: real)
    ensures pairs == 0 ==> r == 0.0
    ensures pairs > 0 ==> r * (pairs as real) == total as real
  {
    if pairs > 0 then total as real / pairs as real else 0.0
  }

  // ---------------------------------------------------------------------------
  // The aggregator
  // ---------------------------------------------------------------------------

  /**
   `average_distance`: one traversal per vertex, in any order. `total` and
   `pairs` are the two running counters, `avg` the value returned.
   */
  method AverageDistance(g: Graph) returns (avg: real, total: nat, pairs: nat)
    requires WellFormed(g)
    ensures total == TotalDistance(g) && pairs == PairCount(g)
    ensures avg == Average(total, pairs)
  {
    total, pairs := 0, 0;
    var remaining := g.Keys;
    ghost var done: set<nat> := {};
    while remaining != {}
      invariant remaining <= g.Keys && done == g.Keys - remaining
      invariant total == Sum(Totals(g), done)
      invariant pairs == Sum(PairsBySource(g), done)
      decreases remaining
    {
      var s :| s in remaining;
      var sum: nat, visited: set<nat>, depth: map<nat, nat>;
      ghost var order: seq<nat>;
      sum, visited, depth, order := Traverse(g, s);
      OneSource(g, done, s, total, pairs, sum, visited, depth);
      total := total + sum;
      pairs := pairs + (|visited| - 1);
      MoveSource(g.Keys, remaining, done, s);
      done := done + {s};
      remaining := remaining - {s};
    }
    assert done == g.Keys;
    avg := Average(total, pairs);
  }

  /** Per-source totals given by `f` add up, over all sources, to `Sum(f, g.Keys)`. */
  lemma TotalDistanceFrom(g: Graph, f: map<nat, nat>)
    requires WellFormed(g) && g.Keys <= f.Keys
    requires forall v :: v in g ==> SourceTotal(g, v) == f[v]
    ensures TotalDistance(g) == Sum(f, g.Keys)
  {
    SumAgree(Totals(g), f, g.Keys);
  }

  /** Per-source pair counts given by `f` add up, over all sources, to `Sum(f, g.Keys)`. */
  lemma PairCountFrom(g: Graph, f: map<nat, nat>)
    requires WellFormed(g) && g.Keys <= f.Keys
    requires forall v :: v in g ==> SourcePairs(g, v) == f[v]
    ensures PairCount(g) == Sum(f, g.Keys)
  {
    SumAgree(PairsBySource(g), f, g.Keys);
  }

  lemma MoveSource(all: set<nat>, remaining: set<nat>, done: set<nat>, s: nat)
    requires remaining <= all && done == all - remaining && s in remaining
    ensures remaining - {s} <= all && done + {s} == all - (remaining - {s})
  {
  }

  /** Adding what one traversal from a new source `s` contributes keeps the two counters exact. */
  lemma OneSource(g: Graph, done: set<nat>, s: nat, total: nat, pairs: nat,
                  sum: nat, visited: set<nat>, depth: map<nat, nat>)
    requires WellFormed(g) && done <= g.Keys && s in g && s !in done
    requires total == Sum(Totals(g), done) && pairs == Sum(PairsBySource(g), done)
    requires depth == ShortestDistances(g, s) && visited == depth.Keys && sum == Sum(depth, visited)
    ensures |visited| >= 1
    ensures total + sum == Sum(Totals(g), done + {s})
    ensures pairs + (|visited| - 1) == Sum(PairsBySource(g), done + {s})
  {
    assert visited == Reached(g, s);
    SumAdd(Totals(g), done, s);
    SumAdd(PairsBySource(g), done, s);
  }

  /** `main` without the file and the console: parse the lines, build the graph, average. */
  method Analyze(lines: seq<string>) returns (avg: real)
    ensures WellFormed(Build(ParseEdges(lines)))
    ensures avg == Average(TotalDistance(Build(ParseEdges(lines))), PairCount(Build(ParseEdges(lines))))
  {
    var edges := ReadData(lines);
    var g := BuildGraph(edges);
    BuildWellFormed(edges);
    var total, pairs;
    avg, total, pairs := AverageDistance(g);
  }

  // ---------------------------------------------------------------------------
  // Properties of the result
  // ---------------------------------------------------------------------------

  /** The source is at distance zero from itself, every other vertex it reaches at distance one or more. */
  lemma SourceDistances(g: Graph, s: nat)
    requires WellFormed(g) && s in g
    ensures s in ShortestDistances(g, s) && ShortestDistances(g, s)[s] == 0
    ensures forall t :: t in Reached(g, s) - {s} ==> ShortestDistances(g, s)[t] >= 1
  {
    var m := ShortestDistances(g, s);
    assert s in Reached(g, s);
    SourceAtZero(g, s);
    DistanceUnique(g, s, s, m[s], 0);
    forall t | t in Reached(g, s) - {s} ensures m[t] >= 1 {
      assert IsDistance(g, s, t, m[t]);
    }
  }

  /**
   The source adds nothing to its own total, so each source's total is a sum
   over the other vertices it reaches, and is at least their number.
   */
  lemma SourceTotalOverOthers(g: Graph, s: nat)
    requires WellFormed(g) && s in g
    ensures SourceTotal(g, s) == Sum(ShortestDistances(g, s), Reached(g, s) - {s})
    ensures SourcePairs(g, s) <= SourceTotal(g, s)
  {
    var m := ShortestDistances(g, s);
    SourceDistances(g, s);
    SumRemove(m, m.Keys, s);
    SumAtLeastCount(m, m.Keys - {s});
  }

  /** Every counted pair is at least one arc apart: the pair count never exceeds the total distance. */
  lemma PairsAtMostTotal(g: Graph)
    requires WellFormed(g)
    ensures PairCount(g) <= TotalDistance(g)
  {
    forall v | v in g.Keys ensures PairsBySource(g)[v] <= Totals(g)[v] {
      SourceTotalOverOthers(g, v);
    }
    SumMonotone(PairsBySource(g), Totals(g), g.Keys);
  }

  /** Whenever some pair is counted, the average is at least one. */
  lemma AverageAtLeastOne(g: Graph)
    requires WellFormed(g) && PairCount(g) > 0
    ensures Average(TotalDistance(g), PairCount(g)) >= 1.0
  {
    PairsAtMostTotal(g);
    RatioAtLeastOne(TotalDistance(g), PairCount(g));
  }

  lemma RatioAtLeastOne(total: nat, pairs: nat)
    requires 0 < pairs <= total
    ensures Average(total, pairs) >= 1.0
  {
    var r, p := Average(total, pairs), pairs as real;
    assert (r - 1.0) * p == total as real - p >= 0.0;
  }

  /** No arc joins two different vertices: the graph has only self-loops, or no arcs at all. */
  predicate OnlySelfLoops(g: Graph)
  {
    forall a, b :: a in g && b in g[a] ==> a == b
  }

  /** A vertex whose only arc (if any) is a self-loop reaches nothing else. */
  lemma {:induction false} StaysPut(g: Graph, s: nat, k: nat)
    requires forall w :: w in Succ(g, s) ==> w == s
    ensures Within(g, s, k) == {s}
  {
    if k > 0 {
      StaysPut(g, s, k - 1);
      assert Step(g, {s}) <= {s};
    }
  }

  lemma NoPairsWithoutArcs(g: Graph)
    requires WellFormed(g) && OnlySelfLoops(g)
    ensures TotalDistance(g) == 0 && PairCount(g) == 0
  {
    forall v | v in g.Keys ensures Totals(g)[v] == 0 && PairsBySource(g)[v] == 0 {
      forall t | Reaches(g, v, t) ensures t == v {
        var k: nat :| t in Within(g, v, k);
        StaysPut(g, v, k);
      }
      assert Reached(g, v) - {v} == {};
      SourceTotalOverOthers(g, v);
    }
    SumZero(Totals(g), g.Keys);
    SumZero(PairsBySource(g), g.Keys);
  }

  lemma ArcGivesPair(g: Graph, a: nat, b: nat)
    requires WellFormed(g) && HasArc(g, a, b) && a != b
    ensures PairCount(g) >= 1 && TotalDistance(g) >= 1
  {
    NeighbourAtOne(g, a, b);
    assert b in Reached(g, a) - {a};
    SumRemove(PairsBySource(g), g.Keys, a);
    PairsAtMostTotal(g);
  }

  /**
   The result is zero exactly when no arc joins two different vertices: an
   empty graph, isolated vertices, self-loops. Otherwise it is at least one.
   */
  lemma ZeroExactlyWithoutArcs(g: Graph)
    requires WellFormed(g)
    ensures PairCount(g) == 0 <==> OnlySelfLoops(g)
    ensures TotalDistance(g) == 0 <==> OnlySelfLoops(g)
    ensures Average(TotalDistance(g), PairCount(g)) == 0.0 <==> OnlySelfLoops(g)
  {
    if OnlySelfLoops(g) {
      NoPairsWithoutArcs(g);
    } else {
      var a: nat, b: nat :| a in g && b in g[a] && a != b;
      ArcGivesPair(g, a, b);
      AverageAtLeastOne(g);
    }
  }

  /** No edges at all: the graph is empty and the result is zero. */
  lemma EmptyInputGivesZero()
    ensures Build([]) == map[] && WellFormed(Build([]))
    ensures Average(TotalDistance(Build([])), PairCount(Build([]))) == 0.0
  {
    ZeroExactlyWithoutArcs(Build([]));
  }

  /** The single edge `(1, 1)`: one vertex with a self-loop, and the result is zero. */
  lemma SingleSelfLoopGivesZero()
    ensures Build([(1, 1)]) == map[1 := {1}] && WellFormed(Build([(1, 1)]))
    ensures Average(TotalDistance(Build([(1, 1)])), PairCount(Build([(1, 1)]))) == 0.0
  {
    var g := Build([(1, 1)]);
    assert [(1, 1)][..0] == [];
    assert g == AddEdge(map[], (1, 1));
    assert g.Keys == {1} && g[1] == {1};
    assert g == map[1 := {1}];
    ZeroExactlyWithoutArcs(g);
  }

  // ---------------------------------------------------------------------------
  // Repeated edges and self-loops change nothing
  // ---------------------------------------------------------------------------

  /** Adding a self-loop at an existing vertex changes no level set. */
  lemma {:induction false} SelfLoopWithin(g: Graph, a: nat, s: nat, k: nat)
    requires a in g
    ensures Within(AddEdge(g, (a, a)), s, k) == Within(g, s, k)
  {
    if k > 0 {
      var g' := AddEdge(g, (a, a));
      SelfLoopWithin(g, a, s, k - 1);
      var W := Within(g, s, k - 1);
      forall v | v in Step(g', W) ensures v in Within(g, s, k) {
        var u :| u in W && v in Succ(g', u);
        if u != a || v != a {
          assert v in Succ(g, u);
          assert v in Step(g, W);
        }
      }
      forall v | v in Step(g, W) ensures v in Step(g', W) {
        var u :| u in W && v in Succ(g, u);
        assert v in Succ(g', u);
      }
    }
  }

  /** A self-loop at a vertex of the graph changes neither counter. */
  lemma SelfLoopAddsNothing(g: Graph, a: nat)
    requires WellFormed(g) && a in g
    ensures WellFormed(AddEdge(g, (a, a)))
    ensures TotalDistance(AddEdge(g, (a, a))) == TotalDistance(g)
    ensures PairCount(AddEdge(g, (a, a))) == PairCount(g)
  {
    var g' := AddEdge(g, (a, a));
    SelfLoopWellFormed(g, a);
    forall v | v in g' ensures ShortestDistances(g', v) == ShortestDistances(g, v) {
      SelfLoopSameDistances(g, a, v);
    }
    SameDistancesSameCounters(g', g);
  }

  /** The two counters depend only on the shortest distances from each vertex. */
  lemma SameDistancesSameCounters(g1: Graph, g2: Graph)
    requires WellFormed(g1) && WellFormed(g2) && g1.Keys == g2.Keys
    requires forall s :: s in g1 ==> ShortestDistances(g1, s) == ShortestDistances(g2, s)
    ensures TotalDistance(g1) == TotalDistance(g2) && PairCount(g1) == PairCount(g2)
  {
    assert Totals(g1) == Totals(g2);
    assert PairsBySource(g1) == PairsBySource(g2);
  }

  lemma SelfLoopWellFormed(g: Graph, a: nat)
    requires WellFormed(g) && a in g
    ensures WellFormed(AddEdge(g, (a, a))) && AddEdge(g, (a, a)).Keys == g.Keys
  {
    var g' := AddEdge(g, (a, a));
    forall u, v | u in g' && v in g'[u] ensures v in g' {
      if u != a || v != a {
        assert v in g[u];
      }
    }
  }

  lemma SelfLoopSameDistances(g: Graph, a: nat, s: nat)
    requires WellFormed(g) && a in g && s in g
    ensures WellFormed(AddEdge(g, (a, a)))
    ensures ShortestDistances(AddEdge(g, (a, a)), s) == ShortestDistances(g, s)
  {
    var g' := AddEdge(g, (a, a));
    SelfLoopWellFormed(g, a);
    forall k: nat ensures Within(g', s, k) == Within(g, s, k) {
      SelfLoopWithin(g, a, s, k);
    }
    SameLevelsSameDistances(g', g, s);
  }

  /** Sets of vertices whose out-neighbours agree in two graphs take the same step in both. */
  lemma StepAgree(g1: Graph, g2: Graph, W: set<nat>)
    requires forall u :: u in W ==> Succ(g1, u) == Succ(g2, u)
    ensures Step(g1, W) == Step(g2, W)
  {
    forall v | v in Step(g1, W) ensures v in Step(g2, W) {
      var u :| u in W && v in Succ(g1, u);
      assert v in Succ(g2, u);
    }
    forall v | v in Step(g2, W) ensures v in Step(g1, W) {
      var u :| u in W && v in Succ(g2, u);
      assert v in Succ(g1, u);
    }
  }

  /** A self-loop on a new id is out of reach of every old vertex: no level set changes. */
  lemma {:induction false} FreshSelfLoopWithin(g: Graph, a: nat, s: nat, k: nat)
    requires WellFormed(g) && a !in g && s in g
    ensures Within(AddEdge(g, (a, a)), s, k) == Within(g, s, k)
  {
    if k > 0 {
      var g' := AddEdge(g, (a, a));
      FreshSelfLoopWithin(g, a, s, k - 1);
      var W := Within(g, s, k - 1);
      WithinInGraph(g, s, k - 1);
      forall u | u in W ensures Succ(g', u) == Succ(g, u) {
        assert u in g && u != a;
      }
      StepAgree(g', g, W);
    }
  }

  lemma FreshSelfLoopWellFormed(g: Graph, a: nat)
    requires WellFormed(g) && a !in g
    ensures WellFormed(AddEdge(g, (a, a)))
    ensures AddEdge(g, (a, a)).Keys == g.Keys + {a} && AddEdge(g, (a, a))[a] == {a}
  {
    var g' := AddEdge(g, (a, a));
    forall u, v | u in g' && v in g'[u] ensures v in g' {
      if u != a {
        assert v in g[u];
      }
    }
  }

  /** The new vertex of a fresh self-loop reaches only itself: it adds nothing to either counter. */
  lemma FreshSourceAddsNothing(g: Graph, a: nat)
    requires WellFormed(g) && a in g && g[a] == {a}
    ensures SourceTotal(g, a) == 0 && SourcePairs(g, a) == 0
  {
    forall t | Reaches(g, a, t) ensures t == a {
      var k: nat :| t in Within(g, a, k);
      StaysPut(g, a, k);
    }
    assert Reached(g, a) - {a} == {};
    SourceTotalOverOthers(g, a);
  }

  /** A self-loop on an id the graph does not hold adds an isolated vertex and changes neither counter. */
  lemma FreshSelfLoopAddsNothing(g: Graph, a: nat)
    requires WellFormed(g) && a !in g
    ensures WellFormed(AddEdge(g, (a, a)))
    ensures TotalDistance(AddEdge(g, (a, a))) == TotalDistance(g)
    ensures PairCount(AddEdge(g, (a, a))) == PairCount(g)
  {
    var g' := AddEdge(g, (a, a));
    FreshSelfLoopWellFormed(g, a);
    forall v | v in g ensures Totals(g')[v] == Totals(g)[v] && PairsBySource(g')[v] == PairsBySource(g)[v] {
      FreshSelfLoopSameDistances(g, a, v);
    }
    FreshSourceAddsNothing(g', a);
    SumAdd(Totals(g'), g.Keys, a);
    SumAdd(PairsBySource(g'), g.Keys, a);
    SumAgree(Totals(g'), Totals(g), g.Keys);
    SumAgree(PairsBySource(g'), PairsBySource(g), g.Keys);
  }

  lemma FreshSelfLoopSameDistances(g: Graph, a: nat, s: nat)
    requires WellFormed(g) && a !in g && s in g
    ensures WellFormed(AddEdge(g, (a, a)))
    ensures ShortestDistances(AddEdge(g, (a, a)), s) == ShortestDistances(g, s)
  {
    var g' := AddEdge(g, (a, a));
    FreshSelfLoopWellFormed(g, a);
    forall k: nat ensures Within(g', s, k) == Within(g, s, k) {
      FreshSelfLoopWithin(g, a, s, k);
    }
    SameLevelsSameDistances(g', g, s);
  }

  /** Appending a self-loop to an edge list changes neither counter, whether or not its id is new. */
  lemma SelfLoopEdgeAddsNothing(edges: seq<Edge>, a: nat)
    ensures WellFormed(Build(edges)) && WellFormed(Build(edges + [(a, a)]))
    ensures TotalDistance(Build(edges + [(a, a)])) == TotalDistance(Build(edges))
    ensures PairCount(Build(edges + [(a, a)])) == PairCount(Build(edges))
  {
    BuildWellFormed(edges);
    assert (edges + [(a, a)])[..|edges|] == edges;
    if a in Build(edges) {
      SelfLoopAddsNothing(Build(edges), a);
    } else {
      FreshSelfLoopAddsNothing(Build(edges), a);
    }
  }

  /** Repeating an edge changes neither counter. */
  lemma RepeatedEdgeAddsNothing(edges: seq<Edge>, e: Edge)
    requires e in edges
    ensures WellFormed(Build(edges)) && WellFormed(Build(edges + [e]))
    ensures TotalDistance(Build(edges + [e])) == TotalDistance(Build(edges))
    ensures PairCount(Build(edges + [e])) == PairCount(Build(edges))
  {
    BuildWellFormed(edges);
    DuplicateEdgesIdempotent(edges, e);
  }
}
