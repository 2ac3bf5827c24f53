/**
 The directed path 1 -> 2 -> ... -> n, and the four-edge instance of it
 (`test_average_distance` in main.rs) whose average distance is 2.0.
 */
module PathExample {
  import opened EdgeParser
  import opened GraphBuilder
  import opened Reachability
  import opened SetSum
  import opened Aggregator

  predicate Between(lo: nat, v: nat, hi: nat)
  {
    lo <= v <= hi
  }

  /** The ids `lo` to `hi`, both included (`Between` gives the solver a term to match on). */
  function Range(lo: nat, hi: nat): set<nat>
  {
    set v: nat | v <= hi && Between(lo, v, hi)
  }

  function Min(a: nat, b: nat): nat
  {
    if a <= b then a else b
  }

  /**
   The directed path on the vertices 1 to `n`: one arc from each vertex to
   the next. The out-neighbours of `v` are written as the range from `v + 1`
   to `v + 1` (empty once `v` is `n`) rather than as a singleton, which keeps
   the solver from following the path arc after arc on its own.
   */
  function Path(n: nat): Graph
  {
    map v | v in Range(1, n) :: Range(v + 1, Min(v + 1, n))
  }

  /** 0 + 1 + ... + k. */
  function Tri(k: nat): nat
  {
    if k == 0 then 0 else k + Tri(k - 1)
  }

  /** Tri(0) + Tri(1) + ... + Tri(k). */
  function Tet(k: nat): nat
  {
    if k == 0 then 0 else Tri(k) + Tet(k - 1)
  }

  lemma {:induction false} TriClosedForm(k: nat)
    ensures 2 * Tri(k) == k * (k + 1)
  {
    if k > 0 {
      TriClosedForm(k - 1);
    }
  }

  lemma {:induction false} TetClosedForm(k: nat)
    ensures 6 * Tet(k) == k * (k + 1) * (k + 2)
  {
    if k > 0 {
      TetClosedForm(k - 1);
      TriClosedForm(k);
      assert k * (k + 1) * (k + 2) == (k - 1) * k * (k + 1) + 3 * (k * (k + 1));
    }
  }

  // ---------------------------------------------------------------------------
  // Reachability along the path
  // ---------------------------------------------------------------------------

  lemma PathWellFormed(n: nat)
    ensures WellFormed(Path(n)) && Path(n).Keys == Range(1, n)
  {
  }

  /** In plain terms: every vertex but the last has the single out-neighbour that follows it. */
  lemma PathArcs(n: nat, v: nat)
    requires v in Path(n)
    ensures Path(n)[v] == if v < n then {v + 1} else {}
  {
    if v < n {
      assert v + 1 in Path(n)[v];
    } else {
      assert Path(n)[v] == {};
    }
  }

  /** One step from the ids `lo..hi` of the path reaches `lo + 1` up to `hi + 1`, stopping at `n`. */
  lemma PathStep(n: nat, lo: nat, hi: nat)
    requires 1 <= lo <= hi <= n
    ensures Step(Path(n), Range(lo, hi)) == Range(lo + 1, Min(hi + 1, n))
  {
    var P := Path(n);
    forall v | v in Step(P, Range(lo, hi)) ensures v in Range(lo + 1, Min(hi + 1, n)) {
      var u :| u in Range(lo, hi) && v in Succ(P, u);
      assert u < n && v == u + 1 && v in Range(lo + 1, Min(hi + 1, n));
    }
    forall v | v in Range(lo + 1, Min(hi + 1, n)) ensures v in Step(P, Range(lo, hi)) {
      assert v - 1 in Range(lo, hi) && v in Succ(P, v - 1);
    }
  }

  /** Within `k` arcs of `s` lie exactly the ids `s` to `s + k`, stopping at `n`. */
  lemma {:induction false} PathWithin(n: nat, s: nat, k: nat)
    requires 1 <= s <= n
    ensures Within(Path(n), s, k) == Range(s, Min(s + k, n))
  {
    if k == 0 {
      assert Range(s, s) == {s};
    } else {
      PathWithin(n, s, k - 1);
      var h := Min(s + k - 1, n);
      PathStep(n, s, h);
      assert Range(s, h) + Range(s + 1, Min(h + 1, n)) == Range(s, Min(s + k, n));
    }
  }

  /** From `s`, the path reaches exactly `s..n`, each `t` at distance `t - s`. */
  lemma PathDistances(n: nat, s: nat)
    requires 1 <= s <= n
    ensures WellFormed(Path(n)) && s in Path(n)
    ensures ShortestDistances(Path(n), s) == map t | t in Range(s, n) :: t - s
  {
    var P := Path(n);
    PathWellFormed(n);
    var m := map t | t in Range(s, n) :: t - s;
    forall t ensures t in m <==> Reaches(P, s, t) {
      if t in m {
        PathWithin(n, s, n);
        assert t in Within(P, s, n);
      }
      if Reaches(P, s, t) {
        var k: nat :| t in Within(P, s, k);
        PathWithin(n, s, k);
      }
    }
    forall t | t in m ensures IsDistance(P, s, t, m[t]) {
      PathWithin(n, s, t - s);
      if t > s {
        PathWithin(n, s, t - s - 1);
      }
    }
    ShortestDistancesUnique(P, s, m);
  }

  // ---------------------------------------------------------------------------
  // Sums over ranges of ids
  // ---------------------------------------------------------------------------

  lemma {:induction false} RangeSize(lo: nat, hi: nat)
    requires lo <= hi + 1
    ensures |Range(lo, hi)| == hi + 1 - lo
    decreases hi + 1 - lo
  {
    if lo <= hi {
      assert Range(lo, hi) == {lo} + Range(lo + 1, hi);
      RangeSize(lo + 1, hi);
    } else {
      assert Range(lo, hi) == {};
    }
  }

  /** Distances `0, 1, ..., hi - s` add up to `Tri(hi - s)`. */
  lemma {:induction false} SumRising(f: map<nat, nat>, s: nat, hi: nat)
    requires s <= hi && Range(s, hi) <= f.Keys
    requires forall t :: t in Range(s, hi) ==> f[t] == t - s
    ensures Sum(f, Range(s, hi)) == Tri(hi - s)
    decreases hi - s
  {
    SumRemove(f, Range(s, hi), hi);
    if hi == s {
      assert Range(s, hi) - {hi} == {};
    } else {
      assert Range(s, hi) - {hi} == Range(s, hi - 1);
      SumRising(f, s, hi - 1);
    }
  }

  /** `f` maps each id `v` in `lo..n` to `n - v`. */
  ghost predicate FallingFrom(f: map<nat, nat>, lo: nat, n: nat)
  {
    Range(lo, n) <= f.Keys && forall v :: v in Range(lo, n) ==> f[v] == n - v
  }

  /** `f` maps each id `v` in `lo..n` to `Tri(n - v)`. */
  ghost predicate TriFrom(f: map<nat, nat>, lo: nat, n: nat)
  {
    Range(lo, n) <= f.Keys && forall v :: v in Range(lo, n) ==> f[v] == Tri(n - v)
  }

  /** Terms `n - lo, ..., 1, 0` add up to `Tri(n - lo)`. */
  lemma {:induction false} SumFalling(f: map<nat, nat>, lo: nat, n: nat)
    requires lo <= n && FallingFrom(f, lo, n)
    ensures Sum(f, Range(lo, n)) == Tri(n - lo)
    decreases n - lo
  {
    SumRemove(f, Range(lo, n), lo);
    if lo == n {
      assert Range(lo, n) - {lo} == {};
    } else {
      assert Range(lo, n) - {lo} == Range(lo + 1, n);
      SumFalling(f, lo + 1, n);
    }
  }

  /** Terms `Tri(n - lo), ..., Tri(1), Tri(0)` add up to `Tet(n - lo)`. */
  lemma {:induction false} SumOfTri(f: map<nat, nat>, lo: nat, n: nat)
    requires lo <= n && TriFrom(f, lo, n)
    ensures Sum(f, Range(lo, n)) == Tet(n - lo)
    decreases n - lo
  {
    SumRemove(f, Range(lo, n), lo);
    if lo == n {
      assert Range(lo, n) - {lo} == {};
    } else {
      assert Range(lo, n) - {lo} == Range(lo + 1, n);
      SumOfTri(f, lo + 1, n);
    }
  }

  // ---------------------------------------------------------------------------
  // The counters on a path
  // ---------------------------------------------------------------------------

  /** From `s`, the path contributes `Tri(n - s)` to the total and `n - s` pairs. */
  lemma PathSource(n: nat, s: nat)
    requires 1 <= s <= n
    ensures WellFormed(Path(n)) && s in Path(n)
    ensures SourceTotal(Path(n), s) == Tri(n - s) && SourcePairs(Path(n), s) == n - s
  {
    PathDistances(n, s);
    var m := ShortestDistances(Path(n), s);
    assert m.Keys == Range(s, n);
    SumRising(m, s, n);
    RangeSize(s, n);
  }

  /** The triangle numbers `Tri(n - v)` for the ids `v` in `1..n`. */
  function Triangles(n: nat): map<nat, nat>
  {
    map v | v in Range(1, n) :: Tri(n - v)
  }

  /** The counts `n - v` for the ids `v` in `1..n`. */
  function Falling(n: nat): map<nat, nat>
  {
    map v | v in Range(1, n) :: n - v
  }

  lemma TrianglesSum(n: nat)
    requires n >= 1
    ensures Range(1, n) <= Triangles(n).Keys && Sum(Triangles(n), Range(1, n)) == Tet(n - 1)
  {
    SumOfTri(Triangles(n), 1, n);
  }

  lemma FallingSum(n: nat)
    requires n >= 1
    ensures Range(1, n) <= Falling(n).Keys && Sum(Falling(n), Range(1, n)) == Tri(n - 1)
  {
    SumFalling(Falling(n), 1, n);
  }

  lemma PathSourceTotal(n: nat, v: nat)
    requires v in Path(n)
    ensures WellFormed(Path(n)) && v in Triangles(n) && SourceTotal(Path(n), v) == Triangles(n)[v]
  {
    assert v in Range(1, n);
    PathSource(n, v);
  }

  lemma PathSourcePair(n: nat, v: nat)
    requires v in Path(n)
    ensures WellFormed(Path(n)) && v in Falling(n) && SourcePairs(Path(n), v) == Falling(n)[v]
  {
    assert v in Range(1, n);
    PathSource(n, v);
  }

  lemma PathSourceTotals(n: nat)
    ensures WellFormed(Path(n))
    ensures forall v :: v in Path(n) ==> v in Triangles(n) && SourceTotal(Path(n), v) == Triangles(n)[v]
  {
    PathWellFormed(n);
    forall v | v in Path(n) ensures v in Triangles(n) && SourceTotal(Path(n), v) == Triangles(n)[v] {
      PathSourceTotal(n, v);
    }
  }

  lemma PathSourcePairs(n: nat)
    ensures WellFormed(Path(n))
    ensures forall v :: v in Path(n) ==> v in Falling(n) && SourcePairs(Path(n), v) == Falling(n)[v]
  {
    PathWellFormed(n);
    forall v | v in Path(n) ensures v in Falling(n) && SourcePairs(Path(n), v) == Falling(n)[v] {
      PathSourcePair(n, v);
    }
  }

  /**
   On the path 1 -> ... -> n the total distance is `Tet(n - 1)`, that is
   (n - 1) n (n + 1) / 6.
   */
  lemma PathTotal(n: nat)
    requires n >= 1
    ensures WellFormed(Path(n)) && TotalDistance(Path(n)) == Tet(n - 1)
  {
    PathWellFormed(n);
    PathSourceTotals(n);
    TrianglesSum(n);
    TotalDistanceFrom(Path(n), Triangles(n));
  }

  /** On the path 1 -> ... -> n there are `Tri(n - 1)`, that is n (n - 1) / 2, pairs. */
  lemma PathPairs(n: nat)
    requires n >= 1
    ensures WellFormed(Path(n)) && PairCount(Path(n)) == Tri(n - 1)
  {
    PathWellFormed(n);
    PathSourcePairs(n);
    FallingSum(n);
    PairCountFrom(Path(n), Falling(n));
  }

  /** The same counters in closed form. */
  lemma PathCountersClosedForm(n: nat)
    requires n >= 1
    ensures WellFormed(Path(n))
    ensures 6 * TotalDistance(Path(n)) == (n - 1) * n * (n + 1)
    ensures 2 * PairCount(Path(n)) == (n - 1) * n
  {
    PathTotal(n);
    PathPairs(n);
    var k := n - 1;
    TetClosedForm(k);
    TriClosedForm(k);
    assert k + 1 == n && k + 2 == n + 1;
  }

  // ---------------------------------------------------------------------------
  // test_average_distance
  // ---------------------------------------------------------------------------

  const TestEdges: seq<Edge> := [(1, 2), (2, 3), (3, 4), (4, 5)]

  lemma TestEndpoints()
    ensures Endpoints(TestEdges) == Range(1, 5)
  {
    assert TestEdges[0].0 == 1 && TestEdges[1].0 == 2 && TestEdges[2].0 == 3;
    assert TestEdges[3].0 == 4 && TestEdges[3].1 == 5;
  }

  /** A graph on the ids `1..n` whose arcs go exactly from each `a < n` to `a + 1` is the path. */
  lemma PathOfArcs(g: Graph, n: nat)
    requires g.Keys == Range(1, n)
    requires forall a: nat, b: nat :: HasArc(g, a, b) <==> 1 <= a < n && b == a + 1
    ensures g == Path(n)
  {
    var P := Path(n);
    forall v | v in g ensures g[v] == P[v] {
      forall w: nat ensures w in g[v] <==> w in P[v] {
        assert HasArc(g, v, w) <==> 1 <= v < n && w == v + 1;
      }
    }
  }

  lemma TestArcs(a: nat, b: nat)
    ensures (a, b) in TestEdges <==> 1 <= a < 5 && b == a + 1
  {
    if 1 <= a < 5 && b == a + 1 {
      assert TestEdges[a - 1] == (a, b);
    }
  }

  /** The four test edges build the path on 1..5. */
  lemma TestGraphIsPath()
    ensures Build(TestEdges) == Path(5)
  {
    var g := Build(TestEdges);
    BuildExact(TestEdges);
    TestEndpoints();
    forall a: nat, b: nat ensures HasArc(g, a, b) <==> 1 <= a < 5 && b == a + 1 {
      TestArcs(a, b);
    }
    PathOfArcs(g, 5);
  }

  /** The test's graph: total distance 20 over 10 pairs, an average of 2.0. */
  lemma TestAverageDistance()
    ensures WellFormed(Build(TestEdges))
    ensures TotalDistance(Build(TestEdges)) == 20 && PairCount(Build(TestEdges)) == 10
    ensures Average(TotalDistance(Build(TestEdges)), PairCount(Build(TestEdges))) == 2.0
  {
    TestGraphIsPath();
    PathTotal(5);
    PathPairs(5);
  }
}
