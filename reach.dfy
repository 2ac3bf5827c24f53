/**
 Reachability and shortest hop distance over outgoing arcs: the
 specification that the breadth-first traversal is proved against.
 */
module Reachability {
  import opened GraphBuilder

  /** The out-neighbours of `v` (none when `v` is not a vertex). */
  function Succ(g: Graph, v: nat): set<nat>
  {
    if v in g then g[v] else {}
  }

  /** The vertices one arc away from some vertex of `S`. */
  function Step(g: Graph, S: set<nat>): (r: set<nat>)
  {
    set u, v | u in S && v in Succ(g, u) :: v
  }

  /** The vertices at most `k` arcs away from `s`. */
  function Within(g: Graph, s: nat, k: nat): set<nat>
  {
    if k == 0 then {s} else Within(g, s, k - 1) + Step(g, Within(g, s, k - 1))
  }

  /** There is a directed path from `s` to `t` (of zero or more arcs). */
  ghost predicate Reaches(g: Graph, s: nat, t: nat)
  {
    exists k: nat :: t in Within(g, s, k)
  }

  /** `d` is the shortest hop distance from `s` to `t`: `t` is within `d` arcs and not within `d - 1`. */
  predicate IsDistance(g: Graph, s: nat, t: nat, d: nat)
  {
    t in Within(g, s, d) && (d == 0 || t !in Within(g, s, d - 1))
  }

  /** More hops never reach fewer vertices. */
  lemma {:induction false} WithinMonotone(g: Graph, s: nat, i: nat, j: nat)
    requires i <= j
    ensures Within(g, s, i) <= Within(g, s, j)
    decreases j
  {
    if i < j {
      WithinMonotone(g, s, i, j - 1);
    }
  }

  /** A distance is the least number of hops that reaches the vertex. */
  lemma DistanceIsLeast(g: Graph, s: nat, t: nat, d: nat, k: nat)
    requires IsDistance(g, s, t, d) && t in Within(g, s, k)
    ensures d <= k
  {
    if k < d {
      WithinMonotone(g, s, k, d - 1);
    }
  }

  /** Every vertex has at most one distance. */
  lemma DistanceUnique(g: Graph, s: nat, t: nat, d1: nat, d2: nat)
    requires IsDistance(g, s, t, d1) && IsDistance(g, s, t, d2)
    ensures d1 == d2
  {
    DistanceIsLeast(g, s, t, d1, d2);
    DistanceIsLeast(g, s, t, d2, d1);
  }

  /** A vertex within `k` hops has a distance, and it is at most `k`. */
  lemma {:induction false} HasDistance(g: Graph, s: nat, t: nat, k: nat)
    requires t in Within(g, s, k)
    ensures exists d: nat :: d <= k && IsDistance(g, s, t, d)
    decreases k
  {
    if k > 0 && t in Within(g, s, k - 1) {
      HasDistance(g, s, t, k - 1);
    } else {
      assert IsDistance(g, s, t, k);
    }
  }

  /** The source is at distance 0 from itself. */
  lemma SourceAtZero(g: Graph, s: nat)
    ensures IsDistance(g, s, s, 0)
  {
  }

  /** A direct out-neighbour other than the source is at distance 1. */
  lemma NeighbourAtOne(g: Graph, s: nat, t: nat)
    requires t in Succ(g, s) && t != s
    ensures IsDistance(g, s, t, 1)
  {
    assert t in Step(g, Within(g, s, 0));
  }

  /** From a vertex of a well-formed graph, every vertex within reach is a vertex. */
  lemma {:induction false} WithinInGraph(g: Graph, s: nat, k: nat)
    requires WellFormed(g) && s in g
    ensures Within(g, s, k) <= g.Keys
    decreases k
  {
    if k > 0 {
      WithinInGraph(g, s, k - 1);
    }
  }

  lemma ReachesInGraph(g: Graph, s: nat)
    requires WellFormed(g) && s in g
    ensures forall t :: Reaches(g, s, t) ==> t in g
  {
    forall t | Reaches(g, s, t) ensures t in g {
      var k: nat :| t in Within(g, s, k);
      WithinInGraph(g, s, k);
    }
  }

  // ---------------------------------------------------------------------------
  // Shortest distances as a map
  // ---------------------------------------------------------------------------

  /** The distance from `s` to a vertex it reaches. */
  ghost function Dist(g: Graph, s: nat, t: nat): (d: nat)
    requires Reaches(g, s, t)
    ensures IsDistance(g, s, t, d)
  {
    var k: nat :| t in Within(g, s, k);
    HasDistance(g, s, t, k);
    var d: nat :| IsDistance(g, s, t, d);
    d
  }

  /** Every vertex that `s` reaches, with its shortest hop distance from `s`. */
  ghost function ShortestDistances(g: Graph, s: nat): (r: map<nat, nat>)
    requires WellFormed(g) && s in g
    ensures forall t :: t in r <==> Reaches(g, s, t)
    ensures forall t :: t in r ==> IsDistance(g, s, t, r[t])
  {
    ReachesInGraph(g, s);
    map t | t in g && Reaches(g, s, t) :: Dist(g, s, t)
  }

  /** A map that holds exactly the reached vertices with their distances is the map of shortest distances. */
  lemma ShortestDistancesUnique(g: Graph, s: nat, m: map<nat, nat>)
    requires WellFormed(g) && s in g
    requires forall t :: t in m <==> Reaches(g, s, t)
    requires forall t :: t in m ==> IsDistance(g, s, t, m[t])
    ensures m == ShortestDistances(g, s)
  {
    var r := ShortestDistances(g, s);
    assert m.Keys == r.Keys;
    forall t | t in m ensures m[t] == r[t] {
      DistanceUnique(g, s, t, m[t], r[t]);
    }
  }

  /** Two graphs with the same level sets from `s` give `s` the same shortest distances. */
  lemma SameLevelsSameDistances(g1: Graph, g2: Graph, s: nat)
    requires WellFormed(g1) && s in g1 && WellFormed(g2) && s in g2
    requires forall k: nat :: Within(g1, s, k) == Within(g2, s, k)
    ensures ShortestDistances(g1, s) == ShortestDistances(g2, s)
  {
    var m := ShortestDistances(g1, s);
    forall t ensures t in m <==> Reaches(g2, s, t) {
      if t in m {
        var k: nat :| t in Within(g1, s, k);
        assert t in Within(g2, s, k);
      }
      if Reaches(g2, s, t) {
        var k: nat :| t in Within(g2, s, k);
        assert t in Within(g1, s, k);
      }
    }
    forall t | t in m ensures IsDistance(g2, s, t, m[t]) {
      var d := m[t];
      assert IsDistance(g1, s, t, d);
      if d > 0 {
        assert Within(g1, s, d - 1) == Within(g2, s, d - 1);
      }
    }
    ShortestDistancesUnique(g2, s, m);
  }

  // ---------------------------------------------------------------------------
  // Walks: what "within k hops" and "distance" mean
  // ---------------------------------------------------------------------------

  /** `p` is a directed walk from `s` to `t`: consecutive vertices are joined by arcs. */
  ghost predicate WalkFromTo(g: Graph, p: seq<nat>, s: nat, t: nat)
  {
    |p| > 0 && p[0] == s && p[|p| - 1] == t &&
    forall i :: 0 <= i < |p| - 1 ==> p[i + 1] in Succ(g, p[i])
  }

  /** A vertex within `k` hops is the end of a walk of at most `k` arcs. */
  lemma {:induction false} WalkOfWithin(g: Graph, s: nat, t: nat, k: nat) returns (p: seq<nat>)
    requires t in Within(g, s, k)
    ensures WalkFromTo(g, p, s, t) && |p| <= k + 1
    decreases k
  {
    if k == 0 {
      p := [s];
    } else if t in Within(g, s, k - 1) {
      p := WalkOfWithin(g, s, t, k - 1);
    } else {
      var u :| u in Within(g, s, k - 1) && t in Succ(g, u);
      var q := WalkOfWithin(g, s, u, k - 1);
      p := q + [t];
      assert forall i :: 0 <= i < |q| ==> p[i] == q[i];
    }
  }

  /** The end of a walk of at most `k` arcs is within `k` hops. */
  lemma {:induction false} WithinOfWalk(g: Graph, s: nat, t: nat, k: nat, p: seq<nat>)
    requires WalkFromTo(g, p, s, t) && |p| <= k + 1
    ensures t in Within(g, s, k)
    decreases |p|
  {
    if |p| == 1 {
      WithinMonotone(g, s, 0, k);
    } else {
      var q := p[..|p| - 1];
      var u := q[|q| - 1];
      assert WalkFromTo(g, q, s, u);
      WithinOfWalk(g, s, u, k - 1, q);
      assert t in Succ(g, u);
    }
  }

  /**
   Distance `d` means: some walk from `s` to `t` has exactly `d` arcs, and no
   walk from `s` to `t` has fewer.
   */
  lemma DistanceIsShortestWalk(g: Graph, s: nat, t: nat, d: nat)
    ensures IsDistance(g, s, t, d) <==>
      (exists p :: WalkFromTo(g, p, s, t) && |p| == d + 1) &&
      (forall p :: WalkFromTo(g, p, s, t) ==> d + 1 <= |p|)
  {
    if IsDistance(g, s, t, d) {
      var p := WalkOfWithin(g, s, t, d);
      forall q | WalkFromTo(g, q, s, t) ensures d + 1 <= |q| {
        if |q| < d + 1 {
          WithinOfWalk(g, s, t, d - 1, q);
        }
      }
      assert |p| == d + 1;
    }
    if (exists p :: WalkFromTo(g, p, s, t) && |p| == d + 1) &&
       (forall p :: WalkFromTo(g, p, s, t) ==> d + 1 <= |p|) {
      var p :| WalkFromTo(g, p, s, t) && |p| == d + 1;
      WithinOfWalk(g, s, t, d, p);
      if d > 0 && t in Within(g, s, d - 1) {
        var q := WalkOfWithin(g, s, t, d - 1);
        assert false;
      }
    }
  }
}
