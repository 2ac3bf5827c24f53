/**
 One breadth-first traversal from a source vertex (the inner loop of
 `average_distance` in main.rs): a queue of discovered vertices, the depth at
 which each was first discovered, and the set of vertices already yielded.
 Each yielded vertex adds its depth to the running sum exactly once.
 */
module Traversal {
  import opened GraphBuilder
  import opened Reachability
  import opened SetSum

  /** The elements of a sequence, as a set. */
  function Elems(q: seq<nat>): set<nat>
  {
    set x | x in q
  }

  /** No element occurs twice. */
  predicate Distinct(q: seq<nat>)
  {
    forall i, j :: 0 <= i < j < |q| ==> q[i] != q[j]
  }

  lemma ElemsAppend(a: seq<nat>, b: seq<nat>)
    ensures Elems(a + b) == Elems(a) + Elems(b)
  {
    assert forall x :: x in a + b <==> x in a || x in b;
  }

  /**
   The discovery step of a traversal: every out-neighbour of `u` that has no
   depth yet gets depth `d + 1` and joins the back of the queue, once each.
   */
  method Discover(g: Graph, u: nat, d: nat, depth: map<nat, nat>, queue: seq<nat>)
    returns (depth': map<nat, nat>, queue': seq<nat>)
    ensures depth'.Keys == depth.Keys + Succ(g, u)
    ensures forall t :: t in depth ==> depth'[t] == depth[t]
    ensures forall t :: t in depth' && t !in depth ==> depth'[t] == d + 1
    ensures |queue| <= |queue'| && queue'[..|queue|] == queue
    ensures Elems(queue'[|queue|..]) == Succ(g, u) - depth.Keys
    ensures Distinct(queue'[|queue|..])
  {
    depth', queue' := depth, queue;
    var todo := Succ(g, u);
    while todo != {}
      invariant todo <= Succ(g, u)
      invariant depth'.Keys == depth.Keys + (Succ(g, u) - todo)
      invariant forall t :: t in depth ==> depth'[t] == depth[t]
      invariant forall t :: t in depth' && t !in depth ==> depth'[t] == d + 1
      invariant |queue| <= |queue'| && queue'[..|queue|] == queue
      invariant Elems(queue'[|queue|..]) == (Succ(g, u) - todo) - depth.Keys
      invariant Distinct(queue'[|queue|..])
      decreases todo
    {
      var w :| w in todo;
      todo := todo - {w};
      if w !in depth' {
        ghost var before := queue'[|queue|..];
        assert w !in Elems(before);
        depth' := depth'[w := d + 1];
        queue' := queue' + [w];
        assert queue'[|queue|..] == before + [w];
        ElemsAppend(before, [w]);
        assert Elems([w]) == {w};
        forall i, j | 0 <= i < j < |before| + 1 ensures (before + [w])[i] != (before + [w])[j] {
          if j == |before| {
            assert before[i] in Elems(before);
          }
        }
      }
    }
  }

  // ---------------------------------------------------------------------------
  // The loop invariant of the traversal, in parts
  // ---------------------------------------------------------------------------

  /** Discovered = yielded + queued, the two apart, each vertex queued once. */
  ghost predicate Frontier(g: Graph, depth: map<nat, nat>, visited: set<nat>, queue: seq<nat>)
  {
    && depth.Keys <= g.Keys
    && depth.Keys == visited + Elems(queue)
    && visited !! Elems(queue)
    && Distinct(queue)
  }

  /** The depth recorded for `t` is its shortest hop distance from `s`. */
  ghost predicate DepthIsDistance(g: Graph, s: nat, depth: map<nat, nat>, t: nat)
    requires t in depth
  {
    IsDistance(g, s, t, depth[t])
  }

  /** Every discovered depth is the shortest hop distance from `s`. */
  ghost predicate Exact(g: Graph, s: nat, depth: map<nat, nat>)
  {
    && s in depth
    && forall t {:trigger DepthIsDistance(g, s, depth, t)} :: t in depth ==> DepthIsDistance(g, s, depth, t)
  }

  /** Every out-neighbour of a yielded vertex has been discovered. */
  ghost predicate Closed(g: Graph, depth: map<nat, nat>, visited: set<nat>)
  {
    forall u, w :: u in visited && w in Succ(g, u) ==> w in depth
  }

  /**
   Depths along the queue never decrease and span at most one level, and no
   yielded vertex is deeper than a queued one.
   */
  ghost predicate LevelOrder(depth: map<nat, nat>, visited: set<nat>, queue: seq<nat>)
    requires Elems(queue) <= depth.Keys && visited <= depth.Keys
  {
    && (forall i, j :: 0 <= i <= j < |queue| ==> depth[queue[i]] <= depth[queue[j]] <= depth[queue[i]] + 1)
    && (forall v, i :: v in visited && 0 <= i < |queue| ==> depth[v] <= depth[queue[i]])
  }

  /** The yield order: every yielded vertex once, in non-decreasing depth. */
  ghost predicate YieldOrder(depth: map<nat, nat>, visited: set<nat>, order: seq<nat>)
    requires visited <= depth.Keys
  {
    && Elems(order) == visited
    && Distinct(order)
    && forall i, j :: 0 <= i <= j < |order| ==> depth[order[i]] <= depth[order[j]]
  }

  ghost predicate Inv(g: Graph, s: nat, depth: map<nat, nat>, visited: set<nat>, queue: seq<nat>,
                      sum: nat, order: seq<nat>)
  {
    && Frontier(g, depth, visited, queue)
    && Exact(g, s, depth)
    && Closed(g, depth, visited)
    && LevelOrder(depth, visited, queue)
    && YieldOrder(depth, visited, order)
    && sum == Sum(depth, visited)
  }

  /** No queued vertex is shallower than the head of the queue. */
  ghost predicate HeadIsShallowest(depth: map<nat, nat>, queue: seq<nat>)
    requires Elems(queue) <= depth.Keys && queue != []
  {
    forall v :: v in Elems(queue) ==> depth[queue[0]] <= depth[v]
  }

  lemma HeadShallowest(depth: map<nat, nat>, visited: set<nat>, queue: seq<nat>)
    requires Elems(queue) <= depth.Keys && visited <= depth.Keys && queue != []
    requires LevelOrder(depth, visited, queue)
    ensures HeadIsShallowest(depth, queue)
  {
    forall v | v in Elems(queue) ensures depth[queue[0]] <= depth[v] {
      var i :| 0 <= i < |queue| && queue[i] == v;
      assert depth[queue[0]] <= depth[queue[i]];
    }
  }

  /**
   While the head of the queue is at depth `d`, every vertex within `d` hops
   of the source has already been discovered.
   */
  lemma {:induction false} LevelsDiscovered(g: Graph, s: nat, depth: map<nat, nat>, visited: set<nat>,
                                            queue: seq<nat>, k: nat)
    requires depth.Keys == visited + Elems(queue) && queue != []
    requires Exact(g, s, depth) && Closed(g, depth, visited)
    requires HeadIsShallowest(depth, queue)
    requires k <= depth[queue[0]]
    ensures Within(g, s, k) <= depth.Keys
    decreases k
  {
    if k > 0 {
      LevelsDiscovered(g, s, depth, visited, queue, k - 1);
      ShallowIsYielded(g, s, depth, visited, queue, k - 1);
      StepOfYielded(g, depth, visited, Within(g, s, k - 1));
    }
  }

  /** The vertices discovered closer to the source than the head of the queue have all been yielded. */
  lemma ShallowIsYielded(g: Graph, s: nat, depth: map<nat, nat>, visited: set<nat>,
                         queue: seq<nat>, k: nat)
    requires depth.Keys == visited + Elems(queue) && queue != []
    requires Exact(g, s, depth) && HeadIsShallowest(depth, queue)
    requires Within(g, s, k) <= depth.Keys && k < depth[queue[0]]
    ensures Within(g, s, k) <= visited
  {
    forall u | u in Within(g, s, k) ensures u in visited {
      assert DepthIsDistance(g, s, depth, u);
      DistanceIsLeast(g, s, u, depth[u], k);
    }
  }

  /** One arc from yielded vertices leads to discovered vertices. */
  lemma StepOfYielded(g: Graph, depth: map<nat, nat>, visited: set<nat>, P: set<nat>)
    requires P <= visited && Closed(g, depth, visited)
    ensures Step(g, P) <= depth.Keys
  {
  }

  /** A discovered set that holds the source and is closed under arcs holds everything within reach. */
  lemma {:induction false} ClosedHoldsWithin(g: Graph, s: nat, depth: map<nat, nat>, k: nat)
    requires s in depth && Closed(g, depth, depth.Keys)
    ensures Within(g, s, k) <= depth.Keys
    decreases k
  {
    if k > 0 {
      ClosedHoldsWithin(g, s, depth, k - 1);
    }
  }

  /** The start state: only the source is discovered, at depth 0, and it is queued. */
  lemma InitInv(g: Graph, s: nat)
    requires s in g
    ensures Inv(g, s, map[s := 0], {}, [s], 0, [])
  {
    assert Elems([s]) == {s};
  }

  /** One loop iteration (yield the head, discover its neighbours) keeps the invariant. */
  lemma PopPreserves(g: Graph, s: nat, depth: map<nat, nat>, visited: set<nat>, queue: seq<nat>,
                     sum: nat, order: seq<nat>, depth': map<nat, nat>, queue': seq<nat>,
                     visited': set<nat>, sum': nat, order': seq<nat>)
    requires WellFormed(g)
    requires Inv(g, s, depth, visited, queue, sum, order) && queue != []
    requires queue[0] in depth
    requires visited' == visited + {queue[0]} && sum' == sum + depth[queue[0]] && order' == order + [queue[0]]
    requires var u, rest := queue[0], queue[1..];
      && depth'.Keys == depth.Keys + Succ(g, u)
      && (forall t :: t in depth ==> depth'[t] == depth[t])
      && (forall t :: t in depth' && t !in depth ==> depth'[t] == depth[u] + 1)
      && |rest| <= |queue'| && queue'[..|rest|] == rest
      && Elems(queue'[|rest|..]) == Succ(g, u) - depth.Keys
      && Distinct(queue'[|rest|..])
    ensures Inv(g, s, depth', visited', queue', sum', order')
  {
    var u, rest := queue[0], queue[1..];
    var d := depth[u];
    var news := queue'[|rest|..];
    PopShape(queue, queue');
    HeadShallowest(depth, visited, queue);
    LevelsDiscovered(g, s, depth, visited, queue, d);
    FrontierStep(g, depth, visited, queue, depth', queue', u, rest, news);
    ExactStep(g, s, depth, depth', u, d);
    LevelOrderStep(depth, visited, queue, depth', queue', u, rest, news);
    YieldStep(depth, visited, queue, order, depth', u);
    SumAdd(depth', visited, u);
    SumAgree(depth, depth', visited);
  }

  /** Popping the head and appending the new vertices, as sequences and as sets. */
  lemma PopShape(queue: seq<nat>, queue': seq<nat>)
    requires queue != [] && Distinct(queue)
    requires |queue[1..]| <= |queue'| && queue'[..|queue[1..]|] == queue[1..]
    ensures queue == [queue[0]] + queue[1..] && queue' == queue[1..] + queue'[|queue[1..]|..]
    ensures Elems(queue) == {queue[0]} + Elems(queue[1..]) && queue[0] !in Elems(queue[1..])
    ensures Elems(queue') == Elems(queue[1..]) + Elems(queue'[|queue[1..]|..])
  {
    var u, rest := queue[0], queue[1..];
    var news := queue'[|rest|..];
    assert queue' == rest + news;
    assert queue == [u] + rest;
    ElemsAppend([u], rest);
    assert Elems([u]) == {u};
    ElemsAppend(rest, news);
  }

  lemma FrontierStep(g: Graph, depth: map<nat, nat>, visited: set<nat>, queue: seq<nat>,
                     depth': map<nat, nat>, queue': seq<nat>, u: nat, rest: seq<nat>, news: seq<nat>)
    requires WellFormed(g)
    requires Frontier(g, depth, visited, queue) && Closed(g, depth, visited)
    requires queue == [u] + rest && queue' == rest + news
    requires Elems(queue) == {u} + Elems(rest) && u !in Elems(rest)
    requires Elems(queue') == Elems(rest) + Elems(news)
    requires depth'.Keys == depth.Keys + Succ(g, u)
    requires Elems(news) == Succ(g, u) - depth.Keys && Distinct(news)
    ensures Frontier(g, depth', visited + {u}, queue')
    ensures Closed(g, depth', visited + {u})
  {
    forall i, j | 0 <= i < j < |queue'| ensures queue'[i] != queue'[j] {
      if j < |rest| {
        assert queue'[i] == queue[i + 1] && queue'[j] == queue[j + 1];
      } else if i >= |rest| {
        assert queue'[i] == news[i - |rest|] && queue'[j] == news[j - |rest|];
      } else {
        assert queue'[i] in Elems(rest) && queue'[j] in Elems(news);
      }
    }
  }

  /** An undiscovered out-neighbour of a vertex at distance `d` is at distance `d + 1`. */
  lemma NextLevel(g: Graph, s: nat, u: nat, d: nat, t: nat)
    requires IsDistance(g, s, u, d) && t in Succ(g, u) && t !in Within(g, s, d)
    ensures IsDistance(g, s, t, d + 1)
  {
    assert t in Step(g, Within(g, s, d));
  }

  lemma ExactStep(g: Graph, s: nat, depth: map<nat, nat>, depth': map<nat, nat>, u: nat, d: nat)
    requires Exact(g, s, depth) && u in depth && depth[u] == d
    requires Within(g, s, d) <= depth.Keys
    requires depth'.Keys == depth.Keys + Succ(g, u)
    requires forall t :: t in depth ==> depth'[t] == depth[t]
    requires forall t :: t in depth' && t !in depth ==> depth'[t] == d + 1
    ensures Exact(g, s, depth')
  {
    ExactKept(g, s, depth, depth');
    ExactNew(g, s, depth, depth', u, d);
  }

  lemma ExactKept(g: Graph, s: nat, depth: map<nat, nat>, depth': map<nat, nat>)
    requires Exact(g, s, depth)
    requires depth.Keys <= depth'.Keys
    requires forall t :: t in depth ==> depth'[t] == depth[t]
    ensures forall t :: t in depth ==> DepthIsDistance(g, s, depth', t)
  {
    forall t | t in depth ensures DepthIsDistance(g, s, depth', t) {
      assert DepthIsDistance(g, s, depth, t);
    }
  }

  lemma ExactNew(g: Graph, s: nat, depth: map<nat, nat>, depth': map<nat, nat>, u: nat, d: nat)
    requires Exact(g, s, depth) && u in depth && depth[u] == d
    requires Within(g, s, d) <= depth.Keys
    requires depth'.Keys == depth.Keys + Succ(g, u)
    requires forall t :: t in depth' && t !in depth ==> depth'[t] == d + 1
    ensures forall t :: t in depth' && t !in depth ==> DepthIsDistance(g, s, depth', t)
  {
    assert DepthIsDistance(g, s, depth, u);
    forall t | t in depth' && t !in depth ensures DepthIsDistance(g, s, depth', t) {
      NextLevel(g, s, u, d, t);
    }
  }

  lemma LevelOrderStep(depth: map<nat, nat>, visited: set<nat>, queue: seq<nat>,
                       depth': map<nat, nat>, queue': seq<nat>, u: nat, rest: seq<nat>, news: seq<nat>)
    requires Elems(queue) <= depth.Keys && visited <= depth.Keys
    requires LevelOrder(depth, visited, queue)
    requires queue == [u] + rest && queue' == rest + news
    requires Elems(queue') <= depth'.Keys && visited + {u} <= depth'.Keys
    requires depth.Keys <= depth'.Keys
    requires forall t :: t in depth ==> depth'[t] == depth[t]
    requires forall t :: t in Elems(news) ==> t !in depth && depth'[t] == depth[u] + 1
    ensures LevelOrder(depth', visited + {u}, queue')
  {
    var d := depth[u];
    forall i | 0 <= i < |queue'| ensures d <= depth'[queue'[i]] <= d + 1 {
      if i < |rest| {
        assert queue'[i] == queue[i + 1];
        assert depth[queue[0]] <= depth[queue[i + 1]] <= depth[queue[0]] + 1;
      } else {
        assert queue'[i] == news[i - |rest|];
        assert queue'[i] in Elems(news);
      }
    }
    forall i, j | 0 <= i <= j < |queue'|
      ensures depth'[queue'[i]] <= depth'[queue'[j]] <= depth'[queue'[i]] + 1
    {
      if j < |rest| {
        assert queue'[i] == queue[i + 1] && queue'[j] == queue[j + 1];
      } else if i >= |rest| {
        assert queue'[i] == news[i - |rest|] && queue'[j] == news[j - |rest|];
        assert queue'[i] in Elems(news) && queue'[j] in Elems(news);
      } else {
        assert queue'[j] == news[j - |rest|];
        assert queue'[j] in Elems(news);
      }
    }
    forall v, i | v in visited + {u} && 0 <= i < |queue'| ensures depth'[v] <= depth'[queue'[i]] {
      if v in visited {
        assert depth[v] <= depth[queue[0]];
      }
    }
  }

  lemma YieldStep(depth: map<nat, nat>, visited: set<nat>, queue: seq<nat>, order: seq<nat>,
                  depth': map<nat, nat>, u: nat)
    requires visited <= depth.Keys && Elems(queue) <= depth.Keys
    requires YieldOrder(depth, visited, order) && LevelOrder(depth, visited, queue)
    requires queue != [] && queue[0] == u && u !in visited
    requires visited + {u} <= depth'.Keys
    requires depth.Keys <= depth'.Keys
    requires forall t :: t in depth ==> depth'[t] == depth[t]
    ensures YieldOrder(depth', visited + {u}, order + [u])
  {
    var order' := order + [u];
    ElemsAppend(order, [u]);
    assert Elems([u]) == {u};
    forall i, j | 0 <= i <= j < |order'| ensures depth'[order'[i]] <= depth'[order'[j]] {
      if j < |order| {
        assert order'[i] == order[i] && order'[j] == order[j];
      } else if i < |order| {
        assert order'[i] == order[i] && order[i] in visited;
        assert depth[order[i]] <= depth[queue[0]];
      }
    }
    forall i, j | 0 <= i < j < |order'| ensures order'[i] != order'[j] {
      if j < |order| {
        assert order'[i] == order[i] && order'[j] == order[j];
      } else {
        assert order'[i] == order[i] && order[i] in visited;
      }
    }
  }

  // ---------------------------------------------------------------------------
  // The traversal
  // ---------------------------------------------------------------------------

  /**
   A breadth-first traversal from `s` over outgoing arcs. It yields exactly
   the vertices that `s` reaches, each once and in non-decreasing depth; each
   depth is the shortest hop distance from `s`; and `sum` is the sum of those
   depths.
   */
  method Traverse(g: Graph, s: nat)
    returns (sum: nat, visited: set<nat>, depth: map<nat, nat>, ghost order: seq<nat>)
    requires WellFormed(g) && s in g
    ensures depth == ShortestDistances(g, s)
    ensures visited == depth.Keys
    ensures forall t :: t in visited <==> Reaches(g, s, t)
    ensures s in visited && depth[s] == 0
    ensures sum == Sum(depth, visited)
    ensures YieldOrder(depth, visited, order)
  {
    depth := map[s := 0];
    var queue := [s];
    visited := {};
    sum := 0;
    order := [];
    InitInv(g, s);
    while queue != []
      invariant Inv(g, s, depth, visited, queue, sum, order)
      decreases |g.Keys - visited|
    {
      var u := queue[0];
      ghost var depth0, visited0, queue0, sum0, order0 := depth, visited, queue, sum, order;
      HeadUnvisited(g, s, depth, visited, queue, sum, order);
      if u !in visited {
        sum := sum + depth[u];
        visited := visited + {u};
        order := order + [u];
      }
      depth, queue := Discover(g, u, depth[u], depth, queue[1..]);
      PopPreserves(g, s, depth0, visited0, queue0, sum0, order0, depth, queue, visited, sum, order);
      FewerUnvisited(g.Keys, visited0, u);
    }
    Finish(g, s, depth, visited, queue, sum, order);
  }

  lemma HeadUnvisited(g: Graph, s: nat, depth: map<nat, nat>, visited: set<nat>, queue: seq<nat>,
                      sum: nat, order: seq<nat>)
    requires Inv(g, s, depth, visited, queue, sum, order) && queue != []
    ensures queue[0] in depth && queue[0] !in visited
  {
    assert queue[0] in Elems(queue);
  }

  lemma FewerUnvisited(A: set<nat>, V: set<nat>, u: nat)
    requires u in A && u !in V
    ensures |A - (V + {u})| < |A - V|
  {
    assert A - V == (A - (V + {u})) + {u};
  }

  /** When the queue is empty, the discovered depths are exactly the shortest distances. */
  lemma Finish(g: Graph, s: nat, depth: map<nat, nat>, visited: set<nat>, queue: seq<nat>,
               sum: nat, order: seq<nat>)
    requires WellFormed(g) && s in g
    requires Inv(g, s, depth, visited, queue, sum, order) && queue == []
    ensures visited == depth.Keys
    ensures forall t :: t in depth <==> Reaches(g, s, t)
    ensures depth == ShortestDistances(g, s)
    ensures s in visited && depth[s] == 0
  {
    assert Elems(queue) == {};
    assert DepthIsDistance(g, s, depth, s);
    DistanceUnique(g, s, s, depth[s], 0);
    forall t ensures t in depth <==> Reaches(g, s, t) {
      if t in depth {
        assert DepthIsDistance(g, s, depth, t);
      }
      if Reaches(g, s, t) {
        var k: nat :| t in Within(g, s, k);
        ClosedHoldsWithin(g, s, depth, k);
      }
    }
    forall t | t in depth ensures IsDistance(g, s, t, depth[t]) {
      assert DepthIsDistance(g, s, depth, t);
    }
    ShortestDistancesUnique(g, s, depth);
  }
}
