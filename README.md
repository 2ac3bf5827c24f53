# Average distance over a directed edge list

This project models the small Rust program in `main.rs`. The program reads a
text file of directed edges, one `source target` pair of non-negative integer
ids per line. It builds a directed graph from the edges. Then it runs one
breadth-first traversal from every vertex and reports the average shortest
hop distance, taken over every ordered pair `(s, t)`, `s != t`, in which `t`
is reachable from `s`. With no such pair, it reports 0.

The model has five parts:

- `EdgeParser` (`parser.dfy`) models `read_data`:
  - `str::split_whitespace` is modelled on Unicode White_Space.
  - `str::parse::<usize>` accepts an optional `+`, then one or more ASCII
    digits, for a value of at most `usize::MAX` on a 64-bit target.
  - A line becomes an edge only when it has exactly two tokens and both
    parse. Every other line is skipped.
- `GraphBuilder` (`graph.dfy`) models `build_graph`. The edge list is folded
  into a `map` from vertex id to its set of out-neighbours.
- `Reachability` (`reach.dfy`) specifies reachability and shortest hop
  distance through level sets. It also proves these equivalent to walks.
- `Traversal` (`bfs.dfy`) is one breadth-first traversal, written as a
  queue loop. It is proved to yield exactly the reachable vertices, each
  once and in non-decreasing depth. Each depth is the shortest distance.
- `Aggregator` (`average.dfy`) is the outer loop of `average_distance` and
  the division at its end. `Analyze` is `main` without the file and the
  console.

Two modules support the others. `SetSum` (`sum.dfy`) holds order-independent
sums over sets. `PathExample` (`pathgraph.dfy`) works out the path
1 -> ... -> n in closed form and the test graph of `test_average_distance`.

`main.rs` as written does not compile:

- The loop body of `read_data` splits `line` rather than `current_line`, and
  it pushes two values instead of one edge.
- `build_graph` declares `node_indices` but inserts into `nodes_set`, and it
  calls `add_edge` with an integer where a node index belongs.
- `read_edge_list` does not exist.
- `average_distance` returns the integer `0` from an `f32` function.
- petgraph's `Bfs` has no `depth` method.

The model follows the evident intent of each function:

- In `read_data`, the pair of parsed numbers becomes one edge, and a line
  that does not parse is skipped.
- In `build_graph`, each raw id denotes one vertex: adding a vertex that
  already exists changes nothing.
- In `average_distance`, the depth of a yielded vertex is its breadth-first
  discovery depth.

## Model

| member | source | states |
|---|---|---|
| EdgeParser.Tokens | main.rs:18 | every token is a non-empty run of non-whitespace characters |
| EdgeParser.TokensSkipSpace | main.rs:18 | leading whitespace does not change the tokens |
| EdgeParser.TokensWord | main.rs:18 | a word followed by whitespace or by the end is the next token |
| EdgeParser.ParseUsize | main.rs:20-21 | an accepted token is a word, and its value is at most `usize::MAX` |
| EdgeParser.NumeralRoundTrip | main.rs:20-21 | parsing the decimal numeral of any `usize` value, with or without `+`, gives that value back |
| EdgeParser.ZerosValue | main.rs:20-21 | leading zeros do not change the value of a digit string |
| EdgeParser.DigitsAreZerosThenNumeral | main.rs:20-21 | every non-empty digit string is zeros followed by the shortest numeral of its value |
| EdgeParser.ParseUsizeExact | main.rs:20-21 | a token parses to `n` if and only if `n` is at most `usize::MAX` and the token, past its optional `+`, is zeros followed by the numeral of `n` |
| EdgeParser.LeadingZerosAccepted | main.rs:20-21 | a numeral with any number of leading zeros, with or without `+`, parses to its value (`007` gives 7) |
| EdgeParser.OverflowRejected | main.rs:20-21 | every numeral above `usize::MAX`, with or without `+`, is rejected rather than wrapped |
| EdgeParser.NoDigitsRejected | main.rs:20-21 | a lone `+` and the empty token are rejected |
| EdgeParser.NonDigitRejected | main.rs:20-21 | a token with a non-digit character after the optional `+` is rejected |
| EdgeParser.TwoTokenShape | main.rs:18-19 | a two-token line is whitespace, its first token, some whitespace, its second token, whitespace |
| EdgeParser.TwoTokens | main.rs:18-19 | two words with whitespace between them, and any whitespace around them, split into exactly those two tokens |
| EdgeParser.ParseLine | main.rs:18-22 | a line's edge has both ids at most `usize::MAX` |
| EdgeParser.ParseLineLayout | main.rs:18-22 | a line gives edge `(a, b)` if and only if it is optional whitespace, a token that parses to `a`, some whitespace, a token that parses to `b`, and optional whitespace |
| EdgeParser.LayoutGivesEdge | main.rs:18-22 | any two tokens that parse, separated by whitespace and with any whitespace around them, give their edge |
| EdgeParser.ParseFormattedLine | main.rs:18-22 | two numerals separated by whitespace, with any whitespace around them, give their edge |
| EdgeParser.BlankLineSkipped | main.rs:19 | an empty or all-whitespace line gives no edge |
| EdgeParser.OneTokenLineSkipped | main.rs:19 | every line holding a single token gives no edge |
| EdgeParser.ThreeTokenLineSkipped | main.rs:19 | every line holding three tokens gives no edge |
| EdgeParser.NonNumericLineSkipped | main.rs:19-22 | every two-token line in which either token has a non-digit character after its optional `+` gives no edge |
| EdgeParser.NegativeLineSkipped | main.rs:19-22 | every two-token line in which either token starts with `-` gives no edge |
| EdgeParser.ReadData | main.rs:10-27 | the loop returns the edges of all lines, in line order |
| EdgeParser.ParseEdgesAppend | main.rs:16-24 | the edges of two blocks of lines are the edges of the first, then those of the second; a bad line never ends the parse |
| EdgeParser.SkippedLineAddsNothing | main.rs:19-23 | a line that gives no edge can be removed from anywhere in the input without changing the result |
| EdgeParser.ParseEdgesMember | main.rs:16-24 | an edge is in the output exactly when some line parses to it |
| EdgeParser.MemberSound | main.rs:16-24 | every output edge comes from some line |
| EdgeParser.MemberComplete | main.rs:16-24 | the edge of every well-formed line is in the output |
| EdgeParser.SplitAtLine | main.rs:16-24 | the output is the edges before a line, then that line's edge, then the edges after it |
| EdgeParser.KeepsLineOrder | main.rs:16-24 | the edges of two lines appear in the output in the order of the lines |
| GraphBuilder.AddEdge | main.rs:33-40 | both endpoints become vertices, `b` joins the out-neighbours of `a`, and no other vertex changes |
| GraphBuilder.BuildGraph | main.rs:29-44 | the loop builds the fold of the edges; its vertices are the endpoints, and it has arc `a -> b` exactly when `(a, b)` is an edge |
| GraphBuilder.BuildExact | main.rs:29-44 | the vertices are exactly the endpoints, and the arcs are exactly the edges |
| GraphBuilder.BuildWellFormed | main.rs:33-40 | every out-neighbour is itself a vertex |
| GraphBuilder.SameEdgesSameGraph | main.rs:33-40 | two edge lists with the same edges, in any order and with any repeats, build the same graph |
| GraphBuilder.DuplicateEdgesIdempotent | main.rs:40 | repeating an edge, or the whole list, leaves the graph unchanged |
| GraphBuilder.OneWay | main.rs:40 | edge `(a, b)` adds no arc `b -> a` |
| Reachability.WithinMonotone | main.rs:51-58 | more hops never reach fewer vertices |
| Reachability.DistanceIsLeast | main.rs:51-58 | a distance is the least number of hops that reaches the vertex |
| Reachability.DistanceUnique | main.rs:51-58 | a vertex has at most one distance |
| Reachability.HasDistance | main.rs:51-58 | a vertex within `k` hops has a distance of at most `k` |
| Reachability.SourceAtZero | main.rs:51 | the source is at distance 0 |
| Reachability.NeighbourAtOne | main.rs:51-58 | a direct out-neighbour other than the source is at distance 1 |
| Reachability.ReachesInGraph | main.rs:51-58 | from a vertex, only vertices are reached |
| Reachability.ShortestDistances | main.rs:51-58 | the map holds exactly the reachable vertices, each with its shortest distance |
| Reachability.ShortestDistancesUnique | main.rs:51-58 | any map with those two properties is `ShortestDistances` |
| Reachability.SameLevelsSameDistances | main.rs:51-58 | two graphs with the same level sets from `s` give the same distances from `s` |
| Reachability.WalkOfWithin | main.rs:51-58 | a vertex within `k` hops ends a walk of at most `k` arcs from the source |
| Reachability.WithinOfWalk | main.rs:51-58 | the end of a walk of at most `k` arcs is within `k` hops |
| Reachability.DistanceIsShortestWalk | main.rs:51-58 | `d` is the distance exactly when some walk has `d` arcs and no walk has fewer |
| Traversal.Discover | main.rs:54 | every undiscovered out-neighbour of the yielded vertex gets depth `d + 1` and joins the back of the queue, once; old depths are kept |
| Traversal.Traverse | main.rs:51-59 | yields exactly the reachable vertices, each once and in non-decreasing depth; each depth is the shortest distance; the sum is the sum of those depths |
| Traversal.PopPreserves | main.rs:54-58 | one iteration (yield the head, discover its neighbours) keeps the traversal invariant |
| Traversal.LevelsDiscovered | main.rs:54-58 | while the head of the queue is at depth `d`, every vertex within `d` hops has been discovered |
| Traversal.Finish | main.rs:54-59 | with the queue empty, the depths are exactly the shortest distances |
| Aggregator.Reached | main.rs:52-58 | the set reached from `s` holds `s`, only vertices, and exactly the reachable ids |
| Aggregator.SourcePairs | main.rs:61 | the pairs from `s` are the reached vertices other than `s` |
| Aggregator.OneSource | main.rs:56-61 | one traversal visits at least one vertex, so `visited.len() - 1` cannot underflow, and both counters stay exact |
| Aggregator.AverageDistance | main.rs:46-69 | the loop over all sources returns the total distance, the pair count, and their average |
| Aggregator.Average | main.rs:64-68 | 0 without pairs, and otherwise the value that, times the pair count, gives the total |
| Aggregator.Analyze | main.rs:74-78 | parse, build and average: the result is the average of the graph built from the parsed edges |
| Aggregator.SourceDistances | main.rs:56 | the source is at depth 0 and every other reached vertex at depth 1 or more |
| Aggregator.SourceTotalOverOthers | main.rs:56-61 | a source's total is the sum over the other vertices it reaches, and it is at least its pair count |
| Aggregator.PairsAtMostTotal | main.rs:56-61 | the pair count never exceeds the total distance |
| Aggregator.AverageAtLeastOne | main.rs:64-65 | with at least one pair, the average is at least 1 |
| Aggregator.ZeroExactlyWithoutArcs | main.rs:61-68 | no pairs, a total of 0, and an average of 0 all hold exactly when every arc is a self-loop |
| Aggregator.NoPairsWithoutArcs | main.rs:61-68 | a graph whose only arcs are self-loops has no pairs and a total of 0 |
| Aggregator.ArcGivesPair | main.rs:56-61 | an arc between two distinct vertices gives at least one pair and a total of at least 1 |
| Aggregator.EmptyInputGivesZero | main.rs:66-68 | no edges gives the empty graph and an average of 0 |
| Aggregator.SingleSelfLoopGivesZero | main.rs:66-68 | the single edge `(1, 1)` gives one vertex and an average of 0 |
| Aggregator.SelfLoopWithin | main.rs:40 | adding a self-loop to a vertex changes no level set |
| Aggregator.SelfLoopAddsNothing | main.rs:40 | adding a self-loop to a vertex changes neither counter |
| Aggregator.FreshSelfLoopWithin | main.rs:33-40 | a self-loop on an id the graph does not hold changes no level set from an old vertex |
| Aggregator.FreshSelfLoopAddsNothing | main.rs:33-40 | a self-loop on an id the graph does not hold adds an isolated vertex and changes neither counter |
| Aggregator.SelfLoopEdgeAddsNothing | main.rs:33-40 | appending any self-loop to the edge list, on a known id or a new one, changes neither counter |
| Aggregator.RepeatedEdgeAddsNothing | main.rs:33-40 | appending an edge already in the list changes neither counter |
| PathExample.PathArcs | main.rs:85-86 | on the path 1 -> ... -> n, every vertex below `n` has the single out-neighbour that follows it, and `n` has none |
| PathExample.PathDistances | main.rs:51-58 | on the path 1 -> ... -> n, vertex `s` reaches exactly `s..n`, each `t` at distance `t - s` |
| PathExample.PathSource | main.rs:56-61 | from `s` the path contributes `Tri(n - s)` to the total and `n - s` pairs |
| PathExample.PathTotal | main.rs:46-62 | on the path the total distance is `Tet(n - 1)` |
| PathExample.PathPairs | main.rs:46-62 | on the path the pair count is `Tri(n - 1)` |
| PathExample.PathCountersClosedForm | main.rs:46-62 | the total is (n - 1) n (n + 1) / 6 and the pair count is (n - 1) n / 2 |
| PathExample.TestGraphIsPath | main.rs:85-86 | the four test edges build the path on 1..5 |
| PathExample.TestAverageDistance | main.rs:83-88 | the test graph has total distance 20 over 10 pairs, an average of 2.0 |

## Left out

- File I/O: the input arrives as a sequence of lines. Opening the file and read errors (`File::open(..)?` and `line?`) are not modelled.
- `main`'s file name and its `println!` output are not modelled. `Analyze` covers the parse, build and average.
- Aggregator.Average: the result is an exact `real`, not an `f32`, so rounding of the division is not modelled.
- AverageDistance: `total` and `pairs` are unbounded, so `usize` overflow on huge inputs is not modelled.
- petgraph's `DiGraph` is not modelled. The graph is a map from raw ids to out-neighbour sets, so node indices, the extra nodes that repeated `add_node` calls would create, and the `i32`/`usize` conversions are not modelled.
- petgraph's `Bfs` internals are not modelled. `Traverse` is a standard queue traversal that records discovery depths, and its neighbour order is arbitrary.
- The order of sources in `average_distance`, and of neighbours within `Discover`, is left unspecified: the model picks any remaining element. The results do not depend on the order.
- The `visited` check in the traversal is kept as in the source. A traversal never yields a vertex twice, so that check is always true.
- Concurrency is not modelled: the program is single-threaded.
