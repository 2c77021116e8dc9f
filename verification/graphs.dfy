/**
 * The undirected network graph of the reliability simulation: nodes 1..V,
 * edges carrying a capacity attribute `c`. A graph is listed as the sequence
 * of its edges in iteration order; shortest paths and connectivity are taken
 * from an oracle whose contract is stated here.
 */
module Graphs {
  import opened Traffic

  /** The undirected edge u - v with its capacity `c` (bits per second). */
  datatype Link = Link(u: int, v: int, c: real)

  /** The node pairs of a graph, in edge order: all that routing and connectivity look at. */
  type Topology = seq<(int, int)>

  function Ends(links: seq<Link>): (t: Topology)
    ensures |t| == |links|
    ensures forall k | 0 <= k < |links| :: t[k] == (links[k].u, links[k].v)
  {
    seq(|links|, k requires 0 <= k < |links| => (links[k].u, links[k].v))
  }

  /** Link l is the edge between u and v, in either direction. */
  predicate Joins(l: Link, u: int, v: int) {
    (l.u == u && l.v == v) || (l.u == v && l.v == u)
  }

  /** `graph.has_edge(u, v)`. */
  predicate HasEdge(links: seq<Link>, u: int, v: int)
    decreases |links|
  {
    |links| > 0 && (Joins(links[0], u, v) || HasEdge(links[1..], u, v))
  }

  /** `graph[u][v]['c']`. */
  function Capacity(links: seq<Link>, u: int, v: int): real
    requires HasEdge(links, u, v)
    decreases |links|
  {
    if Joins(links[0], u, v) then links[0].c else Capacity(links[1..], u, v)
  }

  lemma {:induction false} MemberHasEdge(links: seq<Link>, l: Link)
    requires l in links
    ensures HasEdge(links, l.u, l.v)
    decreases |links|
  {
    if links[0] != l {
      MemberHasEdge(links[1..], l);
    }
  }

  /** A simple graph on the nodes 1..V: no self-loop and at most one edge per node pair. */
  ghost predicate SimpleGraph(links: seq<Link>) {
    (forall k | 0 <= k < |links| :: InNodes(links[k].u) && InNodes(links[k].v) && links[k].u != links[k].v) &&
    (forall a, b | 0 <= a < b < |links| :: !Joins(links[b], links[a].u, links[a].v))
  }

  /** In a simple graph `graph[u][v]['c']` of an edge's ends is that edge's capacity. */
  lemma {:induction false} CapacityOfLink(links: seq<Link>, k: nat)
    requires SimpleGraph(links) && k < |links|
    ensures HasEdge(links, links[k].u, links[k].v)
    ensures Capacity(links, links[k].u, links[k].v) == links[k].c
    decreases |links|
  {
    if k > 0 {
      var tail := links[1..];
      assert !Joins(links[k], links[0].u, links[0].v);
      assert SimpleGraph(tail) by {
        forall a, b | 0 <= a < b < |tail|
          ensures !Joins(tail[b], tail[a].u, tail[a].v)
        {
          assert tail[b] == links[b + 1] && tail[a] == links[a + 1];
        }
      }
      CapacityOfLink(tail, k - 1);
    }
  }

  /** A networkx graph object: its edges are updated in place. */
  class Graph {
    var links: seq<Link>

    constructor (links: seq<Link>)
      ensures this.links == links
    {
      this.links := links;
    }

    /** `graph.copy()`. */
    method Copy() returns (g: Graph)
      ensures fresh(g)
      ensures g.links == links
    {
      g := new Graph(links);
    }
  }

  // ---------------------------------------------------------------------
  // Shortest paths and connectivity

  ghost predicate Adjacent(t: Topology, a: int, b: int) {
    exists k | 0 <= k < |t| :: t[k] == (a, b) || t[k] == (b, a)
  }

  /** p walks from i to j over edges of t. */
  ghost predicate IsPath(t: Topology, i: int, j: int, p: Route) {
    |p| > 0 && p[0] == i && p[|p| - 1] == j && OnNodes(p) &&
    forall k | 0 <= k < Hops(p) :: Adjacent(t, p[k], p[k + 1])
  }

  /** No path of t from i to j has fewer hops than p. */
  ghost predicate Fewest(t: Topology, i: int, j: int, p: Route) {
    forall q | IsPath(t, i, j, q) :: |p| <= |q|
  }

  /** r holds, for every ordered pair of distinct nodes, a path of t with the fewest hops. */
  ghost predicate ValidRoutes(t: Topology, r: Routes) {
    Complete(r) &&
    forall i, j | InNodes(i) && InNodes(j) && i != j :: IsPath(t, i, j, r[(i, j)]) && Fewest(t, i, j, r[(i, j)])
  }

  /** `nx.is_connected` and `nx.all_pairs_dijkstra_path`. No edge carries a
    * `weight`, so every hop weighs 1 and the paths are fewest-hop paths. */
  datatype Oracle = Oracle(connected: Topology -> bool, paths: Topology -> Routes)

  /** A topology is connected exactly when fewest-hop routes exist for all
    * pairs, and then `paths` returns such routes (ties broken in any way). */
  ghost predicate Sound(o: Oracle) {
    (forall t :: o.connected(t) ==> ValidRoutes(t, o.paths(t))) &&
    (forall t, r :: ValidRoutes(t, r) ==> o.connected(t))
  }

  lemma RoutesOfConnected(o: Oracle, t: Topology)
    requires Sound(o) && o.connected(t)
    ensures Complete(o.paths(t))
  {
  }

  // ---------------------------------------------------------------------
  // Random edge removal

  /** The edges that `randomly_remove_edges` keeps: draws[k] belongs to links[k],
    * and an edge goes when its draw exceeds the probability. */
  function Survivors(links: seq<Link>, draws: seq<real>, p: real): (s: seq<Link>)
    requires |draws| == |links|
    ensures |s| <= |links|
  {
    if links == [] then []
    else
      var n := |links| - 1;
      Survivors(links[..n], draws[..n], p) + (if draws[n] > p then [] else [links[n]])
  }

  /** Removal only removes. */
  lemma {:induction false} SurvivorsWithin(links: seq<Link>, draws: seq<real>, p: real)
    requires |draws| == |links|
    ensures forall l | l in Survivors(links, draws, p) :: l in links
  {
    if links != [] {
      var n := |links| - 1;
      SurvivorsWithin(links[..n], draws[..n], p);
    }
  }

  lemma SurvivorsStep(links: seq<Link>, draws: seq<real>, p: real, k: nat)
    requires |draws| == |links| && k < |links|
    ensures Survivors(links[..k + 1], draws[..k + 1], p) ==
      Survivors(links[..k], draws[..k], p) + (if draws[k] > p then [] else [links[k]])
  {
    assert links[..k + 1][..k] == links[..k] && draws[..k + 1][..k] == draws[..k];
  }

  /** Exactly the edges whose draw exceeds the probability are removed. */
  lemma {:induction false} SurvivorsExact(links: seq<Link>, draws: seq<real>, p: real)
    requires |draws| == |links| && SimpleGraph(links)
    ensures forall k | 0 <= k < |links| :: links[k] in Survivors(links, draws, p) <==> draws[k] <= p
  {
    if links != [] {
      var n := |links| - 1;
      assert SimpleGraph(links[..n]);
      SurvivorsExact(links[..n], draws[..n], p);
      SurvivorsWithin(links[..n], draws[..n], p);
      forall k | 0 <= k < |links|
        ensures links[k] in Survivors(links, draws, p) <==> draws[k] <= p
      {
        if k < n {
          assert links[k] != links[n] by {
            assert !Joins(links[n], links[k].u, links[k].v);
          }
          assert links[..n][k] == links[k];
        } else {
          assert links[n] !in links[..n] by {
            forall a | 0 <= a < n ensures links[a] != links[n] {
              assert !Joins(links[n], links[a].u, links[a].v);
            }
          }
        }
      }
    }
  }

  /** With probability >= 1 and draws from [0, 1), no edge is removed. */
  lemma {:induction false} SurvivorsAll(links: seq<Link>, draws: seq<real>, p: real)
    requires |draws| == |links| && p >= 1.0
    requires forall k | 0 <= k < |draws| :: 0.0 <= draws[k] < 1.0
    ensures Survivors(links, draws, p) == links
  {
    if links != [] {
      var n := |links| - 1;
      SurvivorsAll(links[..n], draws[..n], p);
      assert links[..n] + [links[n]] == links;
    }
  }

  /** What remains of a simple graph is a simple graph. */
  lemma {:induction false} SurvivorsSimple(links: seq<Link>, draws: seq<real>, p: real)
    requires |draws| == |links| && SimpleGraph(links)
    ensures SimpleGraph(Survivors(links, draws, p))
  {
    if links != [] {
      var n := |links| - 1;
      assert SimpleGraph(links[..n]);
      SurvivorsSimple(links[..n], draws[..n], p);
      var s := Survivors(links[..n], draws[..n], p);
      if draws[n] <= p {
        SurvivorsWithin(links[..n], draws[..n], p);
        forall a | 0 <= a < |s| ensures !Joins(links[n], s[a].u, s[a].v) {
          assert s[a] in links[..n];
          var m :| 0 <= m < n && links[..n][m] == s[a];
          assert !Joins(links[n], links[m].u, links[m].v);
        }
        SimpleAppend(s, links[n]);
      }
    }
  }

  lemma SimpleAppend(links: seq<Link>, l: Link)
    requires SimpleGraph(links) && InNodes(l.u) && InNodes(l.v) && l.u != l.v
    requires forall a | 0 <= a < |links| :: !Joins(l, links[a].u, links[a].v)
    ensures SimpleGraph(links + [l])
  {
    var s := links + [l];
    forall a, b | 0 <= a < b < |s| ensures !Joins(s[b], s[a].u, s[a].v) {
      if b == |links| {
        assert !Joins(l, links[a].u, links[a].v);
      }
    }
  }

  // ---------------------------------------------------------------------
  // Capacities

  /** One edge's capacity raised by `pct` percent: `c += c * pct / 100`. */
  function Raised(l: Link, pct: real): (r: Link)
    ensures r.u == l.u && r.v == l.v
    ensures pct >= 0.0 && l.c >= 0.0 ==> r.c >= l.c
    ensures pct <= 0.0 && l.c >= 0.0 ==> r.c <= l.c
  {
    var increment := l.c * pct / 100.0;
    l.(c := l.c + increment)
  }

  /** Every capacity raised by `pct` percent. */
  function Scaled(links: seq<Link>, pct: real): (s: seq<Link>)
    ensures |s| == |links|
    ensures forall k | 0 <= k < |links| :: s[k] == Raised(links[k], pct)
  {
    seq(|links|, k requires 0 <= k < |links| => Raised(links[k], pct))
  }

  /** Raising capacities leaves the topology, hence the routes, unchanged;
    * with a non-negative percentage no capacity of a non-negative edge shrinks. */
  lemma ScaledKeepsTopology(links: seq<Link>, pct: real)
    ensures Ends(Scaled(links, pct)) == Ends(links)
    ensures SimpleGraph(links) ==> SimpleGraph(Scaled(links, pct))
    ensures pct >= 0.0 ==> forall k | 0 <= k < |links| && links[k].c >= 0.0 :: Scaled(links, pct)[k].c >= links[k].c
  {
    var s := Scaled(links, pct);
    assert forall k | 0 <= k < |links| :: Joins(s[k], links[k].u, links[k].v);
  }

  /** Scaling one more edge of a partly scaled edge list: the k-th link gets
    * its raised capacity, and the topology stays the same throughout. */
  lemma ScaledStep(links: seq<Link>, pct: real, k: nat, cur: seq<Link>)
    requires k < |links| && cur == Scaled(links[..k], pct) + links[k..]
    ensures cur[k := Raised(cur[k], pct)] == Scaled(links[..k + 1], pct) + links[k + 1..]
    ensures Ends(Scaled(links[..k + 1], pct) + links[k + 1..]) == Ends(links)
    ensures SimpleGraph(links) ==> SimpleGraph(Scaled(links[..k + 1], pct) + links[k + 1..])
  {
    var s := Scaled(links[..k + 1], pct) + links[k + 1..];
    assert cur[k] == links[k];
    assert forall e | 0 <= e < |links| :: Joins(s[e], links[e].u, links[e].v) && Ends(s)[e] == Ends(links)[e];
  }

  /** `graph[u][v]['c'] = c` on the edge between u and v. */
  function SetCapacity(links: seq<Link>, u: int, v: int, c: real): (s: seq<Link>)
    ensures |s| == |links|
    ensures forall k | 0 <= k < |links| ::
      s[k] == if Joins(links[k], u, v) then links[k].(c := c) else links[k]
  {
    seq(|links|, k requires 0 <= k < |links| => if Joins(links[k], u, v) then links[k].(c := c) else links[k])
  }

  /** The capacities of `items` written back, in order. */
  function Restore(links: seq<Link>, items: seq<Link>): (s: seq<Link>)
    ensures |s| == |links|
    ensures Ends(s) == Ends(links)
  {
    if items == [] then links
    else
      var n := |items| - 1;
      var l := items[n];
      SetCapacity(Restore(links, items[..n]), l.u, l.v, l.c)
  }

  /** Writing back a snapshot of a simple graph's capacities into a graph with
    * the same edges gives back the snapshot, whatever the capacities were. */
  lemma {:induction false} RestorePrefix(links: seq<Link>, saved: seq<Link>, k: nat)
    requires SimpleGraph(saved) && Ends(links) == Ends(saved) && k <= |saved|
    ensures Restore(links, saved[..k]) == saved[..k] + links[k..]
  {
    if k > 0 {
      RestorePrefix(links, saved, k - 1);
      assert saved[..k][..k - 1] == saved[..k - 1];
      var l := saved[k - 1];
      var after := SetCapacity(saved[..k - 1] + links[k - 1..], l.u, l.v, l.c);
      forall a | 0 <= a < |links| ensures after[a] == (saved[..k] + links[k..])[a] {
        RestoreStepAt(links, saved, k, a);
      }
    }
  }

  /** Entry a after writing back the k-th saved item over the first k - 1 restored ones. */
  lemma RestoreStepAt(links: seq<Link>, saved: seq<Link>, k: nat, a: nat)
    requires SimpleGraph(saved) && Ends(links) == Ends(saved) && 0 < k <= |saved| && a < |links|
    ensures SetCapacity(saved[..k - 1] + links[k - 1..], saved[k - 1].u, saved[k - 1].v, saved[k - 1].c)[a]
         == (saved[..k] + links[k..])[a]
  {
    var l := saved[k - 1];
    var before := saved[..k - 1] + links[k - 1..];
    assert Ends(links)[a] == Ends(saved)[a];
    if a < k - 1 {
      assert before[a] == saved[a];
      assert !Joins(l, saved[a].u, saved[a].v);
    } else if a == k - 1 {
      assert before[a] == links[a];
    } else {
      assert before[a] == links[a];
      assert !Joins(saved[a], l.u, l.v);
    }
  }

  /** `reset_capacities` after `increase_capacities` restores the graph. */
  lemma RestoreUndoesScaling(saved: seq<Link>, pct: real)
    requires SimpleGraph(saved)
    ensures Restore(Scaled(saved, pct), saved) == saved
  {
    ScaledKeepsTopology(saved, pct);
    RestorePrefix(Scaled(saved, pct), saved, |saved|);
    assert saved[..|saved|] == saved;
  }

  /** The total capacity of the edges. */
  function TotalCapacity(links: seq<Link>): real {
    if links == [] then 0.0 else TotalCapacity(links[..|links| - 1]) + links[|links| - 1].c
  }

  lemma {:induction false} TotalCapacityBounds(links: seq<Link>, lo: real, hi: real)
    requires forall k | 0 <= k < |links| :: lo <= links[k].c <= hi
    ensures |links| as real * lo <= TotalCapacity(links) <= |links| as real * hi
  {
    if links != [] {
      TotalCapacityBounds(links[..|links| - 1], lo, hi);
    }
  }

  // ---------------------------------------------------------------------
  // Random edge insertion

  /** The graph after `add_random_edges(count, mean)` has used the node pairs
    * `draws` in turn: a pair is added, with capacity `mean`, while fewer than
    * `count` edges have been added, when its nodes differ and it is not an edge yet. */
  function Grow(links: seq<Link>, draws: seq<(int, int)>, count: int, mean: real): (g: seq<Link>)
    ensures |links| <= |g| && g[..|links|] == links
    ensures count >= 0 ==> |g| <= |links| + count
  {
    if draws == [] then links
    else
      var n := |draws| - 1;
      var g := Grow(links, draws[..n], count, mean);
      var (i, j) := draws[n];
      if |g| - |links| < count && i != j && !HasEdge(g, i, j) then g + [Link(i, j, mean)] else g
  }

  lemma {:induction false} HasEdgeAppend(links: seq<Link>, l: Link, u: int, v: int)
    ensures HasEdge(links + [l], u, v) <==> HasEdge(links, u, v) || Joins(l, u, v)
    decreases |links|
  {
    if links != [] {
      assert (links + [l])[1..] == links[1..] + [l];
      HasEdgeAppend(links[1..], l, u, v);
    }
  }

  lemma {:induction false} HasEdgeSome(links: seq<Link>, u: int, v: int)
    ensures HasEdge(links, u, v) <==> exists k | 0 <= k < |links| :: Joins(links[k], u, v)
    decreases |links|
  {
    if links != [] {
      HasEdgeSome(links[1..], u, v);
      if HasEdge(links[1..], u, v) {
        var k :| 0 <= k < |links| - 1 && Joins(links[1..][k], u, v);
        assert Joins(links[k + 1], u, v);
      }
      if exists k | 0 <= k < |links| :: Joins(links[k], u, v) {
        var k :| 0 <= k < |links| && Joins(links[k], u, v);
        if k > 0 {
          assert Joins(links[1..][k - 1], u, v);
        }
      }
    }
  }

  /** Every added edge joins two distinct nodes that were not yet joined and
    * has capacity `mean`: a simple graph stays simple. */
  lemma {:induction false} GrowSimple(links: seq<Link>, draws: seq<(int, int)>, count: int, mean: real)
    requires SimpleGraph(links)
    requires forall k | 0 <= k < |draws| :: InNodes(draws[k].0) && InNodes(draws[k].1)
    ensures SimpleGraph(Grow(links, draws, count, mean))
    ensures forall k | |links| <= k < |Grow(links, draws, count, mean)| :: Grow(links, draws, count, mean)[k].c == mean
  {
    if draws != [] {
      var n := |draws| - 1;
      GrowSimple(links, draws[..n], count, mean);
      var g := Grow(links, draws[..n], count, mean);
      var (i, j) := draws[n];
      if |g| - |links| < count && i != j && !HasEdge(g, i, j) {
        HasEdgeSome(g, i, j);
        var l := Link(i, j, mean);
        forall a | 0 <= a < |g| ensures !Joins(l, g[a].u, g[a].v) {
          assert !Joins(g[a], i, j);
        }
        SimpleAppend(g, l);
      }
    }
  }

  /** Once `count` edges are in, later draws change nothing: the loop has stopped. */
  lemma {:induction false} GrowStops(links: seq<Link>, draws: seq<(int, int)>, more: seq<(int, int)>, count: int, mean: real)
    requires |Grow(links, draws, count, mean)| >= |links| + count
    ensures Grow(links, draws + more, count, mean) == Grow(links, draws, count, mean)
  {
    if more == [] {
      assert draws + more == draws;
    } else {
      var n := |more| - 1;
      GrowStops(links, draws, more[..n], count, mean);
      assert (draws + more)[..|draws + more| - 1] == draws + more[..n];
    }
  }
}
