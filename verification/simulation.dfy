/**
 * The reliability simulation of a network of V nodes: a demand matrix N,
 * the load matrix it induces over fewest-hop routes, an overload test, the
 * mean packet delay T, and a Monte Carlo estimate of the probability that a
 * randomly damaged network stays connected, unloaded and fast enough.
 *
 * The random draws are inputs: `random.randint(1, 10)` per node pair,
 * `random.random()` per edge and trial, and `np.random.randint(1, V + 1)`
 * pairs for new edges.
 */
module Simulation {
  import opened Traffic
  import opened Graphs

  /** `trials`: Monte Carlo trials per estimate. */
  const Trials: nat := 100
  /** `T_max`: the largest acceptable mean packet delay, in seconds. */
  const TMax: real := 0.1

  /** A delay figure: a number, or one of the IEEE values numpy divides into. */
  datatype Delay = Finite(value: real) | PosInf | NegInf | NaN

  /** `T < T_max` on a float: inf and nan compare false, -inf compares true. */
  predicate Acceptable(t: Delay)
    ensures Acceptable(t) ==> t != PosInf && t != NaN
    ensures t == NegInf ==> Acceptable(t)
    ensures t.Finite? ==> (Acceptable(t) <==> t.value < TMax)
  {
    match t
    case Finite(x) => x < TMax
    case NegInf => true
    case _ => false
  }

  /** `total_delay / G_value` with an integer divisor: numpy divides by zero
    * into inf, -inf or nan instead of raising. */
  function Quotient(total: real, g: int): (r: Delay)
    ensures r.Finite? <==> g != 0
    ensures g == 0 ==> (r == NaN <==> total == 0.0)
  {
    if g != 0 then Finite(total / g as real)
    else if total > 0.0 then PosInf
    else if total < 0.0 then NegInf
    else NaN
  }

  function SumRow(s: seq<int>): int {
    if s == [] then 0 else SumRow(s[..|s| - 1]) + s[|s| - 1]
  }

  /** `np.sum(N)`. */
  function SumAll(n: Matrix): int {
    if n == [] then 0 else SumAll(n[..|n| - 1]) + SumRow(n[|n| - 1])
  }

  // ---------------------------------------------------------------------
  // Demand matrix

  /** n is what the pair loops of `populate_N_matrix` leave behind: draws[x][y]
    * at (x, y) and (y, x) for every x < y, the diagonal untouched. */
  ghost predicate PopulatedFrom(n: Matrix, n0: Matrix, draws: Matrix)
    requires IsMatrix(n) && IsMatrix(n0) && IsMatrix(draws)
  {
    forall x, y {:trigger n[x][y]} | 0 <= x < V && 0 <= y < V ::
      n[x][y] == if x < y then draws[x][y] else if y < x then draws[y][x] else n0[x][y]
  }

  /** The entry (x, y) after the pairs before (r, c), in loop order, are filled. */
  function Filled(n0: Matrix, draws: Matrix, x: int, y: int, r: int, c: int): int
    requires IsMatrix(n0) && IsMatrix(draws) && 0 <= x < V && 0 <= y < V
  {
    var lo := if x < y then x else y;
    var hi := if x < y then y else x;
    if lo != hi && (lo < r || (lo == r && hi < c)) then draws[lo][hi] else n0[x][y]
  }

  /** From a zero diagonal and draws in 1..10, `populate_N_matrix` gives a
    * symmetric demand matrix with a zero diagonal and every other entry in 1..10. */
  lemma PopulatedShape(n: Matrix, n0: Matrix, draws: Matrix)
    requires IsMatrix(n) && IsMatrix(n0) && IsMatrix(draws)
    requires PopulatedFrom(n, n0, draws)
    requires forall x | 0 <= x < V :: n0[x][x] == 0
    requires forall x, y | 0 <= x < y < V :: 1 <= draws[x][y] <= 10
    ensures Symmetric(n)
    ensures forall x | 0 <= x < V :: n[x][x] == 0
    ensures forall x, y | 0 <= x < V && 0 <= y < V && x != y :: 1 <= n[x][y] <= 10
  {
    forall x, y | 0 <= x < V && 0 <= y < V
      ensures n[x][y] == n[y][x]
      ensures x == y ==> n[x][y] == 0
      ensures x != y ==> 1 <= n[x][y] <= 10
    {
      assert n[x][y] == if x < y then draws[x][y] else if y < x then draws[y][x] else n0[x][y];
      assert n[y][x] == if y < x then draws[y][x] else if x < y then draws[x][y] else n0[y][x];
    }
  }

  /** `N[N != 0] += increment`. */
  function Bumped(n: Matrix, increment: int): (b: Matrix)
    requires IsMatrix(n)
    ensures IsMatrix(b)
    ensures forall x, y | 0 <= x < V && 0 <= y < V ::
      b[x][y] == if n[x][y] != 0 then n[x][y] + increment else 0
  {
    seq(V, x requires 0 <= x < V =>
      seq(V, y requires 0 <= y < V => if n[x][y] != 0 then n[x][y] + increment else n[x][y]))
  }

  /** Raising the demand keeps it symmetric with a zero diagonal, and a
    * non-negative increment keeps a non-negative demand non-negative. */
  lemma BumpedShape(n: Matrix, increment: int)
    requires IsMatrix(n)
    ensures Symmetric(n) ==> Symmetric(Bumped(n, increment))
    ensures forall x | 0 <= x < V && n[x][x] == 0 :: Bumped(n, increment)[x][x] == 0
    ensures NonNegative(n) && increment >= 0 ==> NonNegative(Bumped(n, increment))
  {
  }

  // ---------------------------------------------------------------------
  // Overload and delay

  /** `c / m - a` for an edge l: its capacity in packets per second minus
    * twice its load; the capacity is looked up in g. */
  function Headroom(a: Matrix, g: seq<Link>, l: Link, m: int): real
    requires IsMatrix(a) && SimpleGraph(g) && l in g && m > 0
  {
    MemberHasEdge(g, l);
    Capacity(g, l.u, l.v) / m as real - (2 * a[l.u - 1][l.v - 1]) as real
  }

  /** `2 * a * m > c`, the capacity looked up in g. */
  ghost predicate Overloaded(a: Matrix, g: seq<Link>, l: Link, m: int)
    requires IsMatrix(a) && SimpleGraph(g) && l in g
  {
    MemberHasEdge(g, l);
    (2 * a[l.u - 1][l.v - 1] * m) as real > Capacity(g, l.u, l.v)
  }

  /** None of the first k edges is saturated: each has headroom left. */
  ghost predicate Unsaturated(a: Matrix, links: seq<Link>, m: int, k: nat)
    requires IsMatrix(a) && SimpleGraph(links) && m > 0 && k <= |links|
  {
    forall e | 0 <= e < k :: Headroom(a, links, links[e], m) > 0.0
  }

  /** The sum of `a / (c / m - a)` over the first k edges, none of them saturated. */
  ghost function DelaySum(a: Matrix, links: seq<Link>, m: int, k: nat): real
    requires IsMatrix(a) && SimpleGraph(links) && m > 0 && k <= |links|
    requires Unsaturated(a, links, m, k)
  {
    if k == 0 then 0.0
    else
      var l := links[k - 1];
      DelaySum(a, links, m, k - 1) + (2 * a[l.u - 1][l.v - 1]) as real / Headroom(a, links, l, m)
  }

  lemma UnsaturatedStep(a: Matrix, links: seq<Link>, m: int, k: nat)
    requires IsMatrix(a) && SimpleGraph(links) && m > 0 && k < |links|
    requires Unsaturated(a, links, m, k) && Headroom(a, links, links[k], m) > 0.0
    ensures Unsaturated(a, links, m, k + 1)
  {
  }

  /** `calculate_T` for loads a and demand total g: inf when some edge is
    * saturated, otherwise the delay sum divided by g. */
  ghost function DelayOf(a: Matrix, links: seq<Link>, m: int, g: int): (r: Delay)
    requires IsMatrix(a) && SimpleGraph(links) && m > 0
    ensures !Unsaturated(a, links, m, |links|) ==> r == PosInf
    ensures Unsaturated(a, links, m, |links|) ==> (r.Finite? <==> g != 0)
  {
    if !Unsaturated(a, links, m, |links|) then PosInf
    else Quotient(DelaySum(a, links, m, |links|), g)
  }

  lemma {:induction false} DelaySumNonNegative(a: Matrix, links: seq<Link>, m: int, k: nat)
    requires IsMatrix(a) && NonNegative(a) && SimpleGraph(links) && m > 0 && k <= |links|
    requires Unsaturated(a, links, m, k)
    ensures DelaySum(a, links, m, k) >= 0.0
  {
    if k > 0 {
      DelaySumNonNegative(a, links, m, k - 1);
      var l := links[k - 1];
      assert l in links;
      DivisionNonNegative((2 * a[l.u - 1][l.v - 1]) as real, Headroom(a, links, l, m));
    }
  }

  lemma DivisionNonNegative(x: real, y: real)
    requires x >= 0.0 && y > 0.0
    ensures x / y >= 0.0
  {
  }

  /** With non-negative loads, positive total demand and no saturated edge,
    * the delay is a finite, non-negative number; with a saturated edge it is inf. */
  lemma DelayFinite(a: Matrix, links: seq<Link>, m: int, g: int)
    requires IsMatrix(a) && NonNegative(a) && SimpleGraph(links) && m > 0 && g > 0
    ensures !Unsaturated(a, links, m, |links|) <==> DelayOf(a, links, m, g) == PosInf
    ensures DelayOf(a, links, m, g) != PosInf ==> DelayOf(a, links, m, g).Finite? && DelayOf(a, links, m, g).value >= 0.0
  {
    if Unsaturated(a, links, m, |links|) {
      DelaySumNonNegative(a, links, m, |links|);
      DivisionNonNegative(DelaySum(a, links, m, |links|), g as real);
    }
  }

  // ---------------------------------------------------------------------
  // Trials

  /** One trial: the edges that survive draws `ds` leave a connected graph,
    * no surviving edge is overloaded (capacity of the undamaged graph g), and
    * the delay is below T_max. */
  ghost predicate Trial(n: Matrix, g: seq<Link>, p: real, m: int, o: Oracle, ds: seq<real>)
    requires IsMatrix(n) && SimpleGraph(g) && Sound(o) && m > 0 && |ds| == |g|
    ensures Trial(n, g, p, m, o, ds) ==> o.connected(Ends(Survivors(g, ds, p)))
  {
    SurvivorsSimple(g, ds, p);
    SurvivorsWithin(g, ds, p);
    var d := Survivors(g, ds, p);
    o.connected(Ends(d)) &&
    (RoutesOfConnected(o, Ends(d));
     var a := Loads(n, o.paths(Ends(d)));
     (forall l | l in d :: !Overloaded(a, g, l, m)) && Acceptable(DelayOf(a, d, m, SumAll(n))))
  }

  ghost predicate DrawsFor(g: seq<Link>, draws: seq<seq<real>>) {
    forall t | 0 <= t < |draws| :: |draws[t]| == |g|
  }

  /** The number of reliable trials. */
  ghost function Reliable(n: Matrix, g: seq<Link>, p: real, m: int, o: Oracle, draws: seq<seq<real>>): (c: nat)
    requires IsMatrix(n) && SimpleGraph(g) && Sound(o) && m > 0 && DrawsFor(g, draws)
    ensures c <= |draws|
  {
    if draws == [] then 0
    else
      var t := |draws| - 1;
      Reliable(n, g, p, m, o, draws[..t]) + if Trial(n, g, p, m, o, draws[t]) then 1 else 0
  }

  /** The load matrix after the trials: that of the last trial whose damaged
    * graph was connected, or a0 when there was none. */
  ghost function AfterTrials(a0: Matrix, n: Matrix, g: seq<Link>, p: real, o: Oracle, draws: seq<seq<real>>): Matrix
    requires IsMatrix(n) && Sound(o) && DrawsFor(g, draws)
  {
    if draws == [] then a0
    else
      var t := |draws| - 1;
      var d := Survivors(g, draws[t], p);
      if o.connected(Ends(d)) then RoutesOfConnected(o, Ends(d)); Loads(n, o.paths(Ends(d))) else AfterTrials(a0, n, g, p, o, draws[..t])
  }

  /** When no edge can fail (probability >= 1, draws in [0, 1)) every trial
    * sees the undamaged graph, so all trials agree: the count is 0 or all. */
  lemma {:induction false} ReliableAllOrNone(n: Matrix, g: seq<Link>, p: real, m: int, o: Oracle, draws: seq<seq<real>>)
    requires IsMatrix(n) && SimpleGraph(g) && Sound(o) && m > 0 && DrawsFor(g, draws) && p >= 1.0
    requires forall t, k | 0 <= t < |draws| && 0 <= k < |draws[t]| :: 0.0 <= draws[t][k] < 1.0
    ensures Reliable(n, g, p, m, o, draws) == 0 || Reliable(n, g, p, m, o, draws) == |draws|
    ensures draws != [] ==>
      (Reliable(n, g, p, m, o, draws) == |draws| <==> Trial(n, g, p, m, o, draws[0]))
  {
    if draws != [] {
      var t := |draws| - 1;
      ReliableAllOrNone(n, g, p, m, o, draws[..t]);
      SurvivorsAll(g, draws[t], p);
      SurvivorsAll(g, draws[0], p);
      assert Trial(n, g, p, m, o, draws[t]) == Trial(n, g, p, m, o, draws[0]);
      if t > 0 {
        assert draws[..t][0] == draws[0];
      }
    }
  }

  // ---------------------------------------------------------------------
  // The simulation object

  class NetworkSimulation {
    /** The network topology, shared with the caller. */
    const graph: Graph
    /** `N_matrix`: demand between node pairs, in packets per second. */
    var nMatrix: Matrix
    /** `a_values`: load on each edge, in packets per second. */
    var aValues: Matrix

    ghost predicate Valid()
      reads this, graph
    {
      IsMatrix(nMatrix) && IsMatrix(aValues) && SimpleGraph(graph.links)
    }

    constructor (graph: Graph)
      requires SimpleGraph(graph.links)
      ensures Valid() && this.graph == graph
      ensures nMatrix == Zero() && aValues == Zero()
    {
      this.graph := graph;
      nMatrix := Zero();
      aValues := Zero();
    }

    method PopulateNMatrix(draws: Matrix)
      requires Valid() && IsMatrix(draws)
      modifies this
      ensures Valid() && aValues == old(aValues)
      ensures PopulatedFrom(nMatrix, old(nMatrix), draws)
    {
      for u := 1 to V + 1
        invariant IsMatrix(nMatrix) && aValues == old(aValues)
        invariant forall x, y | 0 <= x < V && 0 <= y < V ::
          nMatrix[x][y] == Filled(old(nMatrix), draws, x, y, u - 1, u)
      {
        for v := u + 1 to V + 1
          invariant IsMatrix(nMatrix) && aValues == old(aValues)
          invariant forall x, y | 0 <= x < V && 0 <= y < V ::
            nMatrix[x][y] == Filled(old(nMatrix), draws, x, y, u - 1, v - 1)
        {
          var traffic := draws[u - 1][v - 1];
          nMatrix := Set(nMatrix, u - 1, v - 1, traffic);
          nMatrix := Set(nMatrix, v - 1, u - 1, traffic);
        }
      }
    }

    /** `compute_a_values(graph)`: recomputed from zero, so two calls on the
      * same graph and demand leave the same matrix. */
    method ComputeAValues(graph: Graph, o: Oracle)
      requires Valid() && Sound(o) && o.connected(Ends(graph.links))
      modifies this
      ensures Valid() && nMatrix == old(nMatrix)
      ensures aValues == Loads(nMatrix, o.paths(Ends(graph.links)))
    {
      aValues := Zero();
      var paths := o.paths(Ends(graph.links));
      RoutesOfConnected(o, Ends(graph.links));
      for i := 1 to V + 1
        invariant Valid() && nMatrix == old(nMatrix)
        invariant aValues == AddRows(nMatrix, paths, i)
      {
        AddSourceFlows(paths, i);
      }
    }

    /** The pairs (i, j), j = 1..V, of `compute_a_values`' nested loops. */
    method AddSourceFlows(paths: Routes, i: int)
      requires Valid() && Complete(paths) && InNodes(i)
      modifies this
      ensures Valid() && nMatrix == old(nMatrix)
      ensures aValues == AddRow(old(aValues), nMatrix, paths, i, V + 1)
    {
      for j := 1 to V + 1
        invariant Valid() && nMatrix == old(nMatrix)
        invariant aValues == AddRow(old(aValues), nMatrix, paths, i, j)
      {
        if i != j {
          var path := paths[(i, j)];
          var flow := nMatrix[i - 1][j - 1];
          AddPathFlow(path, flow);
        }
      }
    }

    /** The innermost loop of `compute_a_values`: flow added to both entries of every hop of path. */
    method AddPathFlow(path: Route, flow: int)
      requires Valid() && OnNodes(path)
      modifies this
      ensures Valid() && nMatrix == old(nMatrix)
      ensures aValues == AddPath(old(aValues), path, flow, Hops(path))
    {
      for k := 0 to Hops(path)
        invariant Valid() && nMatrix == old(nMatrix)
        invariant aValues == AddPath(old(aValues), path, flow, k)
      {
        // both directions of the hop, as the two in-place additions do
        aValues := AddHop(aValues, path[k], path[k + 1], flow);
      }
    }

    /** `randomly_remove_edges(graph, probability)`, draws[k] being the
      * `random.random()` drawn for the k-th edge. */
    method RandomlyRemoveEdges(graph: Graph, probability: real, draws: seq<real>)
      requires |draws| == |graph.links|
      modifies graph
      ensures graph.links == Survivors(old(graph.links), draws, probability)
    {
      var edges := graph.links;
      var kept := 0;
      for k := 0 to |edges|
        invariant graph.links == Survivors(edges[..k], draws[..k], probability) + edges[k..]
        invariant kept == |Survivors(edges[..k], draws[..k], probability)|
      {
        RemovalStep(edges, draws, probability, k);
        if draws[k] > probability {
          graph.links := graph.links[..kept] + graph.links[kept + 1..];
        } else {
          kept := kept + 1;
        }
      }
      assert edges[..|edges|] == edges && draws[..|edges|] == draws;
    }

    /** One turn of the removal loop: the k-th edge is taken out of the edge
      * list, at its position among the survivors, or kept. */
    static lemma RemovalStep(edges: seq<Link>, draws: seq<real>, p: real, k: nat)
      requires |draws| == |edges| && k < |edges|
      ensures var before := Survivors(edges[..k], draws[..k], p);
        var links := before + edges[k..];
        Survivors(edges[..k + 1], draws[..k + 1], p) + edges[k + 1..] ==
          if draws[k] > p then links[..|before|] + links[|before| + 1..] else links
      ensures |Survivors(edges[..k + 1], draws[..k + 1], p)| ==
        |Survivors(edges[..k], draws[..k], p)| + if draws[k] > p then 0 else 1
    {
      SurvivorsStep(edges, draws, p, k);
      assert edges[k..] == [edges[k]] + edges[k + 1..];
    }

    /** The overload test of `simulate_reliability` over the edges of damaged. */
    method NotOverloaded(damaged: Graph, m: int) returns (ok: bool)
      requires Valid() && forall l | l in damaged.links :: l in graph.links
      ensures ok <==> forall l | l in damaged.links :: !Overloaded(aValues, graph.links, l, m)
    {
      ok := true;
      for k := 0 to |damaged.links|
        invariant ok <==> forall e | 0 <= e < k :: !Overloaded(aValues, graph.links, damaged.links[e], m)
      {
        var l := damaged.links[k];
        assert l in graph.links;
        MemberHasEdge(graph.links, l);
        var aValue := 2 * aValues[l.u - 1][l.v - 1] * m;
        var cValue := Capacity(graph.links, l.u, l.v);
        if aValue as real > cValue {
          ok := false;
        }
      }
    }

    /** `calculate_T(graph, m)`. */
    method CalculateT(graph: Graph, m: int, o: Oracle) returns (t: Delay)
      requires Valid() && SimpleGraph(graph.links) && Sound(o) && o.connected(Ends(graph.links)) && m > 0
      modifies this
      ensures Valid() && nMatrix == old(nMatrix)
      ensures aValues == Loads(nMatrix, o.paths(Ends(graph.links)))
      ensures t == DelayOf(aValues, graph.links, m, SumAll(nMatrix))
    {
      var gValue := SumAll(nMatrix);
      ComputeAValues(graph, o);
      t := MeanDelay(graph, m, gValue);
    }

    /** The edge loop of `calculate_T`: inf at the first saturated edge,
      * otherwise the delay sum over all edges divided by g. */
    method MeanDelay(graph: Graph, m: int, g: int) returns (t: Delay)
      requires IsMatrix(aValues) && SimpleGraph(graph.links) && m > 0
      ensures t == DelayOf(aValues, graph.links, m, g)
    {
      var total := 0.0;
      for k := 0 to |graph.links|
        invariant Unsaturated(aValues, graph.links, m, k)
        invariant total == DelaySum(aValues, graph.links, m, k)
      {
        var l := graph.links[k];
        var a := 2 * aValues[l.u - 1][l.v - 1];
        var headroom := Headroom(aValues, graph.links, l, m);
        if headroom <= 0.0 {
          return PosInf;
        }
        UnsaturatedStep(aValues, graph.links, m, k);
        total := total + a as real / headroom;
      }
      t := Quotient(total, g);
    }

    /** `simulate_reliability(p, m)`: draws[t][k] is the draw for the k-th edge in trial t. */
    method SimulateReliability(p: real, m: int, o: Oracle, draws: seq<seq<real>>) returns (reliability: real)
      requires Valid() && Sound(o) && m > 0 && |draws| == Trials && DrawsFor(graph.links, draws)
      modifies this
      ensures Valid() && nMatrix == old(nMatrix)
      ensures aValues == AfterTrials(old(aValues), nMatrix, graph.links, p, o, draws)
      ensures reliability == Reliable(nMatrix, graph.links, p, m, o, draws) as real / Trials as real
      ensures 0.0 <= reliability <= 1.0
    {
      var countReliable := 0;
      for t := 0 to Trials
        invariant Valid() && nMatrix == old(nMatrix)
        invariant countReliable == Reliable(nMatrix, graph.links, p, m, o, draws[..t])
        invariant aValues == AfterTrials(old(aValues), nMatrix, graph.links, p, o, draws[..t])
      {
        assert draws[..t + 1][..t] == draws[..t];
        var reliable := RunTrial(p, m, o, draws[t]);
        if reliable {
          countReliable := countReliable + 1;
        }
      }
      assert draws[..Trials] == draws;
      reliability := countReliable as real / Trials as real;
    }

    /** One pass of the trial loop of `simulate_reliability`: damage a copy of
      * the graph, and if it stays connected recompute the loads and test
      * overload and delay. */
    method RunTrial(p: real, m: int, o: Oracle, ds: seq<real>) returns (reliable: bool)
      requires Valid() && Sound(o) && m > 0 && |ds| == |graph.links|
      modifies this
      ensures Valid() && nMatrix == old(nMatrix)
      ensures reliable == Trial(nMatrix, graph.links, p, m, o, ds)
      ensures var d := Survivors(graph.links, ds, p);
        aValues == if o.connected(Ends(d)) then (RoutesOfConnected(o, Ends(d)); Loads(nMatrix, o.paths(Ends(d)))) else old(aValues)
    {
      reliable := false;
      var damaged := graph.Copy();
      RandomlyRemoveEdges(damaged, p, ds);
      SurvivorsSimple(graph.links, ds, p);
      SurvivorsWithin(graph.links, ds, p);
      if o.connected(Ends(damaged.links)) {
        ComputeAValues(damaged, o);
        var isNotOverloaded := NotOverloaded(damaged, m);
        if isNotOverloaded {
          var delay := CalculateT(damaged, m, o);
          reliable := Acceptable(delay);
        }
      }
    }

    /** `increase_N_values(increment)`. */
    method IncreaseNValues(increment: int)
      requires Valid()
      modifies this
      ensures Valid() && aValues == old(aValues)
      ensures nMatrix == Bumped(old(nMatrix), increment)
    {
      nMatrix := Bumped(nMatrix, increment);
    }

    /** `increase_capacities(pct)`: the loads are recomputed after every edge,
      * on the same topology. */
    method IncreaseCapacities(pct: real, o: Oracle)
      requires Valid() && Sound(o) && (|graph.links| > 0 ==> o.connected(Ends(graph.links)))
      modifies this, graph
      ensures Valid() && nMatrix == old(nMatrix)
      ensures graph.links == Scaled(old(graph.links), pct)
      ensures aValues == if |old(graph.links)| > 0 then Loads(nMatrix, o.paths(Ends(old(graph.links)))) else old(aValues)
    {
      var edges := graph.links;
      for k := 0 to |edges|
        invariant Valid() && nMatrix == old(nMatrix)
        invariant graph.links == Scaled(edges[..k], pct) + edges[k..]
        invariant Ends(graph.links) == Ends(edges)
        invariant aValues == if k > 0 then Loads(nMatrix, o.paths(Ends(edges))) else old(aValues)
      {
        ScaledStep(edges, pct, k, graph.links);
        graph.links := graph.links[k := Raised(graph.links[k], pct)];
        ComputeAValues(graph, o);
      }
      assert edges[..|edges|] == edges;
    }

    /** `reset_capacities(graph, initial_capacities)`: the dictionary's items,
      * in order, as (u, v, capacity). An item with no edge raises KeyError. */
    static method ResetCapacities(graph: Graph, initial: seq<Link>)
      requires forall k | 0 <= k < |initial| :: HasEdge(graph.links, initial[k].u, initial[k].v)
      modifies graph
      ensures graph.links == Restore(old(graph.links), initial)
    {
      ghost var edges := graph.links;
      for k := 0 to |initial|
        invariant graph.links == Restore(edges, initial[..k])
      {
        assert initial[..k + 1][..k] == initial[..k];
        var item := initial[k];
        graph.links := SetCapacity(graph.links, item.u, item.v, item.c);
      }
      assert initial[..|initial|] == initial;
    }

    /** `add_random_edges(count, mean)`, the i, j of each try taken from draws
      * in turn; the loop ends early if the draws run out. */
    method AddRandomEdges(count: int, mean: real, draws: seq<(int, int)>)
      requires Valid()
      requires forall k | 0 <= k < |draws| :: InNodes(draws[k].0) && InNodes(draws[k].1)
      modifies graph
      ensures Valid()
      ensures graph.links == Grow(old(graph.links), draws, count, mean)
    {
      ghost var edges := graph.links;
      var addedEdges := 0;
      var n := 0;
      while addedEdges < count && n < |draws|
        invariant n <= |draws|
        invariant graph.links == Grow(edges, draws[..n], count, mean)
        invariant addedEdges == |graph.links| - |edges|
      {
        assert draws[..n + 1][..n] == draws[..n];
        var (i, j) := draws[n];
        if i != j && !HasEdge(graph.links, i, j) {
          graph.links := graph.links + [Link(i, j, mean)];
          addedEdges := addedEdges + 1;
        }
        n := n + 1;
      }
      if n < |draws| {
        GrowStops(edges, draws[..n], draws[n..], count, mean);
        assert draws[..n] + draws[n..] == draws;
      } else {
        assert draws[..n] == draws;
      }
      GrowSimple(edges, draws, count, mean);
    }

    /** `average_capacity()`: the mean edge capacity, 0 without edges. */
    function AverageCapacity(): (avg: real)
      reads this, graph
      ensures |graph.links| > 0 ==> avg * |graph.links| as real == TotalCapacity(graph.links)
      ensures |graph.links| == 0 ==> avg == 0.0
    {
      if |graph.links| > 0 then TotalCapacity(graph.links) / |graph.links| as real else 0.0
    }

    /** The mean lies between the smallest and the largest capacity. */
    lemma AverageWithin(lo: real, hi: real)
      requires |graph.links| > 0
      requires forall k | 0 <= k < |graph.links| :: lo <= graph.links[k].c <= hi
      ensures lo <= AverageCapacity() <= hi
    {
      TotalCapacityBounds(graph.links, lo, hi);
      QuotientWithin(TotalCapacity(graph.links), |graph.links| as real, lo, hi);
    }

    static lemma QuotientWithin(total: real, n: real, lo: real, hi: real)
      requires n > 0.0 && n * lo <= total <= n * hi
      ensures lo <= total / n <= hi
    {
    }
  }
}
