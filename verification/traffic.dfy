/**
 * Demand and load matrices of the reliability simulation. Nodes are 1..V;
 * a matrix is V x V and is indexed by node - 1. The load assignment walks one
 * route per ordered pair of distinct nodes and adds that pair's demand to the
 * two entries of every hop, (u, v) and (v, u).
 *
 * `Loads` is the matrix the nested loops build, step by step; `TotalLoad` is
 * an independent, entry-wise reference: the sum over all ordered pairs of the
 * pair's demand times the number of times its route crosses the entry.
 */
module Traffic {
  /** Number of nodes; the nodes are 1..V. */
  const V: nat := 20

  type Matrix = seq<seq<int>>

  predicate InNodes(u: int) {
    1 <= u <= V
  }

  ghost predicate IsMatrix(a: Matrix) {
    |a| == V && forall x | 0 <= x < V :: |a[x]| == V
  }

  ghost predicate Symmetric(a: Matrix)
    requires IsMatrix(a)
  {
    forall x, y | 0 <= x < V && 0 <= y < V :: a[x][y] == a[y][x]
  }

  ghost predicate NonNegative(a: Matrix)
    requires IsMatrix(a)
  {
    forall x, y | 0 <= x < V && 0 <= y < V :: a[x][y] >= 0
  }

  /** `np.zeros((V, V), dtype=int)`. */
  function Zero(): (z: Matrix)
    ensures IsMatrix(z)
    ensures forall x, y | 0 <= x < V && 0 <= y < V :: z[x][y] == 0
  {
    seq(V, _ => seq(V, _ => 0))
  }

  /** `a[r][c] = x`. */
  function Set(a: Matrix, r: int, c: int, x: int): (b: Matrix)
    requires IsMatrix(a) && 0 <= r < V && 0 <= c < V
    ensures IsMatrix(b)
    ensures forall i, j | 0 <= i < V && 0 <= j < V ::
      b[i][j] == if i == r && j == c then x else a[i][j]
  {
    a[r := a[r][c := x]]
  }

  // ---------------------------------------------------------------------
  // Routes

  /** A route: the list of nodes a shortest path visits, from source to target. */
  type Route = seq<int>
  /** `paths[i][j]` of `all_pairs_dijkstra_path`, keyed by the pair. */
  type Routes = map<(int, int), Route>

  /** The hops `range(len(path) - 1)` walks. */
  function Hops(p: Route): nat {
    if |p| == 0 then 0 else |p| - 1
  }

  ghost predicate OnNodes(p: Route) {
    forall k | 0 <= k < |p| :: InNodes(p[k])
  }

  /** Every ordered pair of distinct nodes has a route, through nodes 1..V only. */
  ghost predicate Complete(r: Routes) {
    forall i, j | InNodes(i) && InNodes(j) && i != j :: (i, j) in r && OnNodes(r[(i, j)])
  }

  // ---------------------------------------------------------------------
  // The load matrix as the loops build it

  /** How often one hop u -> v adds its flow to the entry (x, y): once for
    * (u - 1, v - 1), once for (v - 1, u - 1). */
  function HopHits(u: int, v: int, x: int, y: int): nat {
    (if u - 1 == x && v - 1 == y then 1 else 0) + (if v - 1 == x && u - 1 == y then 1 else 0)
  }

  /** One hop: `a[u-1][v-1] += flow; a[v-1][u-1] += flow`. */
  function AddHop(a: Matrix, u: int, v: int, flow: int): (b: Matrix)
    requires IsMatrix(a) && InNodes(u) && InNodes(v)
    ensures IsMatrix(b)
    ensures forall x, y | 0 <= x < V && 0 <= y < V :: b[x][y] == a[x][y] + flow * HopHits(u, v, x, y)
  {
    var a1 := Set(a, u - 1, v - 1, a[u - 1][v - 1] + flow);
    Set(a1, v - 1, u - 1, a1[v - 1][u - 1] + flow)
  }

  /** The first k hops of route p, each carrying `flow`. */
  ghost function AddPath(a: Matrix, p: Route, flow: int, k: nat): (b: Matrix)
    requires IsMatrix(a) && OnNodes(p) && k <= Hops(p)
    ensures IsMatrix(b)
  {
    if k == 0 then a else AddHop(AddPath(a, p, flow, k - 1), p[k - 1], p[k], flow)
  }

  /** The pair (i, j): nothing when i == j, otherwise its whole route with demand n[i-1][j-1]. */
  ghost function AddPair(a: Matrix, n: Matrix, r: Routes, i: int, j: int): (b: Matrix)
    requires IsMatrix(a) && IsMatrix(n) && Complete(r) && InNodes(i) && InNodes(j)
    ensures IsMatrix(b)
  {
    if i == j then a else AddPath(a, r[(i, j)], n[i - 1][j - 1], Hops(r[(i, j)]))
  }

  /** The pairs (i, 1), ..., (i, j - 1), in that order. */
  ghost function AddRow(a: Matrix, n: Matrix, r: Routes, i: int, j: int): (b: Matrix)
    requires IsMatrix(a) && IsMatrix(n) && Complete(r) && InNodes(i) && 1 <= j <= V + 1
    ensures IsMatrix(b)
    decreases j
  {
    if j == 1 then a else AddPair(AddRow(a, n, r, i, j - 1), n, r, i, j - 1)
  }

  /** Rows 1, ..., i - 1 added to the zero matrix. */
  ghost function AddRows(n: Matrix, r: Routes, i: int): (b: Matrix)
    requires IsMatrix(n) && Complete(r) && 1 <= i <= V + 1
    ensures IsMatrix(b)
    decreases i
  {
    if i == 1 then Zero() else AddRow(AddRows(n, r, i - 1), n, r, i - 1, V + 1)
  }

  /** The load matrix `compute_a_values` leaves for demand n and routes r. */
  ghost function Loads(n: Matrix, r: Routes): (b: Matrix)
    requires IsMatrix(n) && Complete(r)
    ensures IsMatrix(b)
  {
    AddRows(n, r, V + 1)
  }

  // ---------------------------------------------------------------------
  // The reference: entry-wise sums over the ordered pairs

  /** How often the first k hops of p cross the entry (x, y). */
  ghost function Traversals(p: Route, k: nat, x: int, y: int): nat
    requires k <= Hops(p)
  {
    if k == 0 then 0 else Traversals(p, k - 1, x, y) + HopHits(p[k - 1], p[k], x, y)
  }

  /** Demand of the pair (i, j) carried by the entry (x, y). */
  ghost function PairLoad(n: Matrix, r: Routes, i: int, j: int, x: int, y: int): int
    requires IsMatrix(n) && Complete(r) && InNodes(i) && InNodes(j)
  {
    if i == j then 0 else n[i - 1][j - 1] * Traversals(r[(i, j)], Hops(r[(i, j)]), x, y)
  }

  ghost function RowLoad(n: Matrix, r: Routes, i: int, j: int, x: int, y: int): int
    requires IsMatrix(n) && Complete(r) && InNodes(i) && 1 <= j <= V + 1
    decreases j
  {
    if j == 1 then 0 else RowLoad(n, r, i, j - 1, x, y) + PairLoad(n, r, i, j - 1, x, y)
  }

  /** Sum of the demands of all pairs with source < i that cross the entry (x, y). */
  ghost function TotalLoad(n: Matrix, r: Routes, i: int, x: int, y: int): int
    requires IsMatrix(n) && Complete(r) && 1 <= i <= V + 1
    decreases i
  {
    if i == 1 then 0 else TotalLoad(n, r, i - 1, x, y) + RowLoad(n, r, i - 1, V + 1, x, y)
  }

  lemma Distribute(f: int, s: int, t: int, h: int)
    requires s == t + h
    ensures f * s == f * t + f * h
  {
  }

  lemma {:induction false} AddPathEntry(a: Matrix, p: Route, flow: int, k: nat, x: int, y: int)
    requires IsMatrix(a) && OnNodes(p) && k <= Hops(p)
    requires 0 <= x < V && 0 <= y < V
    ensures AddPath(a, p, flow, k)[x][y] == a[x][y] + flow * Traversals(p, k, x, y)
  {
    if k > 0 {
      var b := AddPath(a, p, flow, k - 1);
      AddPathEntry(a, p, flow, k - 1, x, y);
      assert AddPath(a, p, flow, k)[x][y] == b[x][y] + flow * HopHits(p[k - 1], p[k], x, y);
      Distribute(flow, Traversals(p, k, x, y), Traversals(p, k - 1, x, y), HopHits(p[k - 1], p[k], x, y));
    }
  }

  lemma {:induction false} AddRowEntry(a: Matrix, n: Matrix, r: Routes, i: int, j: int, x: int, y: int)
    requires IsMatrix(a) && IsMatrix(n) && Complete(r) && InNodes(i) && 1 <= j <= V + 1
    requires 0 <= x < V && 0 <= y < V
    ensures AddRow(a, n, r, i, j)[x][y] == a[x][y] + RowLoad(n, r, i, j, x, y)
    decreases j
  {
    if j > 1 {
      AddRowEntry(a, n, r, i, j - 1, x, y);
      if i != j - 1 {
        var p := r[(i, j - 1)];
        AddPathEntry(AddRow(a, n, r, i, j - 1), p, n[i - 1][j - 2], Hops(p), x, y);
      }
    }
  }

  lemma {:induction false} AddRowsEntry(n: Matrix, r: Routes, i: int, x: int, y: int)
    requires IsMatrix(n) && Complete(r) && 1 <= i <= V + 1
    requires 0 <= x < V && 0 <= y < V
    ensures AddRows(n, r, i)[x][y] == TotalLoad(n, r, i, x, y)
    decreases i
  {
    if i > 1 {
      AddRowsEntry(n, r, i - 1, x, y);
      AddRowEntry(AddRows(n, r, i - 1), n, r, i - 1, V + 1, x, y);
    }
  }

  /** Each entry of the load matrix is the sum, over the ordered pairs (i, j)
    * with i != j, of n[i-1][j-1] times the number of times the route of (i, j)
    * crosses that entry. */
  lemma LoadsAsSum(n: Matrix, r: Routes)
    requires IsMatrix(n) && Complete(r)
    ensures forall x, y | 0 <= x < V && 0 <= y < V :: Loads(n, r)[x][y] == TotalLoad(n, r, V + 1, x, y)
  {
    forall x, y | 0 <= x < V && 0 <= y < V
      ensures Loads(n, r)[x][y] == TotalLoad(n, r, V + 1, x, y)
    {
      AddRowsEntry(n, r, V + 1, x, y);
    }
  }

  lemma {:induction false} TraversalsSymmetric(p: Route, k: nat, x: int, y: int)
    requires k <= Hops(p)
    ensures Traversals(p, k, x, y) == Traversals(p, k, y, x)
  {
    if k > 0 {
      TraversalsSymmetric(p, k - 1, x, y);
    }
  }

  lemma {:induction false} RowLoadSymmetric(n: Matrix, r: Routes, i: int, j: int, x: int, y: int)
    requires IsMatrix(n) && Complete(r) && InNodes(i) && 1 <= j <= V + 1
    ensures RowLoad(n, r, i, j, x, y) == RowLoad(n, r, i, j, y, x)
    decreases j
  {
    if j > 1 {
      RowLoadSymmetric(n, r, i, j - 1, x, y);
      if i != j - 1 {
        var p := r[(i, j - 1)];
        TraversalsSymmetric(p, Hops(p), x, y);
      }
    }
  }

  lemma {:induction false} TotalLoadSymmetric(n: Matrix, r: Routes, i: int, x: int, y: int)
    requires IsMatrix(n) && Complete(r) && 1 <= i <= V + 1
    ensures TotalLoad(n, r, i, x, y) == TotalLoad(n, r, i, y, x)
    decreases i
  {
    if i > 1 {
      TotalLoadSymmetric(n, r, i - 1, x, y);
      RowLoadSymmetric(n, r, i - 1, V + 1, x, y);
    }
  }

  /** The load matrix is symmetric, whatever the demand and the routes. */
  lemma LoadsSymmetric(n: Matrix, r: Routes)
    requires IsMatrix(n) && Complete(r)
    ensures Symmetric(Loads(n, r))
  {
    LoadsAsSum(n, r);
    forall x, y | 0 <= x < V && 0 <= y < V
      ensures Loads(n, r)[x][y] == Loads(n, r)[y][x]
    {
      TotalLoadSymmetric(n, r, V + 1, x, y);
    }
  }

  lemma {:induction false} RowLoadNonNegative(n: Matrix, r: Routes, i: int, j: int, x: int, y: int)
    requires IsMatrix(n) && NonNegative(n) && Complete(r) && InNodes(i) && 1 <= j <= V + 1
    ensures RowLoad(n, r, i, j, x, y) >= 0
    decreases j
  {
    if j > 1 {
      RowLoadNonNegative(n, r, i, j - 1, x, y);
      PairLoadNonNegative(n, r, i, j - 1, x, y);
    }
  }

  lemma PairLoadNonNegative(n: Matrix, r: Routes, i: int, j: int, x: int, y: int)
    requires IsMatrix(n) && NonNegative(n) && Complete(r) && InNodes(i) && InNodes(j)
    ensures PairLoad(n, r, i, j, x, y) >= 0
  {
    if i != j {
      var d, t := n[i - 1][j - 1], Traversals(r[(i, j)], Hops(r[(i, j)]), x, y);
      assert d >= 0;
      assert d * t >= 0;
    }
  }

  lemma {:induction false} TotalLoadNonNegative(n: Matrix, r: Routes, i: int, x: int, y: int)
    requires IsMatrix(n) && NonNegative(n) && Complete(r) && 1 <= i <= V + 1
    ensures TotalLoad(n, r, i, x, y) >= 0
    decreases i
  {
    if i > 1 {
      TotalLoadNonNegative(n, r, i - 1, x, y);
      RowLoadNonNegative(n, r, i - 1, V + 1, x, y);
    }
  }

  /** Non-negative demand gives non-negative loads. */
  lemma LoadsNonNegative(n: Matrix, r: Routes)
    requires IsMatrix(n) && NonNegative(n) && Complete(r)
    ensures NonNegative(Loads(n, r))
  {
    LoadsAsSum(n, r);
    forall x, y | 0 <= x < V && 0 <= y < V
      ensures Loads(n, r)[x][y] >= 0
    {
      TotalLoadNonNegative(n, r, V + 1, x, y);
    }
  }
}
