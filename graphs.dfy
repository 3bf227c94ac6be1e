/** The weighted adjacency map of University.edges, keyed by classroom name, and paths over it. */
module Graphs {

  /** edges[a][b] is the cost of the edge from the room named a to the room named b. */
  type Adjacency = map<string, map<string, real>>

  predicate HasEdge(e: Adjacency, a: string, b: string) {
    a in e && b in e[a]
  }

  /** get_neighbors on names: the keys of a's row, or nothing when a has no row. */
  function Neighbours(e: Adjacency, a: string): (r: set<string>)
    ensures forall b :: b in r <==> HasEdge(e, a, b)
  {
    if a in e then e[a].Keys else {}
  }

  /** Every edge is stored in both directions with the same cost. */
  ghost predicate Symmetric(e: Adjacency) {
    forall a, b {:trigger HasEdge(e, a, b)} :: HasEdge(e, a, b) ==> HasEdge(e, b, a) && e[b][a] == e[a][b]
  }

  ghost predicate NoSelfLoops(e: Adjacency) {
    forall a :: a in e ==> a !in e[a]
  }

  ghost predicate NonNegative(e: Adjacency) {
    forall a, b :: HasEdge(e, a, b) ==> e[a][b] >= 0.0
  }

  /** No stored cost is above the bound. */
  ghost predicate Bounded(e: Adjacency, bound: real) {
    forall a, b :: HasEdge(e, a, b) ==> e[a][b] <= bound
  }

  /** Every endpoint of every edge is one of the given names. */
  ghost predicate Within(e: Adjacency, names: set<string>) {
    forall a {:trigger e[a]} :: a in e ==> a in names && e[a].Keys <= names
  }

  /** The row of a, created empty when absent (edges[a] = {}). */
  function Row(e: Adjacency, a: string): map<string, real> {
    if a in e then e[a] else map[]
  }

  /** add_edge's update: edges[a][b] = w and edges[b][a] = w, creating missing rows. */
  function Link(e: Adjacency, a: string, b: string, w: real): (r: Adjacency)
    requires a != b
    ensures r.Keys == e.Keys + {a, b}
    ensures HasEdge(r, a, b) && r[a][b] == w && HasEdge(r, b, a) && r[b][a] == w
    ensures forall x, y :: (x, y) != (a, b) && (x, y) != (b, a) ==>
              (HasEdge(r, x, y) <==> HasEdge(e, x, y)) && (HasEdge(e, x, y) ==> r[x][y] == e[x][y])
  {
    var e1 := e[a := Row(e, a)[b := w]];
    e1[b := Row(e1, b)[a := w]]
  }

  /** Linking two distinct rooms keeps the adjacency symmetric and free of self-loops. */
  lemma LinkPreservesShape(e: Adjacency, a: string, b: string, w: real)
    requires a != b && Symmetric(e) && NoSelfLoops(e)
    ensures Symmetric(Link(e, a, b, w)) && NoSelfLoops(Link(e, a, b, w))
  {
  }

  /** A path: at least one room, each consecutive pair joined by an edge. */
  ghost predicate IsPath(e: Adjacency, p: seq<string>) {
    |p| >= 1 && forall i :: 0 <= i < |p| - 1 ==> HasEdge(e, p[i], p[i + 1])
  }

  ghost predicate IsPathBetween(e: Adjacency, s: string, t: string, p: seq<string>) {
    IsPath(e, p) && p[0] == s && p[|p| - 1] == t
  }

  /** The sum of the edge costs along a path. */
  ghost function PathCost(e: Adjacency, p: seq<string>): real
    requires IsPath(e, p)
    decreases |p|
  {
    if |p| == 1 then 0.0
    else
      assert HasEdge(e, p[0], p[1]);
      e[p[0]][p[1]] + PathCost(e, p[1..])
  }

  /** c is at most the cost of every path from s to t. */
  ghost predicate IsShortest(e: Adjacency, s: string, t: string, c: real) {
    forall p :: IsPathBetween(e, s, t, p) ==> c <= PathCost(e, p)
  }

  lemma {:induction false} PathCostNonNegative(e: Adjacency, p: seq<string>)
    requires NonNegative(e) && IsPath(e, p)
    ensures PathCost(e, p) >= 0.0
  {
    if |p| > 1 {
      PathCostNonNegative(e, p[1..]);
    }
  }

  /** Cutting a path at room k gives two paths whose costs add up to the whole. */
  lemma {:induction false} PathCostSplit(e: Adjacency, p: seq<string>, k: nat)
    requires IsPath(e, p) && k < |p|
    ensures IsPath(e, p[..k + 1]) && IsPath(e, p[k..])
    ensures PathCost(e, p) == PathCost(e, p[..k + 1]) + PathCost(e, p[k..])
  {
    if k > 0 {
      var q := p[1..];
      PathCostSplit(e, q, k - 1);
      assert q[..k] == p[1..k + 1] == p[..k + 1][1..];
      assert q[k - 1..] == p[k..];
    }
  }

  /** A path that ends one edge past room k costs the prefix up to k plus that edge, at least. */
  lemma PathCostThroughEdge(e: Adjacency, p: seq<string>, k: nat)
    requires NonNegative(e) && IsPath(e, p) && 1 <= k < |p|
    ensures IsPath(e, p[..k]) && HasEdge(e, p[k - 1], p[k])
    ensures PathCost(e, p[..k]) + e[p[k - 1]][p[k]] <= PathCost(e, p)
  {
    PathCostSplit(e, p, k);
    var q := p[..k + 1];
    PathCostSplit(e, q, k - 1);
    assert q[..k] == p[..k];
    assert q[k - 1..] == [p[k - 1], p[k]];
    PathCostNonNegative(e, p[k..]);
  }

  /** A path from inside a set to outside it has an edge that leaves the set. */
  lemma {:induction false} Crossing(p: seq<string>, inside: set<string>) returns (k: nat)
    requires |p| >= 1 && p[0] in inside && p[|p| - 1] !in inside
    ensures 1 <= k < |p| && p[k - 1] in inside && p[k] !in inside
  {
    if p[1] !in inside {
      k := 1;
    } else {
      var j := Crossing(p[1..], inside);
      k := j + 1;
    }
  }
}
