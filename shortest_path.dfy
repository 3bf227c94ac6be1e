/** dijkstra (aueb_pathfinding/ultils.py): shortest path between two classrooms of a University. */
module ShortestPath {
  import opened Options
  import opened Rooms
  import opened Graphs
  import opened Campus

  /** A tentative distance: a finite cost, or math.inf. */
  datatype Dist = Fin(d: real) | Inf

  /** The < that min() and the relaxation test apply to distances; inf is above every cost. */
  predicate Less(a: Dist, b: Dist) {
    match a
    case Inf => false
    case Fin(x) => b.Inf? || x < b.d
  }

  predicate Le(a: Dist, b: Dist) {
    !Less(b, a)
  }

  /** Less is a strict total order on distances with inf above every finite cost; Le is its reflexive closure. */
  lemma LessIsStrictTotalOrder(a: Dist, b: Dist, c: Dist)
    ensures !Less(a, a)
    ensures Less(a, b) && Less(b, c) ==> Less(a, c)
    ensures a == b || Less(a, b) || Less(b, a)
    ensures !Less(Inf, a) && (a.Fin? ==> Less(a, Inf))
    ensures Le(a, b) <==> a == b || Less(a, b)
  {
  }

  /** The names of a list of classrooms. */
  function NamesOf(path: seq<Classroom>): (r: seq<string>)
    ensures |r| == |path| && forall i :: 0 <= i < |path| ==> r[i] == path[i].name
  {
    seq(|path|, i requires 0 <= i < |path| => path[i].name)
  }

  /** The dist and previous tables before the main loop: inf and None everywhere, 0 at the start. */
  method Initialise(nodes: seq<Classroom>, start: Classroom)
    returns (dist: map<string, Dist>, previous: map<string, Option<Classroom>>)
    ensures dist.Keys == NameSet(nodes) + {start.name} && previous.Keys == NameSet(nodes)
    ensures forall n :: n in dist ==> dist[n] == if n == start.name then Fin(0.0) else Inf
    ensures forall n :: n in previous ==> previous[n] == None
  {
    dist, previous := map[], map[];
    for i := 0 to |nodes|
      invariant dist.Keys == previous.Keys == NameSet(nodes[..i])
      invariant forall n :: n in dist ==> dist[n] == Inf
      invariant forall n :: n in previous ==> previous[n] == None
    {
      assert NameSet(nodes[..i + 1]) == NameSet(nodes[..i]) + {nodes[i].name} by {
        assert forall j :: 0 <= j < i ==> nodes[..i + 1][j] == nodes[..i][j];
      }
      dist := dist[nodes[i].name := Inf];
      previous := previous[nodes[i].name := None];
    }
    assert nodes[..|nodes|] == nodes;
    dist := dist[start.name := Fin(0.0)];
  }

  /**
   * nodes[k] is unvisited, no unvisited node among nodes[..bound] has a smaller distance,
   * and every unvisited node before it has a strictly larger one (min keeps the first minimum).
   */
  ghost predicate FirstMinimum(nodes: seq<Classroom>, dist: map<string, Dist>, visited: set<string>, k: nat, bound: nat)
    requires NameSet(nodes) <= dist.Keys
  {
    && k < bound <= |nodes|
    && nodes[k].name !in visited
    && forall j :: 0 <= j < bound && nodes[j].name !in visited ==>
         Le(dist[nodes[k].name], dist[nodes[j].name])
         && (j < k ==> Less(dist[nodes[k].name], dist[nodes[j].name]))
  }

  /** min((n for n in nodes if not visited[n]), key=dist, default=None), as an index into nodes. */
  method SelectMin(nodes: seq<Classroom>, dist: map<string, Dist>, visited: set<string>) returns (u: Option<nat>)
    requires NameSet(nodes) <= dist.Keys
    ensures u.None? <==> forall j :: 0 <= j < |nodes| ==> nodes[j].name in visited
    ensures u.Some? ==> FirstMinimum(nodes, dist, visited, u.value, |nodes|)
  {
    u := None;
    for i := 0 to |nodes|
      invariant u.None? <==> forall j :: 0 <= j < i ==> nodes[j].name in visited
      invariant u.Some? ==> FirstMinimum(nodes, dist, visited, u.value, i)
    {
      var n := nodes[i].name;
      if n !in visited && (u.None? || Less(dist[n], dist[nodes[u.value].name])) {
        u := Some(i);
      }
    }
  }

  /**
   * The tables after relaxing the edges out of u: an unvisited neighbour v whose distance
   * dist[u] + edges[u][v] beats gets that distance and predecessor u; nothing else changes.
   */
  ghost predicate RelaxResult(e: Adjacency, u: Classroom, dist: map<string, Dist>,
                              previous: map<string, Option<Classroom>>, visited: set<string>,
                              dist': map<string, Dist>, previous': map<string, Option<Classroom>>)
  {
    && u.name in dist && dist[u.name].Fin?
    && dist.Keys == previous.Keys
    && dist'.Keys == dist.Keys && previous'.Keys == previous.Keys
    && forall v {:trigger previous'[v]} :: v in dist ==>
         if HasEdge(e, u.name, v) && v !in visited && Less(Fin(dist[u.name].d + e[u.name][v]), dist[v])
         then dist'[v] == Fin(dist[u.name].d + e[u.name][v]) && previous'[v] == Some(u)
         else dist'[v] == dist[v] && previous'[v] == previous[v]
  }

  /** The relaxation loop over graph.get_neighbors(u). */
  method Relax(e: Adjacency, u: Classroom, dist: map<string, Dist>,
               previous: map<string, Option<Classroom>>, visited: set<string>)
    returns (dist': map<string, Dist>, previous': map<string, Option<Classroom>>)
    requires u.name in visited && u.name in dist && dist[u.name].Fin?
    requires Neighbours(e, u.name) <= dist.Keys && dist.Keys == previous.Keys
    ensures RelaxResult(e, u, dist, previous, visited, dist', previous')
    ensures forall v :: v in dist ==> Le(dist'[v], dist[v])
    ensures forall v {:trigger previous'[v]} :: v in visited && v in dist ==> dist'[v] == dist[v] && previous'[v] == previous[v]
    ensures forall v :: HasEdge(e, u.name, v) && v !in visited ==> Le(dist'[v], Fin(dist[u.name].d + e[u.name][v]))
  {
    dist', previous' := dist, previous;
    var todo := Neighbours(e, u.name);
    while todo != {}
      invariant todo <= Neighbours(e, u.name)
      invariant dist'.Keys == dist.Keys && previous'.Keys == previous.Keys
      invariant forall v :: v in dist ==>
         if v !in todo && HasEdge(e, u.name, v) && v !in visited && Less(Fin(dist[u.name].d + e[u.name][v]), dist[v])
         then dist'[v] == Fin(dist[u.name].d + e[u.name][v]) && previous'[v] == Some(u)
         else dist'[v] == dist[v] && previous'[v] == previous[v]
      decreases todo
    {
      var v :| v in todo;
      if v !in visited {
        var alt := Fin(dist'[u.name].d + e[u.name][v]);
        if Less(alt, dist'[v]) {
          dist' := dist'[v := alt];
          previous' := previous'[v := Some(u)];
        }
      }
      todo := todo - {v};
    }
  }

  /** Each predecessor was visited earlier than the node pointing at it, so the links end. */
  ghost predicate PredecessorsRanked(previous: map<string, Option<Classroom>>, rank: map<string, nat>) {
    forall n {:trigger previous[n]} :: n in previous && previous[n].Some? ==>
      previous[n].value.name in previous && previous[n].value.name in rank
      && (n in rank ==> rank[previous[n].value.name] < rank[n])
  }

  /** The path-reconstruction loop: follow previous from the target until None. */
  method WalkBack(previous: map<string, Option<Classroom>>, target: Classroom, ghost rank: map<string, nat>)
    returns (path: seq<Classroom>)
    requires target.name in previous
    requires PredecessorsRanked(previous, rank)
    ensures |path| >= 1 && path[|path| - 1] == target
    ensures forall i :: 0 <= i < |path| ==> path[i].name in previous
    ensures previous[path[0].name] == None
    ensures forall i :: 0 <= i < |path| - 1 ==> previous[path[i + 1].name] == Some(path[i])
    ensures previous[target.name] == None ==> path == [target]
  {
    path := [];
    var current := Some(target);
    while current.Some?
      invariant current.Some? ==> current.value.name in previous
      invariant path == [] ==> current == Some(target)
      invariant forall i :: 0 <= i < |path| ==> path[i].name in previous
      invariant path != [] ==> path[|path| - 1] == target && previous[path[0].name] == current
      invariant forall i :: 0 <= i < |path| - 1 ==> previous[path[i + 1].name] == Some(path[i])
      invariant previous[target.name] == None && path != [] ==> path == [target]
      decreases if current.None? then 0 else if current.value.name in rank then 1 else 2,
                if current.Some? && current.value.name in rank then rank[current.value.name] else 0
    {
      path := [current.value] + path;
      current := previous[current.value.name];
    }
  }

  /**
   * Every recorded predecessor p of n is joined to n by an edge and dist[n] == dist[p] + cost;
   * a node with a finite distance and no predecessor is the start.
   */
  ghost predicate PredecessorLinks(e: Adjacency, s: string, dist: map<string, Dist>,
                                   previous: map<string, Option<Classroom>>)
  {
    forall n {:trigger previous[n]} :: n in previous ==>
      (previous[n].None? ==> (n in dist && dist[n].Fin? ==> n == s))
      && (previous[n].Some? ==>
            var p := previous[n].value.name;
            p in dist && dist[p].Fin? && HasEdge(e, p, n) && n in dist
            && dist[n] == Fin(dist[p].d + e[p][n]))
  }

  ghost predicate PredecessorsAreNodes(previous: map<string, Option<Classroom>>, nodes: seq<Classroom>) {
    forall n {:trigger previous[n]} :: n in previous && previous[n].Some? ==> previous[n].value in nodes
  }

  /** Every edge from a visited node to an unvisited one has been relaxed. */
  ghost predicate Relaxed(e: Adjacency, dist: map<string, Dist>, visited: set<string>) {
    forall x, y {:trigger HasEdge(e, x, y)} :: x in visited && HasEdge(e, x, y) && y !in visited ==>
      x in dist && y in dist && dist[x].Fin? && Le(dist[y], Fin(dist[x].d + e[x][y]))
  }

  /**
   * The shape of the dist, previous and visited tables: keyed by the graph's names, the start
   * at distance 0, all other distances inf and no predecessors before the first visit, the
   * start visited first, finite distances on visited nodes, the target not yet visited.
   */
  ghost predicate Tables(names: set<string>, s: string, t: string, dist: map<string, Dist>,
                         previous: map<string, Option<Classroom>>, visited: set<string>)
  {
    && dist.Keys == names && previous.Keys == names && visited <= names
    && s in names && t in names && t !in visited
    && dist[s] == Fin(0.0)
    && (visited == {} ==> forall n {:trigger dist[n]} :: n in names ==> previous[n] == None && (n != s ==> dist[n] == Inf))
    && (visited != {} ==> s in visited)
    && (forall n :: n in visited ==> dist[n].Fin?)
  }

  /** rank numbers the visited nodes in visiting order, and predecessors come earlier. */
  ghost predicate Ranks(previous: map<string, Option<Classroom>>, visited: set<string>, rank: map<string, nat>) {
    && rank.Keys == visited
    && (forall n :: n in rank ==> rank[n] < |visited|)
    && PredecessorsRanked(previous, rank)
  }

  /** With non-negative costs, every visited node carries its shortest distance. */
  ghost predicate Settled(e: Adjacency, s: string, dist: map<string, Dist>, visited: set<string>)
    requires forall n :: n in visited ==> n in dist && dist[n].Fin?
  {
    NonNegative(e) ==> forall v :: v in visited ==> IsShortest(e, s, v, dist[v].d)
  }

  /** What holds at the head of the main loop. */
  ghost predicate SearchInvariant(nodes: seq<Classroom>, names: set<string>, e: Adjacency, s: string, t: string,
                                  dist: map<string, Dist>, previous: map<string, Option<Classroom>>,
                                  visited: set<string>, rank: map<string, nat>)
  {
    && Tables(names, s, t, dist, previous, visited)
    && Ranks(previous, visited, rank)
    && PredecessorLinks(e, s, dist, previous)
    && PredecessorsAreNodes(previous, nodes)
    && Relaxed(e, dist, visited)
    && Settled(e, s, dist, visited)
  }

  /** The node min() selects has its shortest distance (the classic Dijkstra argument). */
  lemma SelectedIsShortest(nodes: seq<Classroom>, names: set<string>, e: Adjacency, s: string, t: string,
                           dist: map<string, Dist>, previous: map<string, Option<Classroom>>,
                           visited: set<string>, rank: map<string, nat>, u: string)
    requires SearchInvariant(nodes, names, e, s, t, dist, previous, visited, rank)
    requires Within(e, names) && NonNegative(e)
    requires u in names && u !in visited && dist[u].Fin?
    requires forall n :: n in names && n !in visited ==> Le(dist[u], dist[n])
    ensures IsShortest(e, s, u, dist[u].d)
  {
    if visited == {} {
      assert u == s;
      forall p | IsPathBetween(e, s, u, p) ensures dist[u].d <= PathCost(e, p) {
        PathCostNonNegative(e, p);
      }
    } else {
      forall p | IsPathBetween(e, s, u, p) ensures dist[u].d <= PathCost(e, p) {
        var k := Crossing(p, visited);
        PathCostThroughEdge(e, p, k);
        var x, y := p[k - 1], p[k];
        assert IsPathBetween(e, s, x, p[..k]);
        assert dist[x].d <= PathCost(e, p[..k]);
        assert Le(dist[y], Fin(dist[x].d + e[x][y]));
        assert Le(dist[u], dist[y]);
      }
    }
  }

  /** When every unvisited node is at distance inf, no path leads from the start to the target. */
  lemma NoPathBeyond(nodes: seq<Classroom>, names: set<string>, e: Adjacency, s: string, t: string,
                     dist: map<string, Dist>, previous: map<string, Option<Classroom>>,
                     visited: set<string>, rank: map<string, nat>)
    requires SearchInvariant(nodes, names, e, s, t, dist, previous, visited, rank)
    requires Within(e, names) && s in visited
    requires forall n :: n in names && n !in visited ==> dist[n] == Inf
    ensures forall p :: !IsPathBetween(e, s, t, p)
  {
    forall p ensures !IsPathBetween(e, s, t, p) {
      if IsPathBetween(e, s, t, p) {
        var k := Crossing(p, visited);
        assert false;
      }
    }
  }

  /** Relaxing the edges out of the newly visited u keeps the predecessor links. */
  lemma StepKeepsLinks(e: Adjacency, s: string, dist: map<string, Dist>,
                       previous: map<string, Option<Classroom>>, visited: set<string>,
                       rank: map<string, nat>, u: Classroom,
                       dist': map<string, Dist>, previous': map<string, Option<Classroom>>)
    requires PredecessorLinks(e, s, dist, previous) && PredecessorsRanked(previous, rank)
    requires rank.Keys == visited && u.name !in visited
    requires RelaxResult(e, u, dist, previous, visited + {u.name}, dist', previous')
    ensures PredecessorLinks(e, s, dist', previous')
  {
    assert previous'[u.name] == previous[u.name];
    forall n | n in previous' && previous'[n].None? ensures n in dist' && dist'[n].Fin? ==> n == s {
      assert previous'[n] == previous[n] && dist'[n] == dist[n];
    }
    forall n | n in previous' && previous'[n].Some?
      ensures var p := previous'[n].value.name;
                p in dist' && dist'[p].Fin? && HasEdge(e, p, n) && n in dist'
                && dist'[n] == Fin(dist'[p].d + e[p][n])
    {
      if previous[n].Some? {
        var p := previous[n].value.name;
        assert p in rank && previous'[p] == previous[p];
      }
      LinkKeptAt(e, u.name, dist, previous, dist', previous', n);
    }
  }

  /** The predecessor link of one node survives the relaxation of u's edges. */
  lemma LinkKeptAt(e: Adjacency, u: string, dist: map<string, Dist>, previous: map<string, Option<Classroom>>,
                   dist': map<string, Dist>, previous': map<string, Option<Classroom>>, n: string)
    requires n in dist && n in dist' && n in previous && n in previous' && previous'[n].Some?
    requires u in dist && u in dist' && dist'[u] == dist[u] && dist[u].Fin?
    requires || (previous'[n] == previous[n] && dist'[n] == dist[n])
             || (HasEdge(e, u, n) && previous'[n].value.name == u && dist'[n] == Fin(dist[u].d + e[u][n]))
    requires previous[n].Some? ==>
               var p := previous[n].value.name;
               p in dist && p in dist' && dist'[p] == dist[p] && dist[p].Fin? && HasEdge(e, p, n)
               && dist[n] == Fin(dist[p].d + e[p][n])
    ensures var p := previous'[n].value.name;
              p in dist' && dist'[p].Fin? && HasEdge(e, p, n) && dist'[n] == Fin(dist'[p].d + e[p][n])
  {
  }

  /** Visiting u with the next rank keeps every predecessor ranked below its successor. */
  lemma StepKeepsRanks(dist: map<string, Dist>, previous: map<string, Option<Classroom>>,
                       visited: set<string>, rank: map<string, nat>, u: Classroom,
                       e: Adjacency, dist': map<string, Dist>, previous': map<string, Option<Classroom>>)
    requires Ranks(previous, visited, rank) && u.name !in visited && u.name in previous
    requires RelaxResult(e, u, dist, previous, visited + {u.name}, dist', previous')
    ensures Ranks(previous', visited + {u.name}, rank[u.name := |visited|])
  {
    CardinalityAdd(visited, u.name);
  }

  /** After relaxing u, every edge out of a visited node (u included) is relaxed. */
  lemma StepKeepsRelaxed(e: Adjacency, dist: map<string, Dist>, previous: map<string, Option<Classroom>>,
                         visited: set<string>, u: Classroom,
                         dist': map<string, Dist>, previous': map<string, Option<Classroom>>)
    requires Relaxed(e, dist, visited) && u.name !in visited
    requires forall n :: n in visited ==> n in dist && dist[n].Fin?
    requires forall n :: HasEdge(e, u.name, n) ==> n in dist
    requires RelaxResult(e, u, dist, previous, visited + {u.name}, dist', previous')
    ensures Relaxed(e, dist', visited + {u.name})
  {
    var visited' := visited + {u.name};
    forall x, y | x in visited' && HasEdge(e, x, y) && y !in visited'
      ensures x in dist' && y in dist' && dist'[x].Fin? && Le(dist'[y], Fin(dist'[x].d + e[x][y]))
    {
      assert dist'[x] == dist[x];
      if x != u.name {
        assert Le(dist[y], Fin(dist[x].d + e[x][y]));
      }
    }
  }

  lemma CardinalityAdd(visited: set<string>, n: string)
    requires n !in visited
    ensures |visited + {n}| == |visited| + 1
  {
  }

  /** Relaxing u records only u, a classroom of the graph, as a new predecessor. */
  lemma StepKeepsNodes(nodes: seq<Classroom>, e: Adjacency, u: Classroom, dist: map<string, Dist>,
                       previous: map<string, Option<Classroom>>, visited: set<string>,
                       dist': map<string, Dist>, previous': map<string, Option<Classroom>>)
    requires PredecessorsAreNodes(previous, nodes) && u in nodes
    requires RelaxResult(e, u, dist, previous, visited, dist', previous')
    ensures PredecessorsAreNodes(previous', nodes)
  {
    forall n | n in previous' && previous'[n].Some? ensures previous'[n].value in nodes {
      assert previous'[n] == previous[n] || previous'[n] == Some(u);
    }
  }

  /** Visiting u keeps the shape of the tables. */
  lemma StepKeepsTables(names: set<string>, e: Adjacency, s: string, t: string,
                        dist: map<string, Dist>, previous: map<string, Option<Classroom>>,
                        visited: set<string>, u: Classroom,
                        dist': map<string, Dist>, previous': map<string, Option<Classroom>>)
    requires Tables(names, s, t, dist, previous, visited)
    requires u.name in names && u.name !in visited && u.name != t && dist[u.name].Fin?
    requires RelaxResult(e, u, dist, previous, visited + {u.name}, dist', previous')
    ensures Tables(names, s, t, dist', previous', visited + {u.name})
    ensures forall n :: n in visited + {u.name} ==> dist'[n] == dist[n]
  {
    if visited == {} {
      assert u.name == s;
    }
    assert previous'[s] == previous[s];
    forall n | n in visited + {u.name} ensures dist'[n] == dist[n] {
      assert previous'[n] == previous[n];
    }
  }

  /** Visiting u, whose distance is already shortest, keeps every visited distance shortest. */
  lemma StepKeepsSettled(e: Adjacency, s: string, dist: map<string, Dist>, visited: set<string>, u: string,
                         dist': map<string, Dist>)
    requires forall n :: n in visited ==> n in dist && dist[n].Fin?
    requires Settled(e, s, dist, visited)
    requires u in dist && dist[u].Fin? && (NonNegative(e) ==> IsShortest(e, s, u, dist[u].d))
    requires forall n :: n in visited + {u} ==> n in dist' && dist'[n] == dist[n]
    ensures forall n :: n in visited + {u} ==> n in dist' && dist'[n].Fin?
    ensures Settled(e, s, dist', visited + {u})
  {
  }

  /** One iteration of the main loop (visit u, relax its edges) keeps the invariant. */
  lemma StepPreserves(nodes: seq<Classroom>, names: set<string>, e: Adjacency, s: string, t: string,
                      dist: map<string, Dist>, previous: map<string, Option<Classroom>>,
                      visited: set<string>, rank: map<string, nat>, u: Classroom,
                      dist': map<string, Dist>, previous': map<string, Option<Classroom>>)
    requires SearchInvariant(nodes, names, e, s, t, dist, previous, visited, rank)
    requires Within(e, names)
    requires u in nodes && u.name in names && u.name !in visited && u.name != t && dist[u.name].Fin?
    requires NonNegative(e) ==> IsShortest(e, s, u.name, dist[u.name].d)
    requires RelaxResult(e, u, dist, previous, visited + {u.name}, dist', previous')
    ensures SearchInvariant(nodes, names, e, s, t, dist', previous', visited + {u.name}, rank[u.name := |visited|])
  {
    StepKeepsTables(names, e, s, t, dist, previous, visited, u, dist', previous');
    StepKeepsSettled(e, s, dist, visited, u.name, dist');
    StepKeepsLinks(e, s, dist, previous, visited, rank, u, dist', previous');
    StepKeepsRanks(dist, previous, visited, rank, u, e, dist', previous');
    StepKeepsRelaxed(e, dist, previous, visited, u, dist', previous');
    StepKeepsNodes(nodes, e, u, dist, previous, visited + {u.name}, dist', previous');
  }

  /** The predecessor links followed by WalkBack form a path whose cost is the difference of distances. */
  lemma {:induction false} ChainIsPath(e: Adjacency, s: string, dist: map<string, Dist>,
                                       previous: map<string, Option<Classroom>>, path: seq<Classroom>)
    requires PredecessorLinks(e, s, dist, previous)
    requires |path| >= 1 && forall i :: 0 <= i < |path| ==> path[i].name in previous
    requires forall i :: 0 <= i < |path| - 1 ==> previous[path[i + 1].name] == Some(path[i])
    requires path[|path| - 1].name in dist && dist[path[|path| - 1].name].Fin?
    ensures IsPath(e, NamesOf(path))
    ensures path[0].name in dist && dist[path[0].name].Fin?
    ensures PathCost(e, NamesOf(path)) == dist[path[|path| - 1].name].d - dist[path[0].name].d
  {
    if |path| > 1 {
      ChainIsPath(e, s, dist, previous, path[1..]);
      assert NamesOf(path)[1..] == NamesOf(path[1..]);
      assert previous[path[1].name] == Some(path[0]);
    }
  }

  /**
   * The chain WalkBack collects, ending at a target with a finite distance, starts at the
   * start, runs along stored edges, costs exactly dist[target], and passes only through
   * classrooms of the graph.
   */
  lemma ChainFromStart(nodes: seq<Classroom>, e: Adjacency, s: string, dist: map<string, Dist>,
                       previous: map<string, Option<Classroom>>, target: Classroom, path: seq<Classroom>)
    requires PredecessorLinks(e, s, dist, previous) && PredecessorsAreNodes(previous, nodes)
    requires s in dist && dist[s] == Fin(0.0) && target.name in dist && dist[target.name].Fin?
    requires |path| >= 1 && path[|path| - 1] == target
    requires forall i :: 0 <= i < |path| ==> path[i].name in previous
    requires previous[path[0].name] == None
    requires forall i :: 0 <= i < |path| - 1 ==> previous[path[i + 1].name] == Some(path[i])
    ensures path[0].name == s
    ensures IsPathBetween(e, s, target.name, NamesOf(path))
    ensures dist[target.name] == Fin(PathCost(e, NamesOf(path)))
    ensures forall i :: 0 <= i < |path| - 1 ==> path[i] in nodes
  {
    ChainIsPath(e, s, dist, previous, path);
    forall i | 0 <= i < |path| - 1 ensures path[i] in nodes {
      assert previous[path[i + 1].name] == Some(path[i]);
    }
  }

  /** The tables Initialise builds satisfy the loop invariant before any node is visited. */
  lemma InitialInvariant(nodes: seq<Classroom>, e: Adjacency, start: Classroom, t: string,
                         dist: map<string, Dist>, previous: map<string, Option<Classroom>>)
    requires start.name in NameSet(nodes) && t in NameSet(nodes)
    requires dist.Keys == NameSet(nodes) + {start.name} && previous.Keys == NameSet(nodes)
    requires forall n :: n in dist ==> dist[n] == if n == start.name then Fin(0.0) else Inf
    requires forall n :: n in previous ==> previous[n] == None
    ensures SearchInvariant(nodes, NameSet(nodes), e, start.name, t, dist, previous, {}, map[])
  {
    assert dist.Keys == NameSet(nodes);
  }

  /** The first minimum SelectMin finds is a minimum over all unvisited names of the graph. */
  lemma MinimumOverNames(nodes: seq<Classroom>, dist: map<string, Dist>, visited: set<string>, k: nat)
    requires NameSet(nodes) <= dist.Keys && FirstMinimum(nodes, dist, visited, k, |nodes|)
    ensures nodes[k] in nodes && nodes[k].name in NameSet(nodes)
    ensures forall n :: n in NameSet(nodes) && n !in visited ==> Le(dist[nodes[k].name], dist[n])
  {
    forall n | n in NameSet(nodes) && n !in visited ensures Le(dist[nodes[k].name], dist[n]) {
      var j :| 0 <= j < |nodes| && nodes[j].name == n;
    }
  }

  /** SelectMin finds nothing only when every name of the graph has been visited. */
  lemma NothingLeft(nodes: seq<Classroom>, visited: set<string>)
    requires forall j :: 0 <= j < |nodes| ==> nodes[j].name in visited
    ensures NameSet(nodes) <= visited
  {
  }

  /**
   * Initialisation and the main loop of dijkstra: the tables it leaves behind. Either the
   * target is unreachable and still at inf, or it was selected with a finite distance that is
   * shortest when costs are non-negative; the predecessor links lead back to the start.
   */
  method Search(nodes: seq<Classroom>, e: Adjacency, start: Classroom, target: Classroom)
    returns (dist: map<string, Dist>, previous: map<string, Option<Classroom>>, ghost rank: map<string, nat>)
    requires start.name in NameSet(nodes) && target.name in NameSet(nodes)
    requires Within(e, NameSet(nodes))
    ensures start.name in dist && dist[start.name] == Fin(0.0)
    ensures target.name in dist && target.name in previous
    ensures dist[target.name] == Inf ==> forall p :: !IsPathBetween(e, start.name, target.name, p)
    ensures dist[target.name].Fin? && NonNegative(e) ==> IsShortest(e, start.name, target.name, dist[target.name].d)
    ensures start.name == target.name ==> previous[target.name] == None
    ensures PredecessorLinks(e, start.name, dist, previous)
    ensures PredecessorsAreNodes(previous, nodes)
    ensures PredecessorsRanked(previous, rank)
  {
    var s, t := start.name, target.name;
    ghost var names := NameSet(nodes);
    dist, previous := Initialise(nodes, start);
    var visited: set<string> := {};
    rank := map[];
    InitialInvariant(nodes, e, start, t, dist, previous);
    while true
      invariant SearchInvariant(nodes, names, e, s, t, dist, previous, visited, rank)
      decreases names - visited
    {
      var choice := SelectMin(nodes, dist, visited);
      if choice.None? {
        NothingLeft(nodes, visited);
        assert false;
      }
      var u := nodes[choice.value];
      MinimumOverNames(nodes, dist, visited, choice.value);
      if dist[u.name] == Inf {
        NoPathBeyond(nodes, names, e, s, t, dist, previous, visited, rank);
        return;
      }
      if u.name == t {
        if NonNegative(e) {
          SelectedIsShortest(nodes, names, e, s, t, dist, previous, visited, rank, t);
        }
        return;
      }
      if NonNegative(e) {
        SelectedIsShortest(nodes, names, e, s, t, dist, previous, visited, rank, u.name);
      }
      var dist', previous' := Relax(e, u, dist, previous, visited + {u.name});
      StepPreserves(nodes, names, e, s, t, dist, previous, visited, rank, u, dist', previous');
      rank := rank[u.name := |visited|];
      dist, previous, visited := dist', previous', visited + {u.name};
    }
  }

  /**
   * dijkstra(graph, start, target): ([], inf) when no path exists, otherwise a path of
   * classrooms from start to target along stored edges, and its cost; with non-negative
   * costs no path is cheaper. A self-query returns [target] at cost 0.
   */
  method Dijkstra(g: University, start: Classroom, target: Classroom) returns (path: seq<Classroom>, cost: Dist)
    requires start.name in NameSet(g.nodes) && target.name in NameSet(g.nodes)
    requires Within(g.edges, NameSet(g.nodes))
    ensures path == [] <==> cost == Inf
    ensures path == [] <==> forall p :: !IsPathBetween(g.edges, start.name, target.name, p)
    ensures path != [] ==> path[0].name == start.name && path[|path| - 1] == target
    ensures path != [] ==> IsPathBetween(g.edges, start.name, target.name, NamesOf(path))
                           && cost == Fin(PathCost(g.edges, NamesOf(path)))
    ensures forall i :: 0 <= i < |path| - 1 ==> path[i] in g.nodes
    ensures path != [] && NonNegative(g.edges) ==> IsShortest(g.edges, start.name, target.name, cost.d)
    ensures start.name == target.name ==> path == [target] && cost == Fin(0.0)
  {
    var dist, previous, rank := Search(g.nodes, g.edges, start, target);
    if dist[target.name] == Inf {
      return [], Inf;
    }
    path := WalkBack(previous, target, rank);
    ChainFromStart(g.nodes, g.edges, start.name, dist, previous, target, path);
    cost := dist[target.name];
  }
}
