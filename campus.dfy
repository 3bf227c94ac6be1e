/** The campus graph (aueb_pathfinding/classes.py, class University). */
module Campus {
  import opened Rooms
  import opened Metric
  import opened Graphs
  import opened Rounding

  /** max_distance when the constructor is given none. */
  const DefaultMaxDistance: real := 21.0

  /** What add_edge reports: it prints a message and returns early in the two rejecting cases. */
  datatype EdgeStatus = Added | SameNode | TooFar

  /**
   * The shape add_edge maintains: symmetric, no self-loops, non-negative costs, and no
   * cost above the rounded threshold (the threshold test is made before rounding).
   */
  ghost predicate WellFormed(e: Adjacency, maxDistance: real) {
    Symmetric(e) && NoSelfLoops(e) && NonNegative(e) && Bounded(e, Round2(maxDistance))
  }

  /** When the threshold has at most two decimals no stored cost exceeds the threshold itself. */
  lemma WellFormedWithinTwoDecimalBound(e: Adjacency, hundredths: int)
    requires WellFormed(e, hundredths as real / 100.0)
    ensures Bounded(e, hundredths as real / 100.0)
  {
    Round2Fixed(hundredths);
  }

  /** Storing an edge whose rounded cost is within the rounded threshold keeps the shape. */
  lemma LinkPreservesWellFormed(e: Adjacency, a: string, b: string, w: real, maxDistance: real)
    requires WellFormed(e, maxDistance) && a != b && 0.0 <= w <= Round2(maxDistance)
    ensures WellFormed(Link(e, a, b, w), maxDistance)
  {
    LinkPreservesShape(e, a, b, w);
  }

  /** The four in-place assignments of add_edge build the same adjacency as Link. */
  lemma StepwiseLink(e0: Adjacency, e1: Adjacency, e2: Adjacency, e3: Adjacency, e4: Adjacency,
                     a: string, b: string, w: real)
    requires a != b
    requires e1 == if a in e0 then e0 else e0[a := map[]]
    requires e2 == if b in e1 then e1 else e1[b := map[]]
    requires a in e2 && e3 == e2[a := e2[a][b := w]]
    requires b in e3 && e4 == e3[b := e3[b][a := w]]
    ensures e4 == Link(e0, a, b, w)
  {
  }

  class University {
    var nodes: seq<Classroom>
    var edges: Adjacency
    var maxDistance: real

    ghost predicate Valid()
      reads this
    {
      WellFormed(edges, maxDistance)
    }

    /** University(nodes, edges, max_distance): copies its arguments; the type checks are Dafny types. */
    constructor (nodes: seq<Classroom> := [], edges: Adjacency := map[], maxDistance: real := DefaultMaxDistance)
      ensures this.nodes == nodes && this.edges == edges && this.maxDistance == maxDistance
      ensures Valid() <==> WellFormed(edges, maxDistance)
    {
      this.nodes := nodes;
      this.edges := edges;
      this.maxDistance := maxDistance;
    }

    /** add_node: appends the classroom; nothing else changes. */
    method AddNode(node: Classroom)
      modifies this
      ensures nodes == old(nodes) + [node]
      ensures edges == old(edges) && maxDistance == old(maxDistance)
      ensures old(Valid()) ==> Valid()
    {
      nodes := nodes + [node];
    }

    /**
     * add_edge: skips a pair of equal rooms and a pair farther apart than max_distance
     * (cost computed with the default floor weight); otherwise stores the rounded cost
     * in both directions. The class invariant is preserved.
     */
    method AddEdge(node1: Classroom, node2: Classroom, hypot: (int, int) -> real) returns (status: EdgeStatus)
      requires IsHypot(hypot)
      modifies this
      ensures nodes == old(nodes) && maxDistance == old(maxDistance)
      ensures status == SameNode <==> SameRoom(node1, node2)
      ensures status == TooFar <==>
                !SameRoom(node1, node2) && Distance(node1, node2, DefaultFloorWeight, hypot) > maxDistance
      ensures status != Added ==> edges == old(edges)
      ensures status == Added ==>
                edges == Link(old(edges), node1.name, node2.name,
                              Round2(Distance(node1, node2, DefaultFloorWeight, hypot)))
      ensures old(Valid()) ==> Valid()
    {
      if SameRoom(node1, node2) {
        return SameNode;
      }
      var dist := Distance(node1, node2, DefaultFloorWeight, hypot);
      if dist > maxDistance {
        return TooFar;
      }
      ghost var e0 := edges;
      var a, b := node1.name, node2.name;
      if a !in edges {
        edges := edges[a := map[]];
      }
      ghost var e1 := edges;
      if b !in edges {
        edges := edges[b := map[]];
      }
      ghost var e2 := edges;
      var w := Round2(dist);
      edges := edges[a := edges[a][b := w]];
      ghost var e3 := edges;
      edges := edges[b := edges[b][a := w]];
      status := Added;
      StepwiseLink(e0, e1, e2, e3, edges, a, b, w);
      if WellFormed(e0, maxDistance) {
        DistanceNonNegative(node1, node2, DefaultFloorWeight, hypot);
        Round2Monotone(dist, maxDistance);
        LinkPreservesWellFormed(e0, a, b, w, maxDistance);
      }
    }

    /** get_neighbors: the names in the room's row, none when it has no row. */
    function GetNeighbors(node: Classroom): (r: set<string>)
      reads this
      ensures forall v :: v in r <==> HasEdge(edges, node.name, v)
      ensures Valid() ==> node.name !in r
      ensures Valid() ==> forall v :: v in r ==> HasEdge(edges, v, node.name) && edges[v][node.name] == edges[node.name][v]
    {
      Neighbours(edges, node.name)
    }
  }
}
