/** distance (aueb_pathfinding/ultils.py): Euclidean length plus a squared floor-change penalty. */
module Metric {
  import opened Rooms

  /** The floor_weight distance uses when its caller passes none (University.add_edge). */
  const DefaultFloorWeight: real := 1.5

  /**
   * math.hypot is a library call, so the model takes it as a parameter; this predicate
   * pins it down as the exact Euclidean length: non-negative, with square dx*dx + dy*dy.
   */
  ghost predicate IsHypot(hypot: (int, int) -> real) {
    forall dx: int, dy: int :: 0.0 <= hypot(dx, dy) && hypot(dx, dy) * hypot(dx, dy) == (dx * dx + dy * dy) as real
  }

  /** floor_penalty: zero on the same floor, floor_weight * (floor1 - floor2)**2 otherwise. */
  function FloorPenalty(a: Classroom, b: Classroom, floorWeight: real): real {
    if a.floor != b.floor then floorWeight * ((a.floor - b.floor) * (a.floor - b.floor)) as real
    else 0.0
  }

  /** distance(node1, node2, floor_weight). */
  function Distance(a: Classroom, b: Classroom, floorWeight: real, hypot: (int, int) -> real): real {
    hypot(b.x - a.x, b.y - a.y) + FloorPenalty(a, b, floorWeight)
  }

  /** A non-negative square root is unique. */
  lemma SqrtUnique(r: real, s: real)
    requires 0.0 <= r && 0.0 <= s && r * r == s * s
    ensures r == s
  {
    assert (r - s) * (r + s) == r * r - s * s;
    if r + s != 0.0 {
      assert r - s == 0.0;
    }
  }

  /** The hypot term depends only on the size of the offset, so it ignores the direction. */
  lemma HypotSymmetric(hypot: (int, int) -> real, dx: int, dy: int)
    requires IsHypot(hypot)
    ensures hypot(dx, dy) == hypot(-dx, -dy)
  {
    assert (-dx) * (-dx) + (-dy) * (-dy) == dx * dx + dy * dy;
    SqrtUnique(hypot(dx, dy), hypot(-dx, -dy));
  }

  /** On one floor the cost is the pure Euclidean term. */
  lemma DistanceSameFloor(a: Classroom, b: Classroom, floorWeight: real, hypot: (int, int) -> real)
    requires a.floor == b.floor
    ensures Distance(a, b, floorWeight, hypot) == hypot(b.x - a.x, b.y - a.y)
  {
  }

  /** Across floors the cost exceeds the Euclidean term by exactly floor_weight * (floor1 - floor2)**2. */
  lemma DistanceAcrossFloors(a: Classroom, b: Classroom, floorWeight: real, hypot: (int, int) -> real)
    requires a.floor != b.floor
    ensures Distance(a, b, floorWeight, hypot) - hypot(b.x - a.x, b.y - a.y)
            == floorWeight * ((a.floor - b.floor) * (a.floor - b.floor)) as real
  {
  }

  /** With a non-negative floor weight the cost is never negative. */
  lemma DistanceNonNegative(a: Classroom, b: Classroom, floorWeight: real, hypot: (int, int) -> real)
    requires IsHypot(hypot) && floorWeight >= 0.0
    ensures Distance(a, b, floorWeight, hypot) >= 0.0
  {
    var d := a.floor - b.floor;
    assert d * d >= 0 by {
      if d >= 0 { assert d * d >= 0; } else { assert d * d == (-d) * (-d); }
    }
    assert hypot(b.x - a.x, b.y - a.y) >= 0.0;
  }

  /** The cost is the same in both directions. */
  lemma DistanceSymmetric(a: Classroom, b: Classroom, floorWeight: real, hypot: (int, int) -> real)
    requires IsHypot(hypot)
    ensures Distance(a, b, floorWeight, hypot) == Distance(b, a, floorWeight, hypot)
  {
    HypotSymmetric(hypot, b.x - a.x, b.y - a.y);
    assert (b.floor - a.floor) * (b.floor - a.floor) == (a.floor - b.floor) * (a.floor - b.floor);
  }

  /** With a positive floor weight the cost is zero exactly for two rooms at the same place and floor. */
  lemma DistanceZeroIff(a: Classroom, b: Classroom, floorWeight: real, hypot: (int, int) -> real)
    requires IsHypot(hypot) && floorWeight > 0.0
    ensures Distance(a, b, floorWeight, hypot) == 0.0 <==> a.x == b.x && a.y == b.y && a.floor == b.floor
  {
    var dx, dy := b.x - a.x, b.y - a.y;
    var h := hypot(dx, dy);
    assert h * h == (dx * dx + dy * dy) as real;
    if a.floor != b.floor {
      var d := a.floor - b.floor;
      assert d * d > 0 by {
        if d > 0 { assert d * d >= d; } else { assert d * d >= -d; }
      }
      assert floorWeight * (d * d) as real > 0.0;
    }
    if h == 0.0 {
      assert dx * dx + dy * dy == 0;
    }
    if dx == 0 && dy == 0 {
      SqrtUnique(h, 0.0);
    }
  }

  /** Three rooms on one floor at (0,0), (3,0) and (3,4): costs 3, 4 and 5. */
  lemma TriangleCosts(hypot: (int, int) -> real, floorWeight: real)
    requires IsHypot(hypot)
    ensures var a, b, c := Classroom("A", 0, 0, 1), Classroom("B", 3, 0, 1), Classroom("C", 3, 4, 1);
            Distance(a, b, floorWeight, hypot) == 3.0 && Distance(b, c, floorWeight, hypot) == 4.0
            && Distance(a, c, floorWeight, hypot) == 5.0
  {
    SqrtUnique(hypot(3, 0), 3.0);
    SqrtUnique(hypot(0, 4), 4.0);
    SqrtUnique(hypot(3, 4), 5.0);
  }

  /** Two rooms at the same spot, floors 1 and 3, weight 2: cost 0 + 2 * (1 - 3)**2 == 8. */
  lemma FloorPenaltyCost(hypot: (int, int) -> real)
    requires IsHypot(hypot)
    ensures Distance(Classroom("X", 0, 0, 1), Classroom("Y", 0, 0, 3), 2.0, hypot) == 8.0
  {
    SqrtUnique(hypot(0, 0), 0.0);
  }
}
