# aueb-pathfinding in Dafny

A verified model of the core of the AUEB indoor-navigation project: classrooms with
coordinates and a floor, a `University` graph whose edges cost the Euclidean distance plus a
squared floor-change penalty, Dijkstra's shortest-path search between two classrooms, and the
cleaner applied to values read from the map file.

Files and modules:

- `options.dfy` (`Options`): `Option` for a value or Python's `None`, `Result` for a value or a
  raised error.
- `rooms.dfy` (`Rooms`): the `Classroom` record, its constructor check on the name
  (`str.strip`, `str.isspace`), `__eq__` on names, `__hash__` as written and the name key the
  model uses instead.
- `cleaning.dfy` (`Cleaning`): `clean_values` — removal of `@ # ! $ *`, then a decimal
  integer parse, with `str(n)` as its inverse.
- `rounding.dfy` (`Rounding`): `round(x, 2)` on exact reals, ties to even.
- `distance.dfy` (`Metric`): `distance(node1, node2, floor_weight)`; `math.hypot` is a
  parameter constrained to be the exact Euclidean length.
- `graphs.dfy` (`Graphs`): the nested adjacency map keyed by classroom name, the
  double-sided edge update, paths and their costs.
- `campus.dfy` (`Campus`): the `University` class — fields `nodes`, `edges`, `maxDistance`;
  `add_node`, `add_edge`, `get_neighbors` as methods that keep the invariant "symmetric, no
  self-loops, non-negative, bounded".
- `shortest_path.dfy` (`ShortestPath`): `dijkstra` as imperative code — the initialisation loop,
  the linear first-minimum selection, the relaxation loop, the `while True` main loop with
  its two early exits, and the `path.insert(0, …)` reconstruction loop — each proved
  against its specification. The main result: the returned path runs from `start` to `target`
  along stored edges, its cost is `dist[target]`, the path is empty exactly when no path
  exists, and with non-negative costs no path is cheaper.

`add_edge` compares the unrounded cost with `max_distance` and then stores `round(cost, 2)`,
so the bound every stored cost obeys is `round(max_distance, 2)`; this equals `max_distance`
for thresholds with at most two decimals, such as the default `21.0`
(`Campus.WellFormedWithinTwoDecimalBound`), and can be exceeded by a hundredth otherwise
(`Rounding.Round2CanExceedBound`).

## Model

| member | source | states |
|---|---|---|
| Rooms.LStrip | aueb_pathfinding/classes.py:14 | the result is a suffix of the name, only whitespace was dropped, and it does not start with whitespace |
| Rooms.RStrip | aueb_pathfinding/classes.py:14 | the result is a prefix of the name, only whitespace was dropped, and it does not end with whitespace |
| Rooms.Strip | aueb_pathfinding/classes.py:14 | `name.strip()`, specified by LStrip and RStrip (only surrounding whitespace is dropped) and by StripEmptyIffBlank (empty exactly for blank names) |
| Rooms.StripEmptyIffBlank | aueb_pathfinding/classes.py:14-15 | `name.strip() == ""` holds exactly when every character of the name is whitespace (the empty name included) |
| Rooms.MakeClassroom | aueb_pathfinding/classes.py:11-27 | construction fails exactly for an empty or whitespace-only name; otherwise the record holds the given name, coordinates and floor |
| Rooms.SameRoom | aueb_pathfinding/classes.py:38-45 | `__eq__`: same name; specified by SameRoomIsEquivalence (an equivalence ignoring coordinates and floor) and KeyAgreesWithEquality |
| Rooms.SameRoomIsEquivalence | aueb_pathfinding/classes.py:38-45 | `__eq__` is reflexive, symmetric and transitive, and ignores coordinates and floor |
| Rooms.HashKey | aueb_pathfinding/classes.py:48-49 | `__hash__` as written, on (name, floor); EqualRoomsCanHashApart shows it disagrees with `__eq__` |
| Rooms.EqualRoomsCanHashApart | aueb_pathfinding/classes.py:48-49 | as written, two classrooms equal under `__eq__` (same name, floors 1 and 2) have different hash keys |
| Rooms.KeyAgreesWithEquality | aueb_pathfinding/classes.py:38-49 | the name key agrees with `__eq__` in both directions, so it is a sound dictionary key |
| Cleaning.StripSymbols | aueb_pathfinding/ultils.py:33-34 | the result contains none of `@ # ! $ *` and is no longer than the input |
| Cleaning.StripSymbolsAppend | aueb_pathfinding/ultils.py:34 | removal works piece by piece: stripping `a + b` is stripping `a` then `b`, so the kept characters stay in order |
| Cleaning.StripSymbolsCounts | aueb_pathfinding/ultils.py:34 | every other character survives exactly as often as it occurs; no symbol survives |
| Cleaning.StripSymbolsIdentity | aueb_pathfinding/ultils.py:34 | a string without symbols is returned unchanged |
| Cleaning.StripSymbolsEmpty | aueb_pathfinding/ultils.py:34 | a string made only of symbols is removed entirely |
| Cleaning.StripSymbolsIdempotent | aueb_pathfinding/ultils.py:34 | cleaning twice is cleaning once |
| Cleaning.ParseInt | aueb_pathfinding/ultils.py:36-40 | `int(s)` succeeds exactly on an optionally signed digit string; a `-` sign gives a value at most 0, otherwise at least 0 |
| Cleaning.DigitsValueShowNat | aueb_pathfinding/ultils.py:37 | reading back the decimal digits of a natural number gives that number |
| Cleaning.ParseShowRoundTrip | aueb_pathfinding/ultils.py:36-37 | `int(str(n)) == n` for every integer |
| Cleaning.CleanValues | aueb_pathfinding/ultils.py:17-40 | the result is a number exactly when the cleaned text is an integer literal, and then it is the value `int()` gives the cleaned text; otherwise it is the cleaned text itself |
| Cleaning.CleanSplitNumber | aueb_pathfinding/ultils.py:33-37 | `"1#2"` cleans to the number 12: a symbol inside a number is dropped |
| Cleaning.CleanLeadingZeros | aueb_pathfinding/ultils.py:33-37 | `"0#07"` cleans to the number 7 |
| Cleaning.CleanPlusSign | aueb_pathfinding/ultils.py:36-37 | `"+5"` cleans to the number 5 |
| Cleaning.CleanName | aueb_pathfinding/ultils.py:33-40 | `"A*21"` is not a number and cleans to the text `"A21"` |
| Cleaning.CleanDecoratedNumber | aueb_pathfinding/ultils.py:17-40 | any integer surrounded by symbols, e.g. `#12!`, cleans to that integer |
| Rounding.RoundHalfEven | aueb_pathfinding/classes.py:114-115 | the integer is within one half of its argument, and an exact tie goes to the even neighbour |
| Rounding.Round2 | aueb_pathfinding/classes.py:114-115 | `round(x, 2)` is a whole number of hundredths within 0.005 of `x`, an exact tie goes to the even hundredth, and a non-negative cost stays non-negative |
| Rounding.Round2Unique | aueb_pathfinding/classes.py:114-115 | those properties single out the result: any whole number of hundredths within 0.005 of `x`, even on a tie, is `round(x, 2)` |
| Rounding.RoundHalfEvenMonotone | aueb_pathfinding/classes.py:114-115 | rounding to an integer keeps order |
| Rounding.Round2Monotone | aueb_pathfinding/classes.py:102-115 | `round(x, 2)` keeps order, so a cost within the threshold rounds to at most the rounded threshold |
| Rounding.Round2Fixed | aueb_pathfinding/classes.py:114-115 | a value with at most two decimals is left unchanged |
| Rounding.Round2CanExceedBound | aueb_pathfinding/classes.py:102-115 | a cost of 5.006 passes a threshold of 5.007 but is stored as 5.01, above it |
| Metric.FloorPenalty | aueb_pathfinding/ultils.py:74-80 | the floor penalty, specified by DistanceSameFloor (zero on one floor) and DistanceAcrossFloors (`floor_weight * (floor1 - floor2)**2` otherwise) |
| Metric.Distance | aueb_pathfinding/ultils.py:47-82 | `distance(node1, node2, floor_weight)`, specified by DistanceSameFloor, DistanceAcrossFloors, DistanceNonNegative, DistanceSymmetric, DistanceZeroIff and the two worked examples |
| Metric.HypotSymmetric | aueb_pathfinding/ultils.py:67-71 | the Euclidean term is the same for an offset and its negation |
| Metric.DistanceSameFloor | aueb_pathfinding/ultils.py:74-82 | on one floor there is no penalty: the cost is the Euclidean term |
| Metric.DistanceAcrossFloors | aueb_pathfinding/ultils.py:77-82 | across floors the cost is the Euclidean term plus exactly `floor_weight * (floor1 - floor2)**2` |
| Metric.DistanceNonNegative | aueb_pathfinding/ultils.py:67-82 | with a non-negative floor weight the cost is non-negative |
| Metric.DistanceSymmetric | aueb_pathfinding/ultils.py:67-82 | the cost from a to b equals the cost from b to a |
| Metric.DistanceZeroIff | aueb_pathfinding/ultils.py:67-82 | with a positive floor weight the cost is zero exactly when both rooms share coordinates and floor |
| Metric.TriangleCosts | aueb_pathfinding/ultils.py:67-82 | rooms at (0,0), (3,0), (3,4) on one floor are 3, 4 and 5 apart |
| Metric.FloorPenaltyCost | aueb_pathfinding/ultils.py:74-82 | two rooms at one spot on floors 1 and 3 with weight 2 are 8 apart |
| Graphs.Neighbours | aueb_pathfinding/classes.py:118-124 | the neighbours of a room are exactly the rooms it has a stored edge to; none when it has no row |
| Graphs.Link | aueb_pathfinding/classes.py:106-115 | after the update both directions hold the cost, missing rows are created, and every other entry is unchanged |
| Graphs.LinkPreservesShape | aueb_pathfinding/classes.py:106-115 | storing an edge between two distinct rooms in both directions keeps the map symmetric and free of self-loops |
| Campus.WellFormedWithinTwoDecimalBound | aueb_pathfinding/classes.py:101-115 | for a threshold with at most two decimals (e.g. 21.0) no stored cost exceeds the threshold |
| Campus.LinkPreservesWellFormed | aueb_pathfinding/classes.py:106-115 | storing a non-negative cost within the rounded threshold keeps symmetry, no self-loops, non-negativity and the bound |
| Campus.StepwiseLink | aueb_pathfinding/classes.py:107-115 | the four in-place assignments of `add_edge` produce the same map as the double-sided update |
| Campus.University.constructor | aueb_pathfinding/classes.py:55-79 | the graph holds the given nodes, edges and threshold (defaults empty, empty, 21.0); it is well-formed exactly when the given edges are |
| Campus.University.AddNode | aueb_pathfinding/classes.py:82-88 | the classroom is appended; edges and threshold are unchanged; the invariant is kept |
| Campus.University.AddEdge | aueb_pathfinding/classes.py:91-115 | equal rooms are rejected and leave edges unchanged; otherwise a cost (floor weight 1.5) above the threshold is rejected and leaves edges unchanged; otherwise the rounded cost is stored in both directions and nothing else changes; nodes and threshold never change; the invariant is kept |
| Campus.University.GetNeighbors | aueb_pathfinding/classes.py:118-124 | the result is exactly the rooms with an edge from the given room; under the invariant it excludes the room itself and each neighbour has the same-cost edge back |
| ShortestPath.Less | aueb_pathfinding/ultils.py:124-146 | the `<` that `min` and the relaxation test apply with `math.inf`; specified by LessIsStrictTotalOrder |
| ShortestPath.LessIsStrictTotalOrder | aueb_pathfinding/ultils.py:124-146 | `<` on distances is irreflexive, transitive and total, inf is above every finite cost and below none, and `Le` is `<` or equal |
| ShortestPath.NamesOf | aueb_pathfinding/ultils.py:153-159 | the names of a classroom list, position by position |
| ShortestPath.Initialise | aueb_pathfinding/ultils.py:108-118 | every node gets distance inf and no predecessor, and the start gets distance 0 |
| ShortestPath.SelectMin | aueb_pathfinding/ultils.py:124-128 | nothing is selected exactly when every node is visited; otherwise the selected node is unvisited, no unvisited node has a smaller distance, and every unvisited node before it in `graph.nodes` has a larger one |
| ShortestPath.MinimumOverNames | aueb_pathfinding/ultils.py:124-128 | the selected node's distance is minimal over all unvisited names of the graph |
| ShortestPath.NothingLeft | aueb_pathfinding/ultils.py:124-132 | when no node can be selected every node name has been visited |
| ShortestPath.Relax | aueb_pathfinding/ultils.py:141-146 | each unvisited neighbour whose distance `dist[u] + cost` beats gets that distance and predecessor `u`; visited nodes are untouched; no distance grows; every unvisited neighbour ends at most `dist[u] + cost` |
| ShortestPath.WalkBack | aueb_pathfinding/ultils.py:153-157 | the path ends with the target, starts at a node without predecessor, and each node is the predecessor of the next; a target without predecessor gives `[target]` |
| ShortestPath.SelectedIsShortest | aueb_pathfinding/ultils.py:124-136 | with non-negative costs, the selected node's distance is at most the cost of every path from the start to it |
| ShortestPath.NoPathBeyond | aueb_pathfinding/ultils.py:131-132 | when every unvisited node is at inf, no path leads from the start to the target |
| ShortestPath.StepKeepsLinks | aueb_pathfinding/ultils.py:138-146 | after a relaxation every predecessor is still joined by an edge with `dist[v] == dist[p] + cost`, and only the start has a finite distance without predecessor |
| ShortestPath.StepKeepsRelaxed | aueb_pathfinding/ultils.py:138-146 | after a relaxation every edge out of a visited node is relaxed: the far end's distance is at most the near end's plus the cost |
| ShortestPath.StepPreserves | aueb_pathfinding/ultils.py:121-146 | one pass of the main loop keeps the loop invariant: tables, settled shortest distances, predecessor links and their order |
| ShortestPath.InitialInvariant | aueb_pathfinding/ultils.py:108-118 | the initial tables satisfy the loop invariant with nothing visited |
| ShortestPath.ChainIsPath | aueb_pathfinding/ultils.py:149-159 | a chain of predecessor links is a path along stored edges whose cost is the difference of its end distances |
| ShortestPath.ChainFromStart | aueb_pathfinding/ultils.py:149-159 | the reconstructed chain starts at the start, ends at the target, costs exactly `dist[target]` and passes only through graph nodes |
| ShortestPath.Search | aueb_pathfinding/ultils.py:108-146 | on exit the start is at 0; a target left at inf has no path from the start; a finite target distance is shortest when costs are non-negative; the predecessor links lead back to the start |
| ShortestPath.Dijkstra | aueb_pathfinding/ultils.py:89-159 | `([], inf)` exactly when no path exists; otherwise a path from start to target along stored edges whose cost is the returned cost and, with non-negative costs, no path is cheaper; a self-query returns `[target]` at cost 0 |

## Left out

- `main.py` and `aueb_pathfinding/menu.py`: the interactive menu, prompts and map loading are I/O and are not part of this model.
- `__str__`, `__repr__` and every `print` diagnostic: not modelled; the two rejecting branches of `add_edge` are reported as an `EdgeStatus` value instead of a printed message, and the "unreachable" message of `dijkstra` is dropped.
- `isinstance` checks in `Classroom`, `University.__init__` and `add_node`: Dafny's types rule out the wrong-type arguments, so the `TypeError`/`ValueError` for non-string names, non-integer coordinates or floors, non-list nodes, non-dict edges, non-numeric thresholds and non-`Classroom` nodes, and the non-`Classroom` branch of `add_node`, have no counterpart.
- Cleaning.ParseInt: accepts only an optional sign followed by ASCII digits; Python's `int()` also accepts surrounding whitespace, underscores between digits and non-ASCII decimal digits.
- Cleaning.StripSymbols: the regular expression engine is modelled by its effect for the default pattern `[@#!$\*]` only; a caller-supplied pattern is not modelled.
- Floating point: costs are exact reals; `math.hypot` is a parameter assumed exact; `round(x, 2)` is exact half-even rounding of the real value (Python rounds the binary double, which can differ on decimal ties); `math.inf` is the `Dist.Inf` constructor.
- Campus.University.constructor: `dict(edges)` copies only the outer map, so inner rows stay shared with the caller's dictionary; the model keeps maps as values and does not capture this aliasing.
- The `edges` of the model are keyed by classroom name, as `__eq__` intends; the Python dictionaries hash on (name, floor), see Findings.
- Campus.University.GetNeighbors: returns the set of neighbour names rather than a list of `Classroom` keys in insertion order (the same for Graphs.Neighbours); the order of the list is not modelled.
- ShortestPath.Relax: visits the neighbours of `u` in an unspecified order rather than the insertion order `get_neighbors` lists them in; the outcome does not depend on the order.
- ShortestPath.Dijkstra: requires the start, the target and every edge endpoint to be classrooms of the graph, which holds for the only caller, `main.py`, whose start and target are picked from the graph's own classrooms (main.py:96-108). Outside that requirement the Python code does not always fail: a start outside the graph with a different target makes the first selection find only inf, so `([], inf)` is returned; a target outside the graph raises `KeyError` at the final `dist[target]` lookup; an edge to a room outside the graph raises `KeyError` only when a visited room relaxes it. These cases are not modelled. Under the requirement the `u is None` exit of the main loop cannot be reached before the target is selected, so it is not a separate outcome.
- The `visited` dictionary of booleans is a set of visited names.

## Findings

| source | as written | input that shows it | evidently intended | confidence | as-written member | corrected member |
|---|---|---|---|---|---|---|
| aueb_pathfinding/classes.py:38-49 | `__eq__` compares names only, `__hash__` hashes (name, floor), so equal classrooms may hash differently and dictionary lookups in `add_edge` and `dijkstra` can miss an entry for an equal classroom | `Classroom("A21", 0, 0, 1)` and `Classroom("A21", 0, 0, 2)` are equal but have hash keys `("A21", 1)` and `("A21", 2)` | identity by name alone, a hash consistent with equality; the model keys `University.edges` (`Graphs.Adjacency`) and the `dist`, `previous` and `visited` tables of `dijkstra` by classroom name, a key that agrees with `__eq__` | not executed | Rooms.EqualRoomsCanHashApart | Rooms.KeyAgreesWithEquality |
