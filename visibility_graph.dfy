/** The visibility view of the board: the cells a cell sees along the four
    axis rays, and the 4-connected "rooms" of EMPTY cells. */
module Visibility {
  import opened Board

  // ---------------------------------------------------------------- rays

  /** How many board positions lie from `q` onward in direction `d`, `q` included. */
  function CellsAhead(n: nat, q: Point, d: Dir): int
  {
    match d
    case Up => q.x + 1
    case Down => n - q.x
    case Left => q.y + 1
    case Right => n - q.y
  }

  /** One step in direction `d` leaves one position fewer ahead; a position on the
      board has at least one ahead, itself. */
  lemma CellsAheadStep(n: nat, q: Point, d: Dir)
    ensures CellsAhead(n, Step(q, d), d) == CellsAhead(n, q, d) - 1
    ensures 0 <= q.x < n && 0 <= q.y < n ==> CellsAhead(n, q, d) > 0
  {
  }

  /** The length of the run of EMPTY cells that starts at `q` and goes in direction `d`. */
  function RunLength(b: GameBoard, q: Point, d: Dir): (n: nat)
    requires b.Valid()
    ensures n > 0 ==> b.IsEmptyCell(q)
    ensures b.IsValidCell(q.x, q.y) ==> n <= CellsAhead(b.size, q, d)
    decreases CellsAhead(b.size, q, d)
  {
    if b.IsEmptyCell(q) then 1 + RunLength(b, Step(q, d), d) else 0
  }

  /** The run is maximal: its cells are EMPTY and the cell just past it is a wall or off the board. */
  lemma {:induction false} RunLengthIsMaximalRun(b: GameBoard, q: Point, d: Dir)
    requires b.Valid()
    ensures forall k :: 0 <= k < RunLength(b, q, d) ==> b.IsEmptyCell(Shift(q, d, k))
    ensures !b.IsEmptyCell(Shift(q, d, RunLength(b, q, d)))
    decreases CellsAhead(b.size, q, d)
  {
    if b.IsEmptyCell(q) {
      var q' := Step(q, d);
      RunLengthIsMaximalRun(b, q', d);
      assert forall k :: Shift(q', d, k) == Shift(q, d, k + 1);
      forall k | 0 <= k < RunLength(b, q, d)
        ensures b.IsEmptyCell(Shift(q, d, k))
      {
        if k > 0 {
          assert Shift(q, d, k) == Shift(q', d, k - 1);
        }
      }
    }
  }

  /** How many cells `s` sees in direction `d`: the EMPTY run starting at its neighbour. */
  function Reach(b: GameBoard, s: Point, d: Dir): nat
    requires b.Valid()
  {
    RunLength(b, Step(s, d), d)
  }

  /** `p` is one of the first `n` cells after `s` in direction `d`. */
  predicate OnSegment(s: Point, d: Dir, n: int, p: Point)
  {
    match d
    case Up => p.y == s.y && s.x - n <= p.x < s.x
    case Down => p.y == s.y && s.x < p.x <= s.x + n
    case Left => p.x == s.x && s.y - n <= p.y < s.y
    case Right => p.x == s.x && s.y < p.y <= s.y + n
  }

  /** `p` is seen from `s`: it lies on one of the four rays, which stop at the first wall or edge. */
  predicate Visible(b: GameBoard, s: Point, p: Point)
    requires b.Valid()
  {
    || OnSegment(s, Up, Reach(b, s, Up), p)
    || OnSegment(s, Down, Reach(b, s, Down), p)
    || OnSegment(s, Left, Reach(b, s, Left), p)
    || OnSegment(s, Right, Reach(b, s, Right), p)
  }

  /** How far `p` lies from `s` along direction `d`. */
  function Offset(s: Point, d: Dir, p: Point): int
  {
    match d
    case Up => s.x - p.x
    case Down => p.x - s.x
    case Left => s.y - p.y
    case Right => p.y - s.y
  }

  lemma OnSegmentIsShift(s: Point, d: Dir, n: int, p: Point)
    requires OnSegment(s, d, n, p)
    ensures 1 <= Offset(s, d, p) <= n && p == Shift(s, d, Offset(s, d, p))
  {
  }

  /** Every cell seen from `s` is an EMPTY cell on the board. */
  lemma VisibleCellsAreEmpty(b: GameBoard, s: Point, p: Point)
    requires b.Valid() && Visible(b, s, p)
    ensures b.IsEmptyCell(p)
  {
    var d :| OnSegment(s, d, Reach(b, s, d), p);
    OnSegmentIsShift(s, d, Reach(b, s, d), p);
    var k := Offset(s, d, p);
    RunLengthIsMaximalRun(b, Step(s, d), d);
    assert p == Shift(Step(s, d), d, k - 1);
  }

  /** The number of cells seen from (row, col) along the four rays (right, left, down, up). */
  function CountVisibleCells(b: GameBoard, row: int, col: int): (n: nat)
    requires b.Valid()
    ensures b.IsValidCell(row, col) ==> n <= 2 * (b.size - 1)
  {
    var s := Point(row, col);
    Reach(b, s, Right) + Reach(b, s, Left) + Reach(b, s, Down) + Reach(b, s, Up)
  }

  /** The score of a node of the visibility graph: its number of visibility edges. */
  function CountOutgoingEdges(b: GameBoard, row: int, col: int): (n: nat)
    requires b.Valid()
    ensures n == CountVisibleCells(b, row, col)
  {
    CountVisibleCells(b, row, col)
  }

  /** The first `n` cells after `s` in direction `d`. */
  function Segment(s: Point, d: Dir, n: nat): set<Point>
  {
    set k | 1 <= k <= n :: Shift(s, d, k)
  }

  lemma {:induction false} SegmentSize(s: Point, d: Dir, n: nat)
    ensures |Segment(s, d, n)| == n
  {
    if n == 0 {
      assert Segment(s, d, n) == {};
    } else {
      SegmentSize(s, d, n - 1);
      SegmentExtend(s, d, n - 1);
      SegmentMembers(s, d, n - 1);
      assert !OnSegment(s, d, n - 1, Shift(s, d, n));
    }
  }

  lemma SegmentMembers(s: Point, d: Dir, n: nat)
    ensures forall p :: p in Segment(s, d, n) <==> OnSegment(s, d, n, p)
  {
    forall p | OnSegment(s, d, n, p)
      ensures p in Segment(s, d, n)
    {
      OnSegmentIsShift(s, d, n, p);
    }
  }

  /** A segment grows by one cell at its far end. */
  lemma SegmentExtend(s: Point, d: Dir, n: nat)
    ensures Segment(s, d, n + 1) == Segment(s, d, n) + {Shift(s, d, n + 1)}
  {
  }

  /** A segment is its first cell followed by the segment one step further on. */
  lemma SegmentStep(s: Point, d: Dir, m: nat)
    ensures Segment(s, d, m + 1) == {Step(s, d)} + Segment(Step(s, d), d, m)
    ensures Step(s, d) !in Segment(Step(s, d), d, m)
  {
    SegmentMembers(s, d, m + 1);
    SegmentMembers(Step(s, d), d, m);
    forall p
      ensures p in Segment(s, d, m + 1) <==> p == Step(s, d) || p in Segment(Step(s, d), d, m)
    {
      assert OnSegment(s, d, m + 1, p) <==> p == Step(s, d) || OnSegment(Step(s, d), d, m, p);
    }
  }

  /** The set of cells seen from `s`. */
  function VisibleCells(b: GameBoard, s: Point): set<Point>
    requires b.Valid()
  {
    Segment(s, Right, Reach(b, s, Right)) + Segment(s, Left, Reach(b, s, Left))
      + Segment(s, Down, Reach(b, s, Down)) + Segment(s, Up, Reach(b, s, Up))
  }

  /** `CountVisibleCells` counts distinct cells: exactly the cells seen from `s`, never `s` itself. */
  lemma VisibleCellsCount(b: GameBoard, s: Point)
    requires b.Valid()
    ensures forall p :: p in VisibleCells(b, s) <==> Visible(b, s, p)
    ensures s !in VisibleCells(b, s)
    ensures |VisibleCells(b, s)| == CountVisibleCells(b, s.x, s.y)
  {
    var r, l, dn, u := Segment(s, Right, Reach(b, s, Right)), Segment(s, Left, Reach(b, s, Left)),
                       Segment(s, Down, Reach(b, s, Down)), Segment(s, Up, Reach(b, s, Up));
    SegmentSize(s, Right, Reach(b, s, Right));
    SegmentSize(s, Left, Reach(b, s, Left));
    SegmentSize(s, Down, Reach(b, s, Down));
    SegmentSize(s, Up, Reach(b, s, Up));
    RaysDisjoint(b, s);
  }

  /** The four rays from `s` share no cell and do not contain `s`. */
  lemma RaysDisjoint(b: GameBoard, s: Point)
    requires b.Valid()
    ensures forall p :: p in VisibleCells(b, s) <==> Visible(b, s, p)
    ensures s !in VisibleCells(b, s)
    ensures Segment(s, Right, Reach(b, s, Right)) !! Segment(s, Left, Reach(b, s, Left))
    ensures Segment(s, Right, Reach(b, s, Right)) + Segment(s, Left, Reach(b, s, Left)) !! Segment(s, Down, Reach(b, s, Down))
    ensures Segment(s, Right, Reach(b, s, Right)) + Segment(s, Left, Reach(b, s, Left))
              + Segment(s, Down, Reach(b, s, Down)) !! Segment(s, Up, Reach(b, s, Up))
  {
    SegmentMembers(s, Right, Reach(b, s, Right));
    SegmentMembers(s, Left, Reach(b, s, Left));
    SegmentMembers(s, Down, Reach(b, s, Down));
    SegmentMembers(s, Up, Reach(b, s, Up));
  }

  // ---------------------------------------------------------------- rooms

  /** A chain of orthogonally adjacent EMPTY cells. */
  ghost predicate IsRoomPath(b: GameBoard, path: seq<Point>)
    requires b.Valid()
  {
    && |path| > 0
    && (forall i :: 0 <= i < |path| ==> b.IsEmptyCell(path[i]))
    && (forall i :: 0 <= i < |path| - 1 ==> Adjacent(path[i], path[i + 1]))
  }

  /** `p` can be reached from `s` by moving between orthogonally adjacent EMPTY cells. */
  ghost predicate Reachable(b: GameBoard, s: Point, p: Point)
    requires b.Valid()
  {
    exists path :: IsRoomPath(b, path) && path[0] == s && path[|path| - 1] == p
  }

  /** No EMPTY cell next to a member of `cells` is left outside it. */
  ghost predicate Closed(b: GameBoard, cells: set<Point>)
    requires b.Valid()
  {
    forall p, q :: p in cells && Adjacent(p, q) && b.IsEmptyCell(q) ==> q in cells
  }

  /** `components` splits the EMPTY cells into rooms: every EMPTY cell lies in exactly
      one component, no other cell lies in any, a component holds every EMPTY neighbour
      of its cells, and each cell of component `k` is reachable from `starts[k]`. */
  ghost predicate IsRoomPartition(b: GameBoard, components: seq<set<Point>>, starts: seq<Point>)
    requires b.Valid()
  {
    && |starts| == |components|
    && (forall k :: 0 <= k < |components| ==> starts[k] in components[k])
    && (forall k, p :: 0 <= k < |components| && p in components[k] ==> b.IsEmptyCell(p) && Reachable(b, starts[k], p))
    && (forall k, l :: 0 <= k < l < |components| ==> components[k] !! components[l])
    && (forall p :: b.IsEmptyCell(p) ==> exists k :: 0 <= k < |components| && p in components[k])
    && (forall k :: 0 <= k < |components| ==> Closed(b, components[k]))
  }

  /** Rooms are numbered in row-major order of their first cells: no cell of room `k`
      comes before `starts[k]`, and the starts increase with the id. */
  ghost predicate NumberedByFirstCell(components: seq<set<Point>>, starts: seq<Point>)
  {
    && |starts| == |components|
    && (forall k, p :: 0 <= k < |components| && p in components[k] ==> !Before(p, starts[k].x, starts[k].y))
    && (forall k, l :: 0 <= k < l < |starts| ==> Before(starts[k], starts[l].x, starts[l].y))
  }

  /** Two orthogonally adjacent EMPTY cells lie in the same component. */
  lemma AdjacentSameComponent(b: GameBoard, components: seq<set<Point>>, starts: seq<Point>, p: Point, q: Point)
    requires b.Valid() && IsRoomPartition(b, components, starts)
    requires b.IsEmptyCell(p) && b.IsEmptyCell(q) && Adjacent(p, q)
    ensures exists k :: 0 <= k < |components| && p in components[k] && q in components[k]
  {
    var k :| 0 <= k < |components| && p in components[k];
    assert Closed(b, components[k]);
    assert q in components[k];
  }

  ghost function AllCells(n: nat): set<Point>
  {
    set i, j | 0 <= i < n && 0 <= j < n :: Point(i, j)
  }

  lemma InAllCells(n: nat, p: Point)
    requires 0 <= p.x < n && 0 <= p.y < n
    ensures p in AllCells(n)
  {
    assert p == Point(p.x, p.y);
  }

  /** Facts the breadth-first search keeps while it grows `component` from `start`:
      `visited` marks exactly the cells of `seen` and `component`, and every cell of
      `component` is EMPTY and reached from `start` by the path recorded in `paths`. */
  ghost predicate Explored(b: GameBoard, visited: array2<bool>, seen: set<Point>, start: Point,
                           component: set<Point>, paths: map<Point, seq<Point>>)
    requires b.Valid()
    reads visited
  {
    && visited.Length0 == b.size && visited.Length1 == b.size
    && (forall i, j :: 0 <= i < b.size && 0 <= j < b.size ==> (visited[i, j] <==> Point(i, j) in seen || Point(i, j) in component))
    && start in component && component !! seen
    && (forall p :: p in component ==> b.IsEmptyCell(p))
    && (forall p :: p in component ==> p in paths && IsRoomPath(b, paths[p]) && paths[p][0] == start && paths[p][|paths[p]| - 1] == p)
  }

  /** `component` is the cells already expanded (`done`) plus the queue, each once. */
  ghost predicate Pending(component: set<Point>, done: set<Point>, queue: seq<Point>)
  {
    && (forall p :: p in component <==> p in done || p in queue)
    && (forall i :: 0 <= i < |queue| ==> queue[i] !in done)
    && (forall i, j :: 0 <= i < j < |queue| ==> queue[i] != queue[j])
  }

  /** `q`, when it is an EMPTY cell, has been marked. */
  ghost predicate Covered(b: GameBoard, seen: set<Point>, component: set<Point>, q: Point)
    requires b.Valid()
  {
    b.IsEmptyCell(q) ==> q in seen || q in component
  }

  /** Every EMPTY neighbour of an expanded cell has been marked. */
  ghost predicate Expanded(b: GameBoard, done: set<Point>, seen: set<Point>, component: set<Point>)
    requires b.Valid()
  {
    forall p, d :: p in done && b.IsEmptyCell(Step(p, d)) ==> Step(p, d) in seen || Step(p, d) in component
  }

  /** What expanding `current` keeps after its first `i` directions: the search
      bookkeeping, a component that only grows from `before`, and those `i`
      neighbours marked when EMPTY. */
  ghost predicate Expanding(b: GameBoard, visited: array2<bool>, seen: set<Point>, start: Point, done: set<Point>,
                            current: Point, before: set<Point>, component: set<Point>, queue: seq<Point>,
                            paths: map<Point, seq<Point>>, i: nat)
    requires b.Valid() && i <= 4
    reads visited
  {
    && Explored(b, visited, seen, start, component, paths)
    && Pending(component, done + {current}, queue) && Expanded(b, done, seen, component)
    && current in component && before <= component
    && forall k :: 0 <= k < i ==> Covered(b, seen, component, Step(current, ScanOrder[k]))
  }

  /** Marks and queues `next`, the neighbour of `current` in direction `i` of the
      scan, when it is an EMPTY cell not visited yet. */
  method VisitNeighbour(b: GameBoard, visited: array2<bool>, ghost seen: set<Point>, ghost start: Point,
                        ghost done: set<Point>, current: Point, i: nat, next: Point, ghost before: set<Point>,
                        component: set<Point>, queue: seq<Point>, ghost paths: map<Point, seq<Point>>)
    returns (newComponent: set<Point>, newQueue: seq<Point>, ghost newPaths: map<Point, seq<Point>>)
    requires b.Valid() && i < 4 && next == Step(current, ScanOrder[i])
    requires Expanding(b, visited, seen, start, done, current, before, component, queue, paths, i)
    modifies visited
    ensures Expanding(b, visited, seen, start, done, current, before, newComponent, newQueue, newPaths, i + 1)
    ensures var added := b.IsEmptyCell(next) && next !in seen && next !in component;
            && newComponent == (if added then component + {next} else component)
            && newQueue == (if added then queue + [next] else queue)
  {
    newComponent, newQueue, newPaths := component, queue, paths;
    if b.IsValidCell(next.x, next.y) && b.GetCellType(next.x, next.y) == Empty {
      if !visited[next.x, next.y] {
        visited[next.x, next.y] := true;
        PathsExtended(b, start, component, paths, current, next);
        newPaths := paths[next := paths[current] + [next]];
        newComponent := component + {next};
        newQueue := queue + [next];
        Enqueued(done + {current}, component, queue, next, newComponent, newQueue);
      }
    }
    CoveredKept(b, seen, component, newComponent, current, i);
  }

  /** The path to a new cell is the path to its neighbour `current`, one step longer. */
  lemma PathsExtended(b: GameBoard, start: Point, component: set<Point>, paths: map<Point, seq<Point>>,
                      current: Point, next: Point)
    requires b.Valid()
    requires forall p :: p in component ==> p in paths && IsRoomPath(b, paths[p]) && paths[p][0] == start && paths[p][|paths[p]| - 1] == p
    requires current in component && Adjacent(current, next) && b.IsEmptyCell(next)
    ensures var newPaths := paths[next := paths[current] + [next]];
            forall p :: p in component + {next} ==>
              p in newPaths && IsRoomPath(b, newPaths[p]) && newPaths[p][0] == start && newPaths[p][|newPaths[p]| - 1] == p
  {
  }

  /** Growing the component keeps the neighbours already covered covered. */
  lemma CoveredKept(b: GameBoard, seen: set<Point>, component: set<Point>, newComponent: set<Point>, current: Point, i: nat)
    requires b.Valid() && i < 4 && component <= newComponent
    requires forall k :: 0 <= k < i ==> Covered(b, seen, component, Step(current, ScanOrder[k]))
    requires Covered(b, seen, newComponent, Step(current, ScanOrder[i]))
    ensures forall k :: 0 <= k < i + 1 ==> Covered(b, seen, newComponent, Step(current, ScanOrder[k]))
  {
  }

  /** Marks and collects the room of `start`: every EMPTY cell reachable from it
      that was not visited before. */
  method BfsComponent(b: GameBoard, start: Point, visited: array2<bool>, ghost seen: set<Point>)
    returns (component: set<Point>)
    requires b.Valid() && visited.Length0 == b.size && visited.Length1 == b.size
    requires forall i, j :: 0 <= i < b.size && 0 <= j < b.size ==> (visited[i, j] <==> Point(i, j) in seen)
    requires forall p :: p in seen ==> b.IsEmptyCell(p)
    requires Closed(b, seen)
    requires b.IsEmptyCell(start) && start !in seen
    modifies visited
    ensures forall i, j :: 0 <= i < b.size && 0 <= j < b.size ==> (visited[i, j] <==> Point(i, j) in seen || Point(i, j) in component)
    ensures start in component && component !! seen
    ensures forall p :: p in component ==> b.IsEmptyCell(p) && Reachable(b, start, p)
    ensures Closed(b, component)
  {
    var queue := [start];
    visited[start.x, start.y] := true;
    component := {start};
    ghost var done: set<Point> := {};
    ghost var paths := map[start := [start]];
    ghost var all := AllCells(b.size);
    while queue != []
      invariant Explored(b, visited, seen, start, component, paths)
      invariant Pending(component, done, queue)
      invariant Expanded(b, done, seen, component)
      invariant done <= all
      decreases all - done
    {
      var current := queue[0];
      queue := queue[1..];
      assert Pending(component, done + {current}, queue);
      component, queue, paths := ExpandCell(b, visited, seen, start, done, current, component, queue, paths);
      InAllCells(b.size, current);
      done := done + {current};
    }
    ReachableFromPaths(b, start, component, paths);
    ExpandedIsClosed(b, seen, component);
  }

  /** Visits the four neighbours of `current`, in the order right, left, down, up. */
  method ExpandCell(b: GameBoard, visited: array2<bool>, ghost seen: set<Point>, ghost start: Point,
                    ghost done: set<Point>, current: Point, component: set<Point>, queue: seq<Point>,
                    ghost paths: map<Point, seq<Point>>)
    returns (newComponent: set<Point>, newQueue: seq<Point>, ghost newPaths: map<Point, seq<Point>>)
    requires b.Valid() && Explored(b, visited, seen, start, component, paths)
    requires current in component && Pending(component, done + {current}, queue)
    requires Expanded(b, done, seen, component)
    modifies visited
    ensures Explored(b, visited, seen, start, newComponent, newPaths)
    ensures Pending(newComponent, done + {current}, newQueue)
    ensures Expanded(b, done + {current}, seen, newComponent)
    ensures component <= newComponent
  {
    newComponent, newQueue, newPaths := component, queue, paths;
    for i := 0 to 4
      invariant Expanding(b, visited, seen, start, done, current, component, newComponent, newQueue, newPaths, i)
    {
      newComponent, newQueue, newPaths :=
        VisitNeighbour(b, visited, seen, start, done, current, i, Step(current, ScanOrder[i]), component,
                       newComponent, newQueue, newPaths);
    }
    ExpandedAll(b, seen, current, newComponent);
    forall d | b.IsEmptyCell(Step(current, d))
      ensures Step(current, d) in seen || Step(current, d) in newComponent
    {
      assert Covered(b, seen, newComponent, Step(current, d));
    }
  }

  /** The four directions of the scan cover every neighbour. */
  lemma ExpandedAll(b: GameBoard, seen: set<Point>, c: Point, component: set<Point>)
    requires b.Valid()
    requires forall k :: 0 <= k < 4 ==> Covered(b, seen, component, Step(c, ScanOrder[k]))
    ensures forall d :: Covered(b, seen, component, Step(c, d))
  {
    forall d
      ensures Covered(b, seen, component, Step(c, d))
    {
      var k := match d case Right => 0 case Left => 1 case Down => 2 case Up => 3;
      assert ScanOrder[k] == d;
    }
  }

  /** Queueing a cell not yet in the component keeps the queue bookkeeping. */
  lemma Enqueued(done: set<Point>, component: set<Point>, queue: seq<Point>,
                 next: Point, newComponent: set<Point>, newQueue: seq<Point>)
    requires Pending(component, done, queue)
    requires || (newComponent == component + {next} && newQueue == queue + [next] && next !in component)
             || (newComponent == component && newQueue == queue)
    ensures Pending(newComponent, done, newQueue)
  {
    if newQueue != queue {
      forall i, j | 0 <= i < j < |newQueue|
        ensures newQueue[i] != newQueue[j]
      {
        if j == |queue| {
          assert newQueue[i] == queue[i];
        }
      }
    }
  }

  lemma ReachableFromPaths(b: GameBoard, start: Point, component: set<Point>, paths: map<Point, seq<Point>>)
    requires b.Valid()
    requires forall p :: p in component ==> p in paths && IsRoomPath(b, paths[p]) && paths[p][0] == start && paths[p][|paths[p]| - 1] == p
    ensures forall p :: p in component ==> Reachable(b, start, p)
  {
    forall p | p in component
      ensures Reachable(b, start, p)
    {
      assert IsRoomPath(b, paths[p]) && paths[p][0] == start && paths[p][|paths[p]| - 1] == p;
    }
  }

  /** A fully expanded component, disjoint from a closed set, is closed itself. */
  lemma ExpandedIsClosed(b: GameBoard, seen: set<Point>, component: set<Point>)
    requires b.Valid() && Closed(b, seen) && component !! seen
    requires forall p :: p in component ==> b.IsEmptyCell(p)
    requires Expanded(b, component, seen, component)
    ensures Closed(b, component)
  {
    forall p, q | p in component && Adjacent(p, q) && b.IsEmptyCell(q)
      ensures q in component
    {
      AdjacentIsStep(p);
      assert Adjacent(q, p);
    }
  }

  /** Splits the EMPTY cells into rooms, scanning the board row by row and
      flooding each room from its first unvisited cell; room ids are 0, 1, 2, ... */
  method FindConnectedComponents(b: GameBoard) returns (components: seq<set<Point>>, ghost starts: seq<Point>)
    requires b.Valid()
    ensures IsRoomPartition(b, components, starts)
    ensures NumberedByFirstCell(components, starts)
  {
    var visited := new bool[b.size, b.size]((i, j) => false);
    components, starts := [], [];
    ghost var seen: set<Point> := {};
    ghost var owner: map<Point, nat> := map[];
    for row := 0 to b.size
      invariant Scanned(b, visited, components, starts, seen, owner)
      invariant MarkedBefore(b, seen, row, 0)
      invariant NumberedByFirstCell(components, starts)
      invariant forall k :: 0 <= k < |starts| ==> Before(starts[k], row, 0)
    {
      for col := 0 to b.size
        invariant Scanned(b, visited, components, starts, seen, owner)
        invariant MarkedBefore(b, seen, row, col)
        invariant NumberedByFirstCell(components, starts)
        invariant forall k :: 0 <= k < |starts| ==> Before(starts[k], row, col)
      {
        ghost var components0, starts0, seen0 := components, starts, seen;
        components, starts, seen, owner := ScanCell(b, visited, Point(row, col), components, starts, seen, owner);
        NumberedStep(b, components0, starts0, seen0, components, starts, seen, Point(row, col));
      }
      MarkedWholeRow(b, seen, row);
    }
    MarkedWholeRow(b, seen, b.size);
    ScannedIsPartition(b, components, starts, seen, owner);
  }

  /** Scanning one cell keeps the numbering: a room found at `start` comes after every
      earlier start, and none of its cells was passed by the scan. */
  lemma NumberedStep(b: GameBoard, components: seq<set<Point>>, starts: seq<Point>, seen: set<Point>,
                     newComponents: seq<set<Point>>, newStarts: seq<Point>, newSeen: set<Point>, start: Point)
    requires b.Valid() && NumberedByFirstCell(components, starts)
    requires forall k :: 0 <= k < |starts| ==> Before(starts[k], start.x, start.y)
    requires MarkedBefore(b, seen, start.x, start.y)
    requires forall p :: p in newSeen ==> b.IsEmptyCell(p)
    requires || (newComponents == components + [newSeen - seen] && newStarts == starts + [start])
             || (newComponents == components && newStarts == starts)
    ensures NumberedByFirstCell(newComponents, newStarts)
    ensures forall k :: 0 <= k < |newStarts| ==> Before(newStarts[k], start.x, start.y + 1)
  {
    if newStarts != starts {
      forall k, p | 0 <= k < |newComponents| && p in newComponents[k]
        ensures !Before(p, newStarts[k].x, newStarts[k].y)
      {
        if k < |components| {
          assert newComponents[k] == components[k] && newStarts[k] == starts[k];
        }
      }
    }
  }

  /** Once every EMPTY cell is marked, the components found form the room partition. */
  lemma ScannedIsPartition(b: GameBoard, components: seq<set<Point>>, starts: seq<Point>,
                           seen: set<Point>, owner: map<Point, nat>)
    requires b.Valid() && Grouped(b, components, starts, seen, owner)
    requires MarkedBefore(b, seen, b.size, 0)
    ensures IsRoomPartition(b, components, starts)
  {
    forall p | b.IsEmptyCell(p)
      ensures exists k :: 0 <= k < |components| && p in components[k]
    {
      assert p in components[owner[p]];
    }
  }

  /** Every EMPTY cell before (row, col) in row-major order is marked. */
  ghost predicate MarkedBefore(b: GameBoard, seen: set<Point>, row: int, col: int)
    requires b.Valid()
  {
    forall p :: b.IsEmptyCell(p) && Before(p, row, col) ==> p in seen
  }

  lemma MarkedWholeRow(b: GameBoard, seen: set<Point>, row: int)
    requires b.Valid() && MarkedBefore(b, seen, row, b.size)
    ensures MarkedBefore(b, seen, row + 1, 0)
  {
  }

  lemma MarkedNext(b: GameBoard, seen: set<Point>, newSeen: set<Point>, start: Point)
    requires b.Valid() && MarkedBefore(b, seen, start.x, start.y)
    requires seen <= newSeen && (b.IsEmptyCell(start) ==> start in newSeen)
    ensures MarkedBefore(b, newSeen, start.x, start.y + 1)
  {
    forall p | b.IsEmptyCell(p) && Before(p, start.x, start.y + 1)
      ensures p in newSeen
    {
      if !Before(p, start.x, start.y) {
        assert p == start;
      }
    }
  }

  /** Starts a new component at `start` when it is an EMPTY cell no earlier room reached. */
  method ScanCell(b: GameBoard, visited: array2<bool>, start: Point, components: seq<set<Point>>, ghost starts: seq<Point>,
                  ghost seen: set<Point>, ghost owner: map<Point, nat>)
    returns (newComponents: seq<set<Point>>, ghost newStarts: seq<Point>, ghost newSeen: set<Point>, ghost newOwner: map<Point, nat>)
    requires b.Valid() && b.IsValidCell(start.x, start.y) && Scanned(b, visited, components, starts, seen, owner)
    requires MarkedBefore(b, seen, start.x, start.y)
    modifies visited
    ensures Scanned(b, visited, newComponents, newStarts, newSeen, newOwner)
    ensures MarkedBefore(b, newSeen, start.x, start.y + 1)
    ensures b.IsEmptyCell(start) && start !in seen ==>
              newComponents == components + [newSeen - seen] && newStarts == starts + [start]
    ensures !(b.IsEmptyCell(start) && start !in seen) ==>
              newComponents == components && newStarts == starts && newSeen == seen
  {
    if b.GetCellType(start.x, start.y) == Empty && !visited[start.x, start.y] {
      newComponents, newStarts, newSeen, newOwner := AddRoom(b, visited, start, components, starts, seen, owner);
    } else {
      assert !(b.IsEmptyCell(start) && start !in seen) by {
        assert visited[start.x, start.y] <==> start in seen;
      }
      newComponents, newStarts, newSeen, newOwner := components, starts, seen, owner;
    }
    MarkedNext(b, seen, newSeen, start);
  }

  /** Floods the room of `start` and appends it as the next component. */
  method AddRoom(b: GameBoard, visited: array2<bool>, start: Point, components: seq<set<Point>>, ghost starts: seq<Point>,
                 ghost seen: set<Point>, ghost owner: map<Point, nat>)
    returns (newComponents: seq<set<Point>>, ghost newStarts: seq<Point>, ghost newSeen: set<Point>, ghost newOwner: map<Point, nat>)
    requires b.Valid() && Scanned(b, visited, components, starts, seen, owner)
    requires b.IsEmptyCell(start) && start !in seen
    modifies visited
    ensures Scanned(b, visited, newComponents, newStarts, newSeen, newOwner)
    ensures seen <= newSeen && start in newSeen
    ensures newComponents == components + [newSeen - seen] && newStarts == starts + [start]
  {
    var component := BfsComponent(b, start, visited, seen);
    AddComponent(b, components, starts, seen, owner, component, start);
    newOwner := Assign(owner, component, |components|);
    newComponents := components + [component];
    newStarts := starts + [start];
    newSeen := seen + component;
  }

  /** What the row-by-row scan keeps: `visited` marks the cells of `seen`, which is
      closed and split into the components found so far, `owner` naming each cell's one. */
  ghost predicate Scanned(b: GameBoard, visited: array2<bool>, components: seq<set<Point>>, starts: seq<Point>,
                          seen: set<Point>, owner: map<Point, nat>)
    requires b.Valid()
    reads visited
  {
    && visited.Length0 == b.size && visited.Length1 == b.size
    && (forall i, j :: 0 <= i < b.size && 0 <= j < b.size ==> (visited[i, j] <==> Point(i, j) in seen))
    && (forall p :: p in seen ==> b.IsEmptyCell(p))
    && Closed(b, seen)
    && Grouped(b, components, starts, seen, owner)
  }

  ghost predicate Grouped(b: GameBoard, components: seq<set<Point>>, starts: seq<Point>,
                          seen: set<Point>, owner: map<Point, nat>)
    requires b.Valid()
  {
    && |starts| == |components|
    && (forall k :: 0 <= k < |components| ==> starts[k] in components[k] && components[k] <= seen && Closed(b, components[k]))
    && (forall k, p :: 0 <= k < |components| && p in components[k] ==> b.IsEmptyCell(p) && Reachable(b, starts[k], p))
    && (forall k, l :: 0 <= k < l < |components| ==> components[k] !! components[l])
    && (forall p :: p in seen ==> p in owner && owner[p] < |components| && p in components[owner[p]])
  }

  /** `owner` with every cell of `cells` mapped to `k`. */
  ghost function Assign(owner: map<Point, nat>, cells: set<Point>, k: nat): map<Point, nat>
  {
    owner + map p | p in cells :: k
  }

  /** Appending a freshly flooded room keeps the grouping of the marked cells. */
  lemma AddComponent(b: GameBoard, components: seq<set<Point>>, starts: seq<Point>, seen: set<Point>,
                     owner: map<Point, nat>, component: set<Point>, start: Point)
    requires b.Valid() && Grouped(b, components, starts, seen, owner) && Closed(b, seen)
    requires start in component && component !! seen && Closed(b, component)
    requires forall p :: p in component ==> b.IsEmptyCell(p) && Reachable(b, start, p)
    ensures Grouped(b, components + [component], starts + [start], seen + component,
                    Assign(owner, component, |components|))
    ensures Closed(b, seen + component)
  {
    AppendRoomsClosed(b, components, starts, seen, owner, component, start);
    AppendRoomsReachable(b, components, starts, seen, owner, component, start);
    AppendRoomsDisjoint(b, components, starts, seen, owner, component);
    AppendRoomsOwned(b, components, starts, seen, owner, component);
  }

  lemma AppendRoomsClosed(b: GameBoard, components: seq<set<Point>>, starts: seq<Point>, seen: set<Point>,
                          owner: map<Point, nat>, component: set<Point>, start: Point)
    requires b.Valid() && Grouped(b, components, starts, seen, owner)
    requires start in component && Closed(b, component)
    ensures forall k :: 0 <= k < |components| + 1 ==>
              (starts + [start])[k] in (components + [component])[k]
              && (components + [component])[k] <= seen + component
              && Closed(b, (components + [component])[k])
  {
    var cs, ss := components + [component], starts + [start];
    forall k | 0 <= k < |cs|
      ensures ss[k] in cs[k] && cs[k] <= seen + component && Closed(b, cs[k])
    {
      if k < |components| {
        assert cs[k] == components[k] && ss[k] == starts[k];
      }
    }
  }

  lemma AppendRoomsReachable(b: GameBoard, components: seq<set<Point>>, starts: seq<Point>, seen: set<Point>,
                             owner: map<Point, nat>, component: set<Point>, start: Point)
    requires b.Valid() && Grouped(b, components, starts, seen, owner)
    requires forall p :: p in component ==> b.IsEmptyCell(p) && Reachable(b, start, p)
    ensures forall k, p :: 0 <= k < |components| + 1 && p in (components + [component])[k] ==>
              b.IsEmptyCell(p) && Reachable(b, (starts + [start])[k], p)
  {
    var cs, ss := components + [component], starts + [start];
    forall k, p | 0 <= k < |cs| && p in cs[k]
      ensures b.IsEmptyCell(p) && Reachable(b, ss[k], p)
    {
      if k < |components| {
        assert cs[k] == components[k] && ss[k] == starts[k];
      }
    }
  }

  lemma AppendRoomsDisjoint(b: GameBoard, components: seq<set<Point>>, starts: seq<Point>, seen: set<Point>,
                            owner: map<Point, nat>, component: set<Point>)
    requires b.Valid() && Grouped(b, components, starts, seen, owner) && component !! seen
    ensures forall k, l :: 0 <= k < l < |components| + 1 ==> (components + [component])[k] !! (components + [component])[l]
  {
    var cs := components + [component];
    forall k, l | 0 <= k < l < |cs|
      ensures cs[k] !! cs[l]
    {
      assert cs[k] == components[k] && components[k] <= seen;
      if l < |components| {
        assert cs[l] == components[l];
      }
    }
  }

  lemma AppendRoomsOwned(b: GameBoard, components: seq<set<Point>>, starts: seq<Point>, seen: set<Point>,
                         owner: map<Point, nat>, component: set<Point>)
    requires b.Valid() && Grouped(b, components, starts, seen, owner)
    ensures forall p :: p in seen + component ==>
              var o := Assign(owner, component, |components|);
              p in o && o[p] < |components| + 1 && p in (components + [component])[o[p]]
  {
    var cs, o := components + [component], Assign(owner, component, |components|);
    forall p | p in seen + component
      ensures p in o && o[p] < |cs| && p in cs[o[p]]
    {
      if p in component {
        assert o[p] == |components|;
      } else {
        assert o[p] == owner[p];
        assert cs[owner[p]] == components[owner[p]];
      }
    }
  }
}
