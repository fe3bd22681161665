/** The greedy move selector: the placement test against numbered neighbours, light
    propagation from a new bulb, the forced-move rule, the ranking of rooms and
    candidate cells, the "newly lit" count and the completion check. */
module Solver {
  import opened Board
  import opened Constraints
  import opened Visibility
  import opened ScoreSort

  datatype Option<T> = None | Some(value: T)

  // ------------------------------------------------------------ placement

  /** Every cell of `ns` has room for one more adjacent bulb. */
  function RoomForOneMore(b: GameBoard, ns: seq<Point>): (ok: bool)
    requires b.Valid() && forall p :: p in ns ==> b.IsValidCell(p.x, p.y)
    reads b.bulbs
    ensures ok <==> forall p :: p in ns ==> CountPlacedBulbs(b, p.x, p.y) + 1 <= b.GetNumberValue(p.x, p.y)
  {
    if ns == [] then true
    else if CountPlacedBulbs(b, ns[0].x, ns[0].y) + 1 > b.GetNumberValue(ns[0].x, ns[0].y) then false
    else RoomForOneMore(b, ns[1..])
  }

  /** Every numbered neighbour of `c` has room for one more adjacent bulb. */
  ghost predicate PlacementAllowed(b: GameBoard, c: Point)
    requires b.Valid()
    reads b.bulbs
  {
    forall p :: b.IsCellOfKind(p, Numbered) && Adjacent(c, p) ==> CountPlacedBulbs(b, p.x, p.y) + 1 <= b.GetNumberValue(p.x, p.y)
  }

  /** A bulb at (row, col) would not push any numbered neighbour past its number. */
  function IsValidBulbPlacement(b: GameBoard, row: int, col: int): (ok: bool)
    requires b.Valid()
    reads b.bulbs
    ensures ok <==> PlacementAllowed(b, Point(row, col))
  {
    RoomForOneMore(b, GetNumberedNeighbors(b, row, col))
  }

  // ------------------------------------------------------------ newly lit

  /** The cells of `cells` on the board that are not lit. */
  ghost function UnlitIn(b: GameBoard, cells: set<Point>): set<Point>
    requires b.Valid()
    reads b.lit
  {
    set p | p in cells && b.IsValidCell(p.x, p.y) && !b.IsLit(p.x, p.y)
  }

  /** How many cells a bulb at `p` would newly light: `p` itself, when unlit, plus the
      unlit cells of its four rays (NewlyLitCount: the unlit cells among `p` and the
      cells it sees). */
  ghost function NewlyLit(b: GameBoard, p: Point): nat
    requires b.Valid() && b.IsValidCell(p.x, p.y)
    reads b.lit
  {
    (if b.IsLit(p.x, p.y) then 0 else 1) + UnlitAlong(b, p, ScanOrder)
  }

  /** The unlit cells of the EMPTY run that starts at `q` and goes in direction `d`. */
  function UnlitRun(b: GameBoard, q: Point, d: Dir): (n: nat)
    requires b.Valid()
    reads b.lit
    ensures n <= RunLength(b, q, d)
    decreases CellsAhead(b.size, q, d)
  {
    if b.IsEmptyCell(q) then (if b.IsLit(q.x, q.y) then 0 else 1) + UnlitRun(b, Step(q, d), d) else 0
  }

  /** The unlit cells seen from `s` in each of the directions `dirs`, added up. */
  function UnlitAlong(b: GameBoard, s: Point, dirs: seq<Dir>): nat
    requires b.Valid()
    reads b.lit
  {
    if dirs == [] then 0
    else UnlitAlong(b, s, dirs[..|dirs| - 1]) + UnlitRun(b, Step(s, dirs[|dirs| - 1]), dirs[|dirs| - 1])
  }

  lemma UnlitInUnion(b: GameBoard, x: set<Point>, y: set<Point>)
    requires b.Valid() && x !! y
    ensures UnlitIn(b, x + y) == UnlitIn(b, x) + UnlitIn(b, y)
    ensures |UnlitIn(b, x + y)| == |UnlitIn(b, x)| + |UnlitIn(b, y)|
  {
    assert UnlitIn(b, x + y) == UnlitIn(b, x) + UnlitIn(b, y);
    assert UnlitIn(b, x) !! UnlitIn(b, y);
  }

  /** The run count agrees with the unlit cells of the segment seen in direction `d`. */
  lemma {:induction false} UnlitRunCounts(b: GameBoard, s: Point, d: Dir)
    requires b.Valid()
    ensures UnlitRun(b, Step(s, d), d) == |UnlitIn(b, Segment(s, d, Reach(b, s, d)))|
    decreases CellsAhead(b.size, Step(s, d), d)
  {
    var q := Step(s, d);
    if b.IsEmptyCell(q) {
      UnlitRunCounts(b, q, d);
      var m := Reach(b, q, d);
      assert Reach(b, s, d) == m + 1;
      UnlitSegmentStep(b, s, d, m);
    } else {
      UnlitRunEnd(b, s, d);
    }
  }

  /** A ray whose first cell is a wall or off the board holds no unlit cell. */
  lemma UnlitRunEnd(b: GameBoard, s: Point, d: Dir)
    requires b.Valid() && !b.IsEmptyCell(Step(s, d))
    ensures UnlitRun(b, Step(s, d), d) == 0 == |UnlitIn(b, Segment(s, d, Reach(b, s, d)))|
  {
    assert Segment(s, d, 0) == {};
    assert UnlitIn(b, {}) == {};
  }

  /** The unlit cells of a segment are its first cell, when unlit, and the unlit cells
      of the rest. */
  lemma UnlitSegmentStep(b: GameBoard, s: Point, d: Dir, m: nat)
    requires b.Valid() && b.IsValidCell(Step(s, d).x, Step(s, d).y)
    ensures |UnlitIn(b, Segment(s, d, m + 1))|
            == (if b.IsLit(Step(s, d).x, Step(s, d).y) then 0 else 1) + |UnlitIn(b, Segment(Step(s, d), d, m))|
  {
    var q := Step(s, d);
    SegmentStep(s, d, m);
    UnlitInUnion(b, {q}, Segment(q, d, m));
    assert UnlitIn(b, {q}) == if b.IsLit(q.x, q.y) then {} else {q};
  }

  /** The four ray counts, in scan order. */
  lemma UnlitAlongScanOrder(b: GameBoard, p: Point)
    requires b.Valid()
    ensures UnlitAlong(b, p, ScanOrder) == UnlitRun(b, Step(p, Right), Right) + UnlitRun(b, Step(p, Left), Left)
                                           + UnlitRun(b, Step(p, Down), Down) + UnlitRun(b, Step(p, Up), Up)
  {
    var ur, ul, ud := [Right], [Right, Left], [Right, Left, Down];
    assert ur[..0] == [] && ul[..1] == ur && ud[..2] == ul && ScanOrder[..3] == ud;
    assert UnlitAlong(b, p, ur) == UnlitRun(b, Step(p, Right), Right);
    assert UnlitAlong(b, p, ul) == UnlitAlong(b, p, ur) + UnlitRun(b, Step(p, Left), Left);
    assert UnlitAlong(b, p, ud) == UnlitAlong(b, p, ul) + UnlitRun(b, Step(p, Down), Down);
  }

  /** The unlit cells seen from `p` are the unlit cells of its four rays, added up. */
  lemma UnlitVisibleCount(b: GameBoard, p: Point)
    requires b.Valid()
    ensures |UnlitIn(b, VisibleCells(b, p))| == UnlitAlong(b, p, ScanOrder)
  {
    var r, l, dn, u := Segment(p, Right, Reach(b, p, Right)), Segment(p, Left, Reach(b, p, Left)),
                       Segment(p, Down, Reach(b, p, Down)), Segment(p, Up, Reach(b, p, Up));
    RaysDisjoint(b, p);
    UnlitInUnion(b, r + l + dn, u);
    UnlitInUnion(b, r + l, dn);
    UnlitInUnion(b, r, l);
    UnlitRunCounts(b, p, Right);
    UnlitRunCounts(b, p, Left);
    UnlitRunCounts(b, p, Down);
    UnlitRunCounts(b, p, Up);
    UnlitAlongScanOrder(b, p);
  }

  /** The newly lit count is the number of unlit cells among `p` and the cells it sees. */
  lemma NewlyLitCount(b: GameBoard, p: Point)
    requires b.Valid() && b.IsValidCell(p.x, p.y)
    ensures NewlyLit(b, p) == |UnlitIn(b, {p} + VisibleCells(b, p))|
  {
    RaysDisjoint(b, p);
    UnlitInUnion(b, {p}, VisibleCells(b, p));
    UnlitVisibleCount(b, p);
    assert UnlitIn(b, {p}) == if b.IsLit(p.x, p.y) then {} else {p};
  }

  /** Counts `p`, when unlit, and every unlit cell on the four rays from `p`, each ray
      ending at the first wall or the edge. */
  method CalculateNewlyLit(b: GameBoard, p: Point) returns (count: nat)
    requires b.Valid() && b.IsValidCell(p.x, p.y)
    ensures count == NewlyLit(b, p)
    ensures count <= 1 + CountVisibleCells(b, p.x, p.y)
  {
    count := 0;
    if !b.IsLit(p.x, p.y) {
      count := count + 1;
    }
    ghost var self := count;
    for i := 0 to 4
      invariant count == self + UnlitAlong(b, p, ScanOrder[..i])
    {
      var d := ScanOrder[i];
      var run := CountUnlitRun(b, Step(p, d), d);
      count := count + run;
      assert ScanOrder[..i + 1][..i] == ScanOrder[..i];
    }
    assert ScanOrder[..4] == ScanOrder;
    NewlyLitAtMostVisible(b, p);
  }

  /** A bulb newly lights at most its own cell and the cells it sees. */
  lemma NewlyLitAtMostVisible(b: GameBoard, p: Point)
    requires b.Valid() && b.IsValidCell(p.x, p.y)
    ensures NewlyLit(b, p) <= 1 + CountVisibleCells(b, p.x, p.y)
  {
    UnlitAlongScanOrder(b, p);
    assert p == Point(p.x, p.y);
  }

  /** Walks from `q` in direction `d` until a wall or the edge, counting the unlit
      cells passed. */
  method CountUnlitRun(b: GameBoard, q: Point, d: Dir) returns (count: nat)
    requires b.Valid()
    ensures count == UnlitRun(b, q, d)
  {
    count := 0;
    var r := q;
    while b.IsValidCell(r.x, r.y) && b.GetCellType(r.x, r.y) != Black && b.GetCellType(r.x, r.y) != Numbered
      invariant UnlitRun(b, q, d) == count + UnlitRun(b, r, d)
      decreases CellsAhead(b.size, r, d)
    {
      if !b.IsLit(r.x, r.y) {
        count := count + 1;
      }
      r := Step(r, d);
    }
  }

  // ------------------------------------------------------------ completion

  /** Every EMPTY cell is lit. */
  ghost predicate AllEmptyLit(b: GameBoard)
    requires b.Valid()
    reads b.lit
  {
    forall p :: b.IsEmptyCell(p) ==> b.IsLit(p.x, p.y)
  }

  /** Every numbered cell has exactly its number of bulbs next to it. */
  ghost predicate CluesSatisfied(b: GameBoard)
    requires b.Valid()
    reads b.bulbs
  {
    forall p :: b.IsCellOfKind(p, Numbered) ==> CountPlacedBulbs(b, p.x, p.y) == b.GetNumberValue(p.x, p.y)
  }

  /** The solved position as the game judges it; whether two bulbs see each other is
      not part of it. */
  ghost predicate IsSolved(b: GameBoard)
    requires b.Valid()
    reads b.lit, b.bulbs
  {
    AllEmptyLit(b) && CluesSatisfied(b)
  }

  /** The numbered cell `p` has exactly its number of bulbs next to it. */
  ghost predicate ClueHolds(b: GameBoard, p: Point)
    requires b.Valid() && b.IsCellOfKind(p, Numbered)
    reads b.bulbs
  {
    CountPlacedBulbs(b, p.x, p.y) == b.GetNumberValue(p.x, p.y)
  }

  /** Every EMPTY cell before (row, col) is lit. */
  ghost predicate LitBefore(b: GameBoard, row: int, col: int)
    requires b.Valid()
    reads b.lit
  {
    forall p :: b.IsEmptyCell(p) && Before(p, row, col) ==> b.IsLit(p.x, p.y)
  }

  /** Every numbered cell before (row, col) has its number of bulbs. */
  ghost predicate CluesBefore(b: GameBoard, row: int, col: int)
    requires b.Valid()
    reads b.bulbs
  {
    forall p :: b.IsCellOfKind(p, Numbered) && Before(p, row, col) ==> ClueHolds(b, p)
  }

  lemma LitStep(b: GameBoard, row: int, col: int)
    requires b.Valid() && LitBefore(b, row, col)
    requires b.IsEmptyCell(Point(row, col)) ==> b.IsLit(row, col)
    ensures LitBefore(b, row, col + 1)
  {
  }

  lemma CluesStep(b: GameBoard, row: int, col: int)
    requires b.Valid() && CluesBefore(b, row, col)
    requires b.IsCellOfKind(Point(row, col), Numbered) ==> ClueHolds(b, Point(row, col))
    ensures CluesBefore(b, row, col + 1)
  {
    forall p | b.IsCellOfKind(p, Numbered) && Before(p, row, col + 1)
      ensures ClueHolds(b, p)
    {
      if p != Point(row, col) {
        assert Before(p, row, col);
      }
    }
  }

  /** Scans the board twice in row-major order: first for an unlit EMPTY cell, then
      for a numbered cell with the wrong number of bulbs. */
  method IsGameComplete(b: GameBoard) returns (complete: bool)
    requires b.Valid()
    ensures complete <==> IsSolved(b)
  {
    for row := 0 to b.size
      invariant LitBefore(b, row, 0)
    {
      for col := 0 to b.size
        invariant LitBefore(b, row, col)
      {
        if b.GetCellType(row, col) == Empty && !b.IsLit(row, col) {
          assert b.IsEmptyCell(Point(row, col));
          return false;
        }
        LitStep(b, row, col);
      }
    }
    assert AllEmptyLit(b);
    for row := 0 to b.size
      invariant CluesBefore(b, row, 0)
    {
      for col := 0 to b.size
        invariant CluesBefore(b, row, col)
      {
        if b.GetCellType(row, col) == Numbered {
          if CountPlacedBulbs(b, row, col) != b.GetNumberValue(row, col) {
            assert b.IsCellOfKind(Point(row, col), Numbered) && !ClueHolds(b, Point(row, col));
            return false;
          }
        }
        CluesStep(b, row, col);
      }
    }
    return true;
  }

  // ------------------------------------------------------------ forced moves

  /** A numbered cell whose missing bulbs can only go on its free neighbours: the
      number still missing is positive and equals the number of free neighbours. */
  predicate IsForcing(b: GameBoard, c: Point)
    requires b.Valid()
    reads b.bulbs, b.blocked
  {
    && b.IsCellOfKind(c, Numbered)
    && b.GetNumberValue(c.x, c.y) - CountPlacedBulbs(b, c.x, c.y) > 0
    && b.GetNumberValue(c.x, c.y) - CountPlacedBulbs(b, c.x, c.y) == CountFreeAdjacent(b, c.x, c.y)
  }

  /** A forcing cell always has a free neighbour. */
  lemma ForcingHasFree(b: GameBoard, c: Point)
    requires b.Valid() && IsForcing(b, c)
    ensures exists p :: p in b.AdjacentEmptyCells(c.x, c.y) && IsFree(b, p)
  {
    var free := set p | p in b.AdjacentEmptyCells(c.x, c.y) && IsFree(b, p);
    assert |free| > 0;
    var p :| p in free;
  }

  /** The first free cell of `ps`, if any. */
  function FirstFree(b: GameBoard, ps: seq<Point>): (r: Option<Point>)
    requires b.Valid() && AllOnBoard(b, ps)
    reads b.bulbs, b.blocked
    ensures r.None? <==> forall p :: p in ps ==> !IsFree(b, p)
    ensures r.Some? ==> r.value in ps && IsFree(b, r.value)
  {
    if ps == [] then None
    else if IsFree(b, ps[0]) then Some(ps[0])
    else FirstFree(b, ps[1..])
  }

  /** Every cell of `ps` before the one `FirstFree` returns is not free. */
  lemma {:induction false} FirstFreeIsFirst(b: GameBoard, ps: seq<Point>)
    requires b.Valid() && AllOnBoard(b, ps) && FirstFree(b, ps).Some?
    ensures exists k :: 0 <= k < |ps| && ps[k] == FirstFree(b, ps).value && forall t :: 0 <= t < k ==> !IsFree(b, ps[t])
  {
    if !IsFree(b, ps[0]) {
      FirstFreeIsFirst(b, ps[1..]);
      var k :| 0 <= k < |ps[1..]| && ps[1..][k] == FirstFree(b, ps[1..]).value && forall t :: 0 <= t < k ==> !IsFree(b, ps[1..][t]);
      assert ps[k + 1] == FirstFree(b, ps).value;
      forall t | 0 <= t < k + 1
        ensures !IsFree(b, ps[t])
      {
        if t > 0 {
          assert ps[t] == ps[1..][t - 1];
        }
      }
    } else {
      assert ps[0] == FirstFree(b, ps).value;
    }
  }

  /** No cell before (row, col) in row-major order is forcing. */
  ghost predicate NoForcingBefore(b: GameBoard, row: int, col: int)
    requires b.Valid()
    reads b.bulbs, b.blocked
  {
    forall c :: IsForcing(b, c) ==> !Before(c, row, col)
  }

  /** The move the forced-move rule picks: the first free EMPTY neighbour of the first
      forcing cell in row-major order. */
  ghost predicate IsForcedMove(b: GameBoard, p: Point)
    requires b.Valid()
    reads b.bulbs, b.blocked
  {
    exists c :: IsForcing(b, c) && NoForcingBefore(b, c.x, c.y) && FirstFree(b, b.AdjacentEmptyCells(c.x, c.y)) == Some(p)
  }

  /** One cell of the scan: either it is the first forcing cell, and its first free
      neighbour is the forced move, or the scan goes on past it. */
  lemma ForcedOrNext(b: GameBoard, row: int, col: int, move: Option<Point>)
    requires b.Valid() && NoForcingBefore(b, row, col)
    requires move.None? <==> !IsForcing(b, Point(row, col))
    requires move.Some? ==> move == FirstFree(b, b.AdjacentEmptyCells(row, col))
    ensures move.Some? ==> IsForcedMove(b, move.value) && !NoForcing(b)
    ensures move.None? ==> NoForcingBefore(b, row, col + 1)
  {
    if move.Some? {
      ForcedMoveAt(b, Point(row, col), move.value);
    } else {
      ForcingStep(b, row, col);
    }
  }

  lemma ForcingStep(b: GameBoard, row: int, col: int)
    requires b.Valid() && NoForcingBefore(b, row, col) && !IsForcing(b, Point(row, col))
    ensures NoForcingBefore(b, row, col + 1)
  {
    forall c | IsForcing(b, c)
      ensures !Before(c, row, col + 1)
    {
      assert !Before(c, row, col);
    }
  }

  lemma ForcingRowDone(b: GameBoard, row: int)
    requires b.Valid() && NoForcingBefore(b, row, b.size)
    ensures NoForcingBefore(b, row + 1, 0)
  {
    forall c | IsForcing(b, c)
      ensures !Before(c, row + 1, 0)
    {
      assert !Before(c, row, b.size);
    }
  }


  /** The first cell of `adjacent`, in list order, that is free. */
  method FirstFreeNeighbour(b: GameBoard, adjacent: seq<Point>) returns (move: Option<Point>)
    requires b.Valid() && AllOnBoard(b, adjacent)
    ensures move == FirstFree(b, adjacent)
  {
    for k := 0 to |adjacent|
      invariant FirstFree(b, adjacent[k..]) == FirstFree(b, adjacent)
    {
      var p := adjacent[k];
      if !b.HasBulb(p.x, p.y) && !b.IsBlocked(p.x, p.y) {
        return Some(p);
      }
      assert adjacent[k..][1..] == adjacent[k + 1..];
    }
    assert adjacent[|adjacent|..] == [];
    return None;
  }

  /** The forced-move test at one cell: when (row, col) is forcing, its first free
      EMPTY neighbour. */
  method ForcedAt(b: GameBoard, row: int, col: int) returns (move: Option<Point>)
    requires b.Valid() && b.IsValidCell(row, col)
    ensures move.None? <==> !IsForcing(b, Point(row, col))
    ensures move.Some? ==> move == FirstFree(b, b.AdjacentEmptyCells(row, col))
  {
    move := None;
    if b.GetCellType(row, col) != Numbered {
      assert !b.IsCellOfKind(Point(row, col), Numbered);
    } else {
      var required := b.GetNumberValue(row, col);
      var placed := CountPlacedBulbs(b, row, col);
      var free := CountFreeAdjacent(b, row, col);
      assert IsForcing(b, Point(row, col)) <==> required - placed > 0 && required - placed == free;
      if required - placed > 0 && required - placed == free {
        var adjacent := b.AdjacentEmptyCells(row, col);
        move := FirstFreeNeighbour(b, adjacent);
        if move.None? {
          ForcingHasFree(b, Point(row, col));
          assert false;
        }
      }
    }
  }

  /** No numbered cell forces a bulb. */
  ghost predicate NoForcing(b: GameBoard)
    requires b.Valid()
    reads b.bulbs, b.blocked
  {
    forall c :: !IsForcing(b, c)
  }

  lemma NoForcingAtAll(b: GameBoard)
    requires b.Valid() && NoForcingBefore(b, b.size, 0)
    ensures NoForcing(b)
  {
  }

  /** The first free neighbour of the first forcing cell is the forced move. */
  lemma ForcedMoveAt(b: GameBoard, c: Point, p: Point)
    requires b.Valid() && IsForcing(b, c) && NoForcingBefore(b, c.x, c.y)
    requires FirstFree(b, b.AdjacentEmptyCells(c.x, c.y)) == Some(p)
    ensures IsForcedMove(b, p) && !NoForcing(b)
  {
  }

  /** The forced-move rule: scans the cells in row-major order and, at the first
      forcing numbered cell, returns its first free EMPTY neighbour (up, down, left,
      right). */
  method ForcedMove(b: GameBoard) returns (move: Option<Point>)
    requires b.Valid()
    ensures move.None? <==> NoForcing(b)
    ensures move.Some? ==> IsForcedMove(b, move.value)
  {
    for row := 0 to b.size
      invariant NoForcingBefore(b, row, 0)
    {
      move := ForcedInRow(b, row);
      if move.Some? {
        return;
      }
    }
    NoForcingAtAll(b);
    return None;
  }

  /** The forced-move scan over one row, left to right. */
  method ForcedInRow(b: GameBoard, row: int) returns (move: Option<Point>)
    requires b.Valid() && 0 <= row < b.size && NoForcingBefore(b, row, 0)
    ensures move.None? ==> NoForcingBefore(b, row + 1, 0)
    ensures move.Some? ==> IsForcedMove(b, move.value) && !NoForcing(b)
  {
    for col := 0 to b.size
      invariant NoForcingBefore(b, row, col)
    {
      move := ForcedAt(b, row, col);
      ForcedOrNext(b, row, col, move);
      if move.Some? {
        return;
      }
    }
    ForcingRowDone(b, row);
    return None;
  }

  // ------------------------------------------------------------ ranking rooms

  /** Adding one cell to a set adds one to the unlit count exactly when the cell is unlit. */
  lemma UnlitAddOne(b: GameBoard, seen: set<Point>, p: Point)
    requires b.Valid() && b.IsValidCell(p.x, p.y) && p !in seen
    ensures |seen + {p}| == |seen| + 1
    ensures |UnlitIn(b, seen + {p})| == |UnlitIn(b, seen)| + (if b.IsLit(p.x, p.y) then 0 else 1)
  {
    UnlitInUnion(b, seen, {p});
    assert UnlitIn(b, {p}) == if b.IsLit(p.x, p.y) then {} else {p};
  }

  /** Counts the lit cells of a room, visiting them in an arbitrary order. */
  method LitCount(b: GameBoard, component: set<Point>) returns (litCount: nat)
    requires b.Valid() && forall p :: p in component ==> b.IsValidCell(p.x, p.y)
    ensures litCount + |UnlitIn(b, component)| == |component|
  {
    litCount := 0;
    var rest := component;
    ghost var seen: set<Point> := {};
    while rest != {}
      invariant seen + rest == component && seen !! rest
      invariant litCount + |UnlitIn(b, seen)| == |seen|
      decreases |rest|
    {
      var p :| p in rest;
      UnlitAddOne(b, seen, p);
      if b.IsLit(p.x, p.y) {
        litCount := litCount + 1;
      }
      rest := rest - {p};
      seen := seen + {p};
    }
  }

  /** `e` is the ranking record of a room with unlit cells: its id, its cells and, as
      score, its number of unlit cells. */
  ghost predicate IsRoomScore(b: GameBoard, components: seq<set<Point>>, e: ComponentScore)
    requires b.Valid()
    reads b.lit
  {
    && 0 <= e.item.id < |components|
    && e.item.component == components[e.item.id]
    && e.score == |UnlitIn(b, components[e.item.id])|
    && e.score > 0
  }

  /** Scores every room, in id order, as its size minus its lit cells, and keeps the
      rooms whose score is positive. */
  method ScoreComponents(b: GameBoard, components: seq<set<Point>>) returns (scores: seq<ComponentScore>)
    requires b.Valid() && forall k, p :: 0 <= k < |components| && p in components[k] ==> b.IsValidCell(p.x, p.y)
    ensures forall i :: 0 <= i < |scores| ==> IsRoomScore(b, components, scores[i])
    ensures forall k :: 0 <= k < |components| && |UnlitIn(b, components[k])| > 0 ==>
              exists i :: 0 <= i < |scores| && scores[i].item.id == k
    ensures IdsIncreasing(scores)
  {
    scores := [];
    for k := 0 to |components|
      invariant forall i :: 0 <= i < |scores| ==> IsRoomScore(b, components, scores[i]) && scores[i].item.id < k
      invariant forall m :: 0 <= m < k && |UnlitIn(b, components[m])| > 0 ==>
                  exists i :: 0 <= i < |scores| && scores[i].item.id == m
      invariant IdsIncreasing(scores)
    {
      var component := components[k];
      var litCount := LitCount(b, component);
      var score := |component| - litCount;
      ghost var before := scores;
      if score > 0 {
        scores := scores + [Scored(Room(k, component), score)];
      }
      forall m | 0 <= m < k + 1 && |UnlitIn(b, components[m])| > 0
        ensures exists i :: 0 <= i < |scores| && scores[i].item.id == m
      {
        if m == k {
          assert scores[|scores| - 1].item.id == k;
        } else {
          var i :| 0 <= i < |before| && before[i].item.id == m;
          assert scores[i] == before[i];
        }
      }
    }
  }

  // ------------------------------------------------------------ greedy choice

  /** A cell the greedy step may pick: free, and within the numbers of its numbered
      neighbours. */
  ghost predicate IsCandidate(b: GameBoard, p: Point)
    requires b.Valid() && b.IsValidCell(p.x, p.y)
    reads b.bulbs, b.blocked
  {
    IsFree(b, p) && PlacementAllowed(b, p)
  }

  /** The node records of the candidates among `order`, in that order, each scored
      by its number of visibility edges. */
  ghost function CandidateNodes(b: GameBoard, order: seq<Point>): seq<NodeScore>
    requires b.Valid() && AllOnBoard(b, order)
    reads b.bulbs, b.blocked
  {
    if order == [] then []
    else
      var u := order[|order| - 1];
      CandidateNodes(b, order[..|order| - 1]) + (if IsCandidate(b, u) then [Scored(u, CountOutgoingEdges(b, u.x, u.y))] else [])
  }

  /** The records list exactly the candidates of `order`, with their edge counts. */
  lemma {:induction false} CandidateNodesMembers(b: GameBoard, order: seq<Point>)
    requires b.Valid() && AllOnBoard(b, order)
    ensures forall i :: 0 <= i < |CandidateNodes(b, order)| ==>
              CandidateNodes(b, order)[i].item in order && IsCandidate(b, CandidateNodes(b, order)[i].item)
    ensures forall i :: 0 <= i < |CandidateNodes(b, order)| ==>
              CandidateNodes(b, order)[i].score == CountOutgoingEdges(b, CandidateNodes(b, order)[i].item.x, CandidateNodes(b, order)[i].item.y)
    ensures forall p :: p in order && IsCandidate(b, p) ==>
              exists i :: 0 <= i < |CandidateNodes(b, order)| && CandidateNodes(b, order)[i].item == p
  {
    if order != [] {
      var front, u := order[..|order| - 1], order[|order| - 1];
      assert order == front + [u];
      CandidateNodesMembers(b, front);
      var r, prev := CandidateNodes(b, order), CandidateNodes(b, front);
      assert forall i :: 0 <= i < |prev| ==> r[i] == prev[i];
      forall p | p in order && IsCandidate(b, p)
        ensures exists i :: 0 <= i < |r| && r[i].item == p
      {
        if p == u {
          assert r[|r| - 1].item == u;
        } else {
          assert p in front;
          var i :| 0 <= i < |prev| && prev[i].item == p;
          assert r[i].item == p;
        }
      }
    }
  }

  lemma CandidateNodesStep(b: GameBoard, order: seq<Point>, u: Point)
    requires b.Valid() && AllOnBoard(b, order) && b.IsValidCell(u.x, u.y)
    ensures AllOnBoard(b, order + [u])
    ensures CandidateNodes(b, order + [u])
            == CandidateNodes(b, order) + (if IsCandidate(b, u) then [Scored(u, CountOutgoingEdges(b, u.x, u.y))] else [])
  {
    assert (order + [u])[..|order|] == order;
  }

  /** Distinct cells give records for distinct cells. */
  lemma {:induction false} CandidateNodesDistinct(b: GameBoard, order: seq<Point>)
    requires b.Valid() && AllOnBoard(b, order)
    requires forall i, j :: 0 <= i < j < |order| ==> order[i] != order[j]
    ensures forall i, j :: 0 <= i < j < |CandidateNodes(b, order)| ==>
              CandidateNodes(b, order)[i].item != CandidateNodes(b, order)[j].item
  {
    if order != [] {
      var front, u := order[..|order| - 1], order[|order| - 1];
      assert order == front + [u];
      CandidateNodesDistinct(b, front);
      CandidateNodesMembers(b, front);
      var r, prev := CandidateNodes(b, order), CandidateNodes(b, front);
      assert forall i :: 0 <= i < |prev| ==> r[i] == prev[i];
      assert u !in front by {
        forall k | 0 <= k < |front|
          ensures front[k] != u
        {
          assert front[k] == order[k];
        }
      }
      forall i, j | 0 <= i < j < |r|
        ensures r[i].item != r[j].item
      {
        if j == |prev| {
          assert prev[i].item in front;
        }
      }
    }
  }

  /** Collects the candidates of a room, each scored by the number of cells it sees,
      visiting the room's cells in an arbitrary order (`order` records it). */
  method Candidates(b: GameBoard, component: set<Point>) returns (nodes: seq<NodeScore>, ghost order: seq<Point>)
    requires b.Valid() && forall p :: p in component ==> b.IsValidCell(p.x, p.y)
    ensures forall p :: p in order <==> p in component
    ensures forall i, j :: 0 <= i < j < |order| ==> order[i] != order[j]
    ensures AllOnBoard(b, order) && nodes == CandidateNodes(b, order)
  {
    nodes, order := [], [];
    var rest := component;
    while rest != {}
      invariant forall p :: p in component <==> p in order || p in rest
      invariant forall p :: p in order ==> p !in rest
      invariant forall i, j :: 0 <= i < j < |order| ==> order[i] != order[j]
      invariant AllOnBoard(b, order) && nodes == CandidateNodes(b, order)
      decreases |rest|
    {
      var u :| u in rest;
      var node := ScoreIfCandidate(b, u);
      CandidateNodesStep(b, order, u);
      if node.Some? {
        nodes := nodes + [node.value];
      }
      rest := rest - {u};
      order := order + [u];
    }
  }

  /** The node record of `u` when it is a candidate: `u` with its number of
      visibility edges as score. */
  method ScoreIfCandidate(b: GameBoard, u: Point) returns (node: Option<NodeScore>)
    requires b.Valid() && b.IsValidCell(u.x, u.y)
    ensures node.Some? <==> IsCandidate(b, u)
    ensures node.Some? ==> node.value.item == u && node.value.score == CountOutgoingEdges(b, u.x, u.y)
  {
    node := None;
    if !b.IsBlocked(u.x, u.y) && !b.HasBulb(u.x, u.y) {
      if IsValidBulbPlacement(b, u.x, u.y) {
        var score := CountOutgoingEdges(b, u.x, u.y);
        node := Some(Scored(u, score));
      }
    }
  }

  /** The index of the first node with the most newly lit cells, or -1 when there is
      no node. */
  method PickMostNewlyLit(b: GameBoard, nodes: seq<NodeScore>) returns (best: int)
    requires b.Valid() && forall i :: 0 <= i < |nodes| ==> b.IsValidCell(nodes[i].item.x, nodes[i].item.y)
    ensures best == -1 <==> nodes == []
    ensures -1 <= best < |nodes|
    ensures best >= 0 ==> forall i :: 0 <= i < |nodes| ==> NewlyLit(b, nodes[i].item) <= NewlyLit(b, nodes[best].item)
    ensures best >= 0 ==> forall i :: 0 <= i < best ==> NewlyLit(b, nodes[i].item) < NewlyLit(b, nodes[best].item)
  {
    best := -1;
    var maxNewlyLit: int := -1;
    for i := 0 to |nodes|
      invariant -1 <= best < i || (best == -1 && i == 0)
      invariant best == -1 <==> i == 0
      invariant best == -1 ==> maxNewlyLit == -1
      invariant best >= 0 ==> maxNewlyLit == NewlyLit(b, nodes[best].item)
      invariant forall t :: 0 <= t < i ==> NewlyLit(b, nodes[t].item) <= maxNewlyLit
      invariant forall t :: 0 <= t < best ==> NewlyLit(b, nodes[t].item) < maxNewlyLit
    {
      var newlyLit := CalculateNewlyLit(b, nodes[i].item);
      if newlyLit > maxNewlyLit {
        maxNewlyLit := newlyLit;
        best := i;
      }
    }
  }

  /** Reordering the candidate records of a room keeps them exactly the room's
      candidates. */
  lemma ReorderedCandidates(b: GameBoard, component: set<Point>, order: seq<Point>, sorted: seq<NodeScore>)
    requires b.Valid() && AllOnBoard(b, order) && forall p :: p in order <==> p in component
    requires forall i, j :: 0 <= i < j < |order| ==> order[i] != order[j]
    requires multiset(CandidateNodes(b, order)) == multiset(sorted)
    ensures forall i :: 0 <= i < |sorted| ==> sorted[i].item in component && IsCandidate(b, sorted[i].item)
    ensures forall i :: 0 <= i < |sorted| ==> sorted[i].score == CountOutgoingEdges(b, sorted[i].item.x, sorted[i].item.y)
    ensures forall i, j :: 0 <= i < j < |sorted| ==> sorted[i].item != sorted[j].item
    ensures forall p :: p in component && IsCandidate(b, p) ==> exists i :: 0 <= i < |sorted| && sorted[i].item == p
  {
    var nodes := CandidateNodes(b, order);
    CandidateNodesMembers(b, order);
    forall i | 0 <= i < |sorted|
      ensures sorted[i].item in component && IsCandidate(b, sorted[i].item)
      ensures sorted[i].score == CountOutgoingEdges(b, sorted[i].item.x, sorted[i].item.y)
    {
      assert sorted[i] in multiset(nodes);
    }
    CandidateNodesDistinct(b, order);
    PermutationKeepsDistinct(nodes, sorted);
    forall i, j | 0 <= i < j < |sorted|
      ensures sorted[i].item != sorted[j].item
    {
      assert sorted[i] != sorted[j];
    }
    forall p | p in component && IsCandidate(b, p)
      ensures exists i :: 0 <= i < |sorted| && sorted[i].item == p
    {
      var i :| 0 <= i < |nodes| && nodes[i].item == p;
      assert nodes[i] in multiset(sorted);
    }
  }

  /** `p` is the best candidate of `room`: it newly lights as many cells as any
      candidate of the room, and among the candidates that newly light as many it
      has the most visibility edges. */
  ghost predicate BestInRoom(b: GameBoard, room: set<Point>, p: Point)
    requires b.Valid() && forall q :: q in room ==> b.IsValidCell(q.x, q.y)
    reads b.lit, b.bulbs, b.blocked
  {
    && p in room && IsCandidate(b, p)
    && (forall q :: q in room && IsCandidate(b, q) ==> NewlyLit(b, q) <= NewlyLit(b, p))
    && (forall q :: q in room && IsCandidate(b, q) && NewlyLit(b, q) == NewlyLit(b, p) ==>
          CountOutgoingEdges(b, q.x, q.y) <= CountOutgoingEdges(b, p.x, p.y))
  }

  /** The greedy step inside one room: sorts the room's candidates by descending
      score (stable), then picks the first one that newly lights the most cells. */
  method BestInComponent(b: GameBoard, component: set<Point>) returns (move: Option<Point>, ghost ranked: seq<NodeScore>)
    requires b.Valid() && forall p :: p in component ==> b.IsValidCell(p.x, p.y)
    ensures move.None? <==> forall p :: p in component ==> !IsCandidate(b, p)
    ensures move.Some? ==> BestInRoom(b, component, move.value)
    ensures SortedDesc(ranked) && forall i :: 0 <= i < |ranked| ==> ranked[i].item in component && IsCandidate(b, ranked[i].item)
    ensures move.Some? ==> exists i :: 0 <= i < |ranked| && ranked[i].item == move.value
                             && forall t :: 0 <= t < i ==> NewlyLit(b, ranked[t].item) < NewlyLit(b, move.value)
  {
    var sorted := RankedCandidates(b, component);
    ranked := sorted;
    if |sorted| == 0 {
      return None, ranked;
    }
    var best := PickMostNewlyLit(b, sorted);
    move := Some(sorted[best].item);
    FirstMostIsBest(b, component, sorted, best);
    assert ranked[best].item == move.value;
  }

  /** In a list sorted by edge count, the first record with the most newly lit cells
      is the room's best candidate. */
  lemma FirstMostIsBest(b: GameBoard, component: set<Point>, sorted: seq<NodeScore>, best: int)
    requires b.Valid() && forall p :: p in component ==> b.IsValidCell(p.x, p.y)
    requires SortedDesc(sorted) && 0 <= best < |sorted|
    requires forall i :: 0 <= i < |sorted| ==> sorted[i].item in component && IsCandidate(b, sorted[i].item)
    requires forall i :: 0 <= i < |sorted| ==> sorted[i].score == CountOutgoingEdges(b, sorted[i].item.x, sorted[i].item.y)
    requires forall p :: p in component && IsCandidate(b, p) ==> exists i :: 0 <= i < |sorted| && sorted[i].item == p
    requires forall i :: 0 <= i < |sorted| ==> NewlyLit(b, sorted[i].item) <= NewlyLit(b, sorted[best].item)
    requires forall i :: 0 <= i < best ==> NewlyLit(b, sorted[i].item) < NewlyLit(b, sorted[best].item)
    ensures BestInRoom(b, component, sorted[best].item)
  {
    var p := sorted[best].item;
    forall q | q in component && IsCandidate(b, q)
      ensures NewlyLit(b, q) <= NewlyLit(b, p)
      ensures NewlyLit(b, q) == NewlyLit(b, p) ==> CountOutgoingEdges(b, q.x, q.y) <= CountOutgoingEdges(b, p.x, p.y)
    {
      var i :| 0 <= i < |sorted| && sorted[i].item == q;
      if NewlyLit(b, q) == NewlyLit(b, p) {
        assert best <= i;
        assert sorted[best].score >= sorted[i].score;
      }
    }
  }

  /** The candidates of a room, sorted by descending edge count (stable): exactly the
      room's candidates, each once and scored by its edge count. */
  method RankedCandidates(b: GameBoard, component: set<Point>) returns (sorted: seq<NodeScore>)
    requires b.Valid() && forall p :: p in component ==> b.IsValidCell(p.x, p.y)
    ensures SortedDesc(sorted)
    ensures forall i :: 0 <= i < |sorted| ==> sorted[i].item in component && IsCandidate(b, sorted[i].item)
    ensures forall i :: 0 <= i < |sorted| ==> sorted[i].score == CountOutgoingEdges(b, sorted[i].item.x, sorted[i].item.y)
    ensures forall i, j :: 0 <= i < j < |sorted| ==> sorted[i].item != sorted[j].item
    ensures forall p :: p in component && IsCandidate(b, p) ==> exists i :: 0 <= i < |sorted| && sorted[i].item == p
  {
    var nodes;
    ghost var order;
    nodes, order := Candidates(b, component);
    sorted := SortNodes(nodes);
    StableIsPermutation(nodes, sorted);
    ReorderedCandidates(b, component, order, sorted);
  }

  /** Room `j` is tried before room `k`: it has more unlit cells, or as many and a
      smaller id. */
  ghost predicate RanksBefore(b: GameBoard, components: seq<set<Point>>, j: int, k: int)
    requires b.Valid() && 0 <= j < |components| && 0 <= k < |components|
    reads b.lit
  {
    || |UnlitIn(b, components[j])| > |UnlitIn(b, components[k])|
    || (|UnlitIn(b, components[j])| == |UnlitIn(b, components[k])| && j < k)
  }

  /** The greedy rule's choice: `p` is the best candidate (BestInRoom) of room `k`,
      which has unlit cells, and every room with unlit cells ranked before `k` has no
      candidate. */
  ghost predicate IsGreedyMove(b: GameBoard, components: seq<set<Point>>, k: int, p: Point)
    requires b.Valid() && forall j, q :: 0 <= j < |components| && q in components[j] ==> b.IsValidCell(q.x, q.y)
    reads b.lit, b.bulbs, b.blocked
  {
    && 0 <= k < |components|
    && |UnlitIn(b, components[k])| > 0
    && BestInRoom(b, components[k], p)
    && (forall j, q ::
          0 <= j < |components| && |UnlitIn(b, components[j])| > 0 && RanksBefore(b, components, j, k) && q in components[j]
          ==> !IsCandidate(b, q))
  }

  /** `ranked` holds the record of every room with unlit cells and nothing else, most
      unlit cells first and, among equal counts, in id order. */
  ghost predicate IsRanking(b: GameBoard, components: seq<set<Point>>, ranked: seq<ComponentScore>)
    requires b.Valid()
    reads b.lit
  {
    && (forall i :: 0 <= i < |ranked| ==> IsRoomScore(b, components, ranked[i]))
    && (forall k :: 0 <= k < |components| && |UnlitIn(b, components[k])| > 0 ==>
          exists i :: 0 <= i < |ranked| && ranked[i].item.id == k)
    && SortedDesc(ranked)
    && (forall i, j :: 0 <= i < j < |ranked| && ranked[i].score == ranked[j].score ==> ranked[i].item.id < ranked[j].item.id)
  }

  /** Scores the rooms in id order and sorts the records by descending score, stably. */
  method RankComponents(b: GameBoard, components: seq<set<Point>>) returns (ranked: seq<ComponentScore>)
    requires b.Valid() && forall k, p :: 0 <= k < |components| && p in components[k] ==> b.IsValidCell(p.x, p.y)
    ensures IsRanking(b, components, ranked)
  {
    var scores := ScoreComponents(b, components);
    ranked := SortScores(scores);
    StableIsPermutation(scores, ranked);
    StableKeepsIdOrder(scores, ranked);
    forall i | 0 <= i < |ranked|
      ensures IsRoomScore(b, components, ranked[i])
    {
      assert ranked[i] in multiset(scores);
    }
    forall k | 0 <= k < |components| && |UnlitIn(b, components[k])| > 0
      ensures exists i :: 0 <= i < |ranked| && ranked[i].item.id == k
    {
      var i :| 0 <= i < |scores| && scores[i].item.id == k;
      assert scores[i] in multiset(ranked);
    }
  }

  /** Every room with unlit cells that ranks before the room at position `i` sits
      earlier in the ranking. */
  lemma RankedBefore(b: GameBoard, components: seq<set<Point>>, ranked: seq<ComponentScore>, i: int, j: int)
    requires b.Valid() && IsRanking(b, components, ranked) && 0 <= i < |ranked|
    requires 0 <= j < |components| && |UnlitIn(b, components[j])| > 0
    requires RanksBefore(b, components, j, ranked[i].item.id)
    ensures exists t :: 0 <= t < i && ranked[t].item.id == j
  {
    var t :| 0 <= t < |ranked| && ranked[t].item.id == j;
    assert IsRoomScore(b, components, ranked[i]) && IsRoomScore(b, components, ranked[t]);
    assert t < i;
  }

  /** A best candidate of the room at position `i`, when no earlier room has a
      candidate, is the greedy rule's choice. */
  lemma RankedGreedy(b: GameBoard, components: seq<set<Point>>, ranked: seq<ComponentScore>, i: int, p: Point)
    requires b.Valid() && forall j, q :: 0 <= j < |components| && q in components[j] ==> b.IsValidCell(q.x, q.y)
    requires IsRanking(b, components, ranked) && 0 <= i < |ranked|
    requires forall t, q :: 0 <= t < i && q in ranked[t].item.component ==> !IsCandidate(b, q)
    requires IsRoomScore(b, components, ranked[i]) && BestInRoom(b, ranked[i].item.component, p)
    ensures IsGreedyMove(b, components, ranked[i].item.id, p)
  {
    var k := ranked[i].item.id;
    assert IsRoomScore(b, components, ranked[i]);
    forall j, q | 0 <= j < |components| && |UnlitIn(b, components[j])| > 0 && RanksBefore(b, components, j, k) && q in components[j]
      ensures !IsCandidate(b, q)
    {
      RankedBefore(b, components, ranked, i, j);
      var t :| 0 <= t < i && ranked[t].item.id == j;
      assert IsRoomScore(b, components, ranked[t]);
    }
  }

  /** When no ranked room has a candidate, no room with unlit cells has one. */
  lemma RankedExhausted(b: GameBoard, components: seq<set<Point>>, ranked: seq<ComponentScore>)
    requires b.Valid() && forall j, q :: 0 <= j < |components| && q in components[j] ==> b.IsValidCell(q.x, q.y)
    requires IsRanking(b, components, ranked)
    requires forall t, q :: 0 <= t < |ranked| && q in ranked[t].item.component ==> !IsCandidate(b, q)
    ensures NoCandidateLeft(b, components)
  {
    forall k, q | 0 <= k < |components| && |UnlitIn(b, components[k])| > 0 && q in components[k]
      ensures !IsCandidate(b, q)
    {
      var t :| 0 <= t < |ranked| && ranked[t].item.id == k;
      assert IsRoomScore(b, components, ranked[t]);
    }
  }

  /** No room with unlit cells has a candidate. */
  ghost predicate NoCandidateLeft(b: GameBoard, components: seq<set<Point>>)
    requires b.Valid() && forall j, q :: 0 <= j < |components| && q in components[j] ==> b.IsValidCell(q.x, q.y)
    reads b.lit, b.bulbs, b.blocked
  {
    forall k, q :: 0 <= k < |components| && |UnlitIn(b, components[k])| > 0 && q in components[k] ==> !IsCandidate(b, q)
  }

  /** No room at a position before `i` of the ranking has a candidate. */
  ghost predicate NoCandidateBefore(b: GameBoard, ranked: seq<ComponentScore>, i: int)
    requires b.Valid() && forall t, q :: 0 <= t < |ranked| && q in ranked[t].item.component ==> b.IsValidCell(q.x, q.y)
    reads b.bulbs, b.blocked
  {
    forall t, q :: 0 <= t < i && t < |ranked| && q in ranked[t].item.component ==> !IsCandidate(b, q)
  }

  /** One greedy round: the best candidate of the room at position `i` of the ranking,
      which is the greedy rule's choice when no earlier room has a candidate. */
  method TryRankedRoom(b: GameBoard, components: seq<set<Point>>, ranked: seq<ComponentScore>, i: int)
    returns (move: Option<Point>)
    requires b.Valid() && forall j, q :: 0 <= j < |components| && q in components[j] ==> b.IsValidCell(q.x, q.y)
    requires IsRanking(b, components, ranked) && 0 <= i < |ranked|
    requires NoCandidateBefore(b, ranked, i)
    ensures move.Some? ==> IsGreedyMove(b, components, ranked[i].item.id, move.value)
    ensures move.None? ==> NoCandidateBefore(b, ranked, i + 1)
  {
    assert IsRoomScore(b, components, ranked[i]);
    ghost var order;
    move, order := BestInComponent(b, ranked[i].item.component);
    if move.Some? {
      RankedGreedy(b, components, ranked, i, move.value);
    }
  }

  /** The greedy step: ranks the rooms with unlit cells and returns the best
      candidate of the first room, in ranking order, that has one. */
  method GreedyMove(b: GameBoard, components: seq<set<Point>>) returns (move: Option<Point>)
    requires b.Valid() && forall j, q :: 0 <= j < |components| && q in components[j] ==> b.IsValidCell(q.x, q.y)
    ensures move.Some? ==> exists k :: IsGreedyMove(b, components, k, move.value)
    ensures move.None? ==> NoCandidateLeft(b, components)
  {
    var ranked := RankComponents(b, components);
    if |ranked| == 0 {
      RankedExhausted(b, components, ranked);
      return None;
    }
    for i := 0 to |ranked|
      invariant NoCandidateBefore(b, ranked, i)
    {
      move := TryRankedRoom(b, components, ranked, i);
      if move.Some? {
        return;
      }
    }
    RankedExhausted(b, components, ranked);
    return None;
  }

  // ------------------------------------------------------------ light propagation

  lemma ShiftStep(s: Point, d: Dir, k: int)
    ensures Step(Shift(s, d, k), d) == Shift(s, d, k + 1)
  {
  }

  /** The cells seen from `s` along the first `i` directions of `ScanOrder`. */
  ghost function FirstRays(b: GameBoard, s: Point, i: nat): set<Point>
    requires b.Valid() && i <= 4
  {
    if i == 0 then {} else FirstRays(b, s, i - 1) + Segment(s, ScanOrder[i - 1], Reach(b, s, ScanOrder[i - 1]))
  }

  /** All four rays together are the cells seen from `s`. */
  lemma FirstRaysAreVisible(b: GameBoard, s: Point)
    requires b.Valid()
    ensures forall p :: p in FirstRays(b, s, 4) <==> Visible(b, s, p)
  {
    var r, l, dn, u := Segment(s, Right, Reach(b, s, Right)), Segment(s, Left, Reach(b, s, Left)),
                       Segment(s, Down, Reach(b, s, Down)), Segment(s, Up, Reach(b, s, Up));
    assert FirstRays(b, s, 1) == r;
    assert FirstRays(b, s, 2) == r + l;
    assert FirstRays(b, s, 3) == r + l + dn;
    assert FirstRays(b, s, 4) == VisibleCells(b, s);
    RaysDisjoint(b, s);
  }

  lemma RoomCellsOnBoard(b: GameBoard, components: seq<set<Point>>, starts: seq<Point>)
    requires b.Valid() && IsRoomPartition(b, components, starts)
    ensures forall k, p :: 0 <= k < |components| && p in components[k] ==> b.IsValidCell(p.x, p.y)
  {
    forall k, p | 0 <= k < |components| && p in components[k]
      ensures b.IsValidCell(p.x, p.y)
    {
      assert b.IsEmptyCell(p);
    }
  }

  /** Marks lit and blocked every cell of the ray from `s` in direction `d`, up to
      the first wall or the edge. */
  method LightRay(b: GameBoard, s: Point, d: Dir)
    requires b.Valid()
    modifies b.lit, b.blocked
    ensures forall r, c :: 0 <= r < b.size && 0 <= c < b.size ==>
              b.lit[r, c] == (old(b.lit[r, c]) || Point(r, c) in Segment(s, d, Reach(b, s, d)))
    ensures forall r, c :: 0 <= r < b.size && 0 <= c < b.size ==>
              b.blocked[r, c] == (old(b.blocked[r, c]) || Point(r, c) in Segment(s, d, Reach(b, s, d)))
  {
    var q := Step(s, d);
    ghost var k: nat := 0;
    ghost var ray: set<Point> := {};
    while b.IsValidCell(q.x, q.y) && b.GetCellType(q.x, q.y) != Black && b.GetCellType(q.x, q.y) != Numbered
      invariant q == Shift(s, d, k + 1) && Reach(b, s, d) == k + RunLength(b, q, d)
      invariant ray == Segment(s, d, k)
      invariant forall r, c :: 0 <= r < b.size && 0 <= c < b.size ==> b.lit[r, c] == (old(b.lit[r, c]) || Point(r, c) in ray)
      invariant forall r, c :: 0 <= r < b.size && 0 <= c < b.size ==> b.blocked[r, c] == (old(b.blocked[r, c]) || Point(r, c) in ray)
      decreases CellsAhead(b.size, q, d)
    {
      MarkLitAndBlocked(b, q);
      SegmentExtend(s, d, k);
      ShiftStep(s, d, k + 1);
      CellsAheadStep(b.size, q, d);
      ray := ray + {q};
      q := Step(q, d);
      k := k + 1;
    }
    assert !b.IsEmptyCell(q);
  }

  /** Sets both flags of `q`; every other cell keeps its flags. */
  method MarkLitAndBlocked(b: GameBoard, q: Point)
    requires b.Valid() && b.IsValidCell(q.x, q.y)
    modifies b.lit, b.blocked
    ensures forall r, c :: 0 <= r < b.size && 0 <= c < b.size ==> b.lit[r, c] == (old(b.lit[r, c]) || Point(r, c) == q)
    ensures forall r, c :: 0 <= r < b.size && 0 <= c < b.size ==> b.blocked[r, c] == (old(b.blocked[r, c]) || Point(r, c) == q)
  {
    b.SetLit(q.x, q.y, true);
    b.SetBlocked(q.x, q.y, true);
  }

  /** The solver over one board: the rooms of EMPTY cells are computed once, when the
      solver is built, and are not recomputed as bulbs are placed. */
  class AlgorithmSolver {
    const board: GameBoard
    const components: seq<set<Point>>
    ghost const starts: seq<Point>

    /** What the move selection relies on: a valid board whose rooms lie on it. */
    ghost predicate Valid()
    {
      && board.Valid()
      && forall k, p :: 0 <= k < |components| && p in components[k] ==> board.IsValidCell(p.x, p.y)
    }

    /** The rooms are the 4-connected components of the EMPTY cells, numbered in
        row-major order of their first cells. */
    ghost predicate RoomsArePartition()
      requires board.Valid()
    {
      IsRoomPartition(board, components, starts) && NumberedByFirstCell(components, starts)
    }

    constructor (b: GameBoard)
      requires b.Valid()
      ensures Valid() && RoomsArePartition() && board == b
    {
      var rooms;
      ghost var firsts;
      rooms, firsts := FindConnectedComponents(b);
      RoomCellsOnBoard(b, rooms, firsts);
      board, components, starts := b, rooms, firsts;
    }

    /** Lights and blocks the cell (startRow, startCol) and every cell it sees. Flags
        already set stay set; no other cell changes. */
    method ModifiedBFS(startRow: int, startCol: int)
      requires board.Valid() && board.IsValidCell(startRow, startCol)
      modifies board.lit, board.blocked
      ensures forall r, c :: 0 <= r < board.size && 0 <= c < board.size ==> board.bulbs[r, c] == old(board.bulbs[r, c])
      ensures forall r, c :: 0 <= r < board.size && 0 <= c < board.size ==>
                board.lit[r, c] == (old(board.lit[r, c]) || (r == startRow && c == startCol)
                                    || Visible(board, Point(startRow, startCol), Point(r, c)))
      ensures forall r, c :: 0 <= r < board.size && 0 <= c < board.size ==>
                board.blocked[r, c] == (old(board.blocked[r, c]) || (r == startRow && c == startCol)
                                        || Visible(board, Point(startRow, startCol), Point(r, c)))
    {
      var s := Point(startRow, startCol);
      MarkLitAndBlocked(board, s);
      for i := 0 to 4
        invariant forall r, c :: 0 <= r < board.size && 0 <= c < board.size ==>
                    board.lit[r, c] == (old(board.lit[r, c]) || Point(r, c) in {s} + FirstRays(board, s, i))
        invariant forall r, c :: 0 <= r < board.size && 0 <= c < board.size ==>
                    board.blocked[r, c] == (old(board.blocked[r, c]) || Point(r, c) in {s} + FirstRays(board, s, i))
      {
        LightRay(board, s, ScanOrder[i]);
      }
      FirstRaysAreVisible(board, s);
    }

    /** Propagates light from a bulb just placed at (row, col). */
    method UpdateAfterBulbPlacement(row: int, col: int)
      requires board.Valid() && board.IsValidCell(row, col)
      modifies board.lit, board.blocked
      ensures forall r, c :: 0 <= r < board.size && 0 <= c < board.size ==>
                board.lit[r, c] == (old(board.lit[r, c]) || (r == row && c == col) || Visible(board, Point(row, col), Point(r, c)))
      ensures forall r, c :: 0 <= r < board.size && 0 <= c < board.size ==>
                board.blocked[r, c] == (old(board.blocked[r, c]) || (r == row && c == col) || Visible(board, Point(row, col), Point(r, c)))
    {
      ModifiedBFS(row, col);
    }

    /** The solver's next move: the first forced move in row-major order when a
        numbered cell forces one; otherwise the greedy rule's choice; None when
        neither rule finds a cell. */
    method FindOptimalBulbPlacement() returns (move: Option<Point>)
      requires Valid()
      ensures !NoForcing(board) ==> move.Some? && IsForcedMove(board, move.value)
      ensures NoForcing(board) && move.Some? ==> exists k :: IsGreedyMove(board, components, k, move.value)
      ensures NoForcing(board) && move.None? ==> NoCandidateLeft(board, components)
    {
      move := ForcedMove(board);
      if move.None? {
        move := GreedyMove(board, components);
      }
    }

    /** Propagating twice from the same cell leaves the same flags as propagating
        once: the second run finds every flag it would set already set. */
    method ModifiedBFSTwice(row: int, col: int)
      requires board.Valid() && board.IsValidCell(row, col)
      modifies board.lit, board.blocked
      ensures forall r, c :: 0 <= r < board.size && 0 <= c < board.size ==>
                board.lit[r, c] == (old(board.lit[r, c]) || (r == row && c == col) || Visible(board, Point(row, col), Point(r, c)))
      ensures forall r, c :: 0 <= r < board.size && 0 <= c < board.size ==>
                board.blocked[r, c] == (old(board.blocked[r, c]) || (r == row && c == col) || Visible(board, Point(row, col), Point(r, c)))
    {
      ModifiedBFS(row, col);
      ModifiedBFS(row, col);
    }
  }
}
