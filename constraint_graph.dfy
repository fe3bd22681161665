/** Read-only queries about the numbered walls: which numbered cells surround a
    cell, and how many bulbs and free cells surround a numbered cell. */
module Constraints {
  import opened Board

  /** The cells of `ps` all lie on the board. */
  predicate AllOnBoard(b: GameBoard, ps: seq<Point>)
  {
    forall p :: p in ps ==> b.IsValidCell(p.x, p.y)
  }

  predicate Distinct(ps: seq<Point>)
  {
    forall i, j :: 0 <= i < j < |ps| ==> ps[i] != ps[j]
  }

  /** A cell that may still receive a bulb: neither blocked nor holding one. */
  predicate IsFree(b: GameBoard, p: Point)
    requires b.Valid() && b.IsValidCell(p.x, p.y)
    reads b.bulbs, b.blocked
  {
    !b.IsBlocked(p.x, p.y) && !b.HasBulb(p.x, p.y)
  }

  /** The in-bounds NUMBERED orthogonal neighbours of (row, col). */
  function GetNumberedNeighbors(b: GameBoard, row: int, col: int): (r: seq<Point>)
    requires b.Valid()
    ensures |r| <= 4
    ensures forall p :: p in r <==> b.IsCellOfKind(p, Numbered) && Adjacent(Point(row, col), p)
  {
    b.NeighboursOfKind(row, col, Numbered)
  }

  /** How many cells of `ps` hold a bulb. */
  function CountBulbs(b: GameBoard, ps: seq<Point>): (n: nat)
    requires b.Valid() && AllOnBoard(b, ps) && Distinct(ps)
    reads b.bulbs
    ensures n == |set p | p in ps && b.HasBulb(p.x, p.y)|
  {
    if ps == [] then 0
    else
      var rest := CountBulbs(b, ps[1..]);
      assert (set p | p in ps && b.HasBulb(p.x, p.y))
          == (if b.HasBulb(ps[0].x, ps[0].y) then {ps[0]} else {}) + (set p | p in ps[1..] && b.HasBulb(p.x, p.y));
      (if b.HasBulb(ps[0].x, ps[0].y) then 1 else 0) + rest
  }

  /** How many cells of `ps` are free (no bulb, not blocked). */
  function CountFree(b: GameBoard, ps: seq<Point>): (n: nat)
    requires b.Valid() && AllOnBoard(b, ps) && Distinct(ps)
    reads b.bulbs, b.blocked
    ensures n == |set p | p in ps && IsFree(b, p)|
  {
    if ps == [] then 0
    else
      var rest := CountFree(b, ps[1..]);
      assert (set p | p in ps && IsFree(b, p))
          == (if IsFree(b, ps[0]) then {ps[0]} else {}) + (set p | p in ps[1..] && IsFree(b, p));
      (if IsFree(b, ps[0]) then 1 else 0) + rest
  }

  /** The number of EMPTY neighbours of (row, col) that hold a bulb. */
  function CountPlacedBulbs(b: GameBoard, row: int, col: int): (n: nat)
    requires b.Valid()
    reads b.bulbs
    ensures n <= 4
    ensures n == |set p | p in b.AdjacentEmptyCells(row, col) && b.HasBulb(p.x, p.y)|
  {
    var adjacent := b.AdjacentEmptyCells(row, col);
    BulbsAndFreeAtMostLength(b, adjacent);
    CountBulbs(b, adjacent)
  }

  /** The number of EMPTY neighbours of (row, col) that are neither blocked nor hold a bulb. */
  function CountFreeAdjacent(b: GameBoard, row: int, col: int): (n: nat)
    requires b.Valid()
    reads b.bulbs, b.blocked
    ensures n <= 4
    ensures n == |set p | p in b.AdjacentEmptyCells(row, col) && IsFree(b, p)|
  {
    var adjacent := b.AdjacentEmptyCells(row, col);
    BulbsAndFreeAtMostLength(b, adjacent);
    CountFree(b, adjacent)
  }

  /** A cell holding a bulb is never free, so the two counts share no cell. */
  lemma {:induction false} BulbsAndFreeAtMostLength(b: GameBoard, ps: seq<Point>)
    requires b.Valid() && AllOnBoard(b, ps) && Distinct(ps)
    ensures CountBulbs(b, ps) + CountFree(b, ps) <= |ps|
  {
    if ps != [] {
      BulbsAndFreeAtMostLength(b, ps[1..]);
    }
  }

  /** Placed bulbs and free cells around a cell never add up to more than its EMPTY neighbours. */
  lemma PlacedPlusFreeAtMostAdjacent(b: GameBoard, row: int, col: int)
    requires b.Valid()
    ensures CountPlacedBulbs(b, row, col) + CountFreeAdjacent(b, row, col) <= |b.AdjacentEmptyCells(row, col)|
  {
    BulbsAndFreeAtMostLength(b, b.AdjacentEmptyCells(row, col));
  }
}
