/** The Light Up board: a square grid of integer-coded cells plus three
    per-cell flag layers (bulbs, lit, blocked) that the solver updates in place. */
module Board {

  /** A grid position: `x` is the row, `y` the column. */
  datatype Point = Point(x: int, y: int)

  datatype CellType = Black | Numbered | Empty

  /** The four axis directions. */
  datatype Dir = Up | Down | Left | Right

  /** The point `k` steps away from `p` in direction `d`. */
  function Shift(p: Point, d: Dir, k: int): Point
  {
    match d
    case Up => Point(p.x - k, p.y)
    case Down => Point(p.x + k, p.y)
    case Left => Point(p.x, p.y - k)
    case Right => Point(p.x, p.y + k)
  }

  /** The order in which the solver scans the four directions: right, left, down, up. */
  const ScanOrder: seq<Dir> := [Right, Left, Down, Up]

  function Step(p: Point, d: Dir): Point
  {
    Shift(p, d, 1)
  }

  /** `p` comes before (row, col) in row-major order. */
  predicate Before(p: Point, row: int, col: int)
  {
    p.x < row || (p.x == row && p.y < col)
  }

  function Distance(p: Point, q: Point): nat
  {
    (if p.x <= q.x then q.x - p.x else p.x - q.x) + (if p.y <= q.y then q.y - p.y else p.y - q.y)
  }

  /** Orthogonal neighbours are exactly the points at Manhattan distance 1. */
  predicate Adjacent(p: Point, q: Point)
  {
    Distance(p, q) == 1
  }

  /** Position of a neighbour of `c` in the order up, down, left, right. */
  function NeighbourRank(c: Point, p: Point): int
  {
    if p == Step(c, Up) then 0
    else if p == Step(c, Down) then 1
    else if p == Step(c, Left) then 2
    else 3
  }

  /** Neighbours listed in strictly increasing up, down, left, right order. */
  predicate RankSorted(c: Point, s: seq<Point>)
  {
    forall i, j :: 0 <= i < j < |s| ==> NeighbourRank(c, s[i]) < NeighbourRank(c, s[j])
  }

  lemma PrependSorted(c: Point, s: seq<Point>, t: seq<Point>, k: int)
    requires |s| <= 1 && forall i :: 0 <= i < |s| ==> NeighbourRank(c, s[i]) == k
    requires RankSorted(c, t) && forall j :: 0 <= j < |t| ==> NeighbourRank(c, t[j]) > k
    ensures RankSorted(c, s + t)
    ensures forall j :: 0 <= j < |s + t| ==> NeighbourRank(c, (s + t)[j]) >= k
  {
  }

  lemma AdjacentIsStep(c: Point)
    ensures forall p :: Adjacent(c, p) <==> p in {Step(c, Up), Step(c, Down), Step(c, Left), Step(c, Right)}
  {
  }

  /** The integer encoding of a cell: -1 is a black wall, 0..4 a numbered wall,
      every other value (5 and up, -2 and below) an empty cell. */
  function CellTypeOf(v: int): (t: CellType)
    ensures t == Black <==> v == -1
    ensures t == Numbered <==> 0 <= v <= 4
    ensures t == Empty <==> (v < -1 || 4 < v)
  {
    if v == -1 then Black
    else if 0 <= v <= 4 then Numbered
    else Empty
  }

  class GameBoard {
    const size: nat
    const grid: seq<seq<int>>
    const bulbs: array2<bool>
    const lit: array2<bool>
    const blocked: array2<bool>

    /** The grid is size x size and each flag layer is its own size x size array. */
    predicate Valid()
    {
      && |grid| == size
      && (forall r :: 0 <= r < size ==> |grid[r]| == size)
      && bulbs.Length0 == size && bulbs.Length1 == size
      && lit.Length0 == size && lit.Length1 == size
      && blocked.Length0 == size && blocked.Length1 == size
      && bulbs != lit && bulbs != blocked && lit != blocked
    }

    /** A fresh board over a square puzzle: every flag starts false. */
    constructor (puzzle: seq<seq<int>>)
      requires forall r :: 0 <= r < |puzzle| ==> |puzzle[r]| == |puzzle|
      ensures Valid() && size == |puzzle| && grid == puzzle
      ensures fresh(bulbs) && fresh(lit) && fresh(blocked)
      ensures forall r, c :: 0 <= r < size && 0 <= c < size ==> !bulbs[r, c] && !lit[r, c] && !blocked[r, c]
    {
      size := |puzzle|;
      grid := puzzle;
      bulbs := new bool[|puzzle|, |puzzle|]((r, c) => false);
      lit := new bool[|puzzle|, |puzzle|]((r, c) => false);
      blocked := new bool[|puzzle|, |puzzle|]((r, c) => false);
    }

    predicate IsValidCell(row: int, col: int)
    {
      0 <= row < size && 0 <= col < size
    }

    function GetCellType(row: int, col: int): CellType
      requires Valid() && IsValidCell(row, col)
    {
      CellTypeOf(grid[row][col])
    }

    function GetNumberValue(row: int, col: int): int
      requires Valid() && IsValidCell(row, col)
    {
      grid[row][col]
    }

    /** `p` is inside the board and of the given kind. */
    predicate IsCellOfKind(p: Point, kind: CellType)
      requires Valid()
    {
      IsValidCell(p.x, p.y) && GetCellType(p.x, p.y) == kind
    }

    predicate IsEmptyCell(p: Point)
      requires Valid()
    {
      IsCellOfKind(p, Empty)
    }

    predicate HasBulb(row: int, col: int)
      requires Valid() && IsValidCell(row, col)
      reads bulbs
    {
      bulbs[row, col]
    }

    predicate IsLit(row: int, col: int)
      requires Valid() && IsValidCell(row, col)
      reads lit
    {
      lit[row, col]
    }

    predicate IsBlocked(row: int, col: int)
      requires Valid() && IsValidCell(row, col)
      reads blocked
    {
      blocked[row, col]
    }

    method PlaceBulb(row: int, col: int)
      requires Valid() && IsValidCell(row, col)
      modifies bulbs
      ensures bulbs[row, col]
      ensures forall r, c :: 0 <= r < size && 0 <= c < size && (r, c) != (row, col) ==> bulbs[r, c] == old(bulbs[r, c])
    {
      bulbs[row, col] := true;
    }

    method SetLit(row: int, col: int, value: bool)
      requires Valid() && IsValidCell(row, col)
      modifies lit
      ensures lit[row, col] == value
      ensures forall r, c :: 0 <= r < size && 0 <= c < size && (r, c) != (row, col) ==> lit[r, c] == old(lit[r, c])
    {
      lit[row, col] := value;
    }

    method SetBlocked(row: int, col: int, value: bool)
      requires Valid() && IsValidCell(row, col)
      modifies blocked
      ensures blocked[row, col] == value
      ensures forall r, c :: 0 <= r < size && 0 <= c < size && (r, c) != (row, col) ==> blocked[r, c] == old(blocked[r, c])
    {
      blocked[row, col] := value;
    }

    /** `[p]` when `p` is a cell of the given kind, `[]` otherwise. */
    function KeepIfKind(p: Point, kind: CellType): seq<Point>
      requires Valid()
    {
      if IsCellOfKind(p, kind) then [p] else []
    }

    /** The orthogonal neighbours of (row, col) of the given kind, scanned in the
        order up, down, left, right. */
    function NeighboursOfKind(row: int, col: int, kind: CellType): (r: seq<Point>)
      requires Valid()
      ensures |r| <= 4
      ensures forall p :: p in r <==> IsCellOfKind(p, kind) && Adjacent(Point(row, col), p)
      ensures RankSorted(Point(row, col), r)
    {
      var c := Point(row, col);
      var up, down, left, right := KeepIfKind(Step(c, Up), kind), KeepIfKind(Step(c, Down), kind),
                                   KeepIfKind(Step(c, Left), kind), KeepIfKind(Step(c, Right), kind);
      NeighboursOfKindProof(c, kind, up, down, left, right);
      up + (down + (left + right))
    }

    lemma NeighboursOfKindProof(c: Point, kind: CellType, up: seq<Point>, down: seq<Point>, left: seq<Point>, right: seq<Point>)
      requires Valid()
      requires up == KeepIfKind(Step(c, Up), kind) && down == KeepIfKind(Step(c, Down), kind)
      requires left == KeepIfKind(Step(c, Left), kind) && right == KeepIfKind(Step(c, Right), kind)
      ensures |up + (down + (left + right))| <= 4
      ensures forall p :: p in up + (down + (left + right)) <==> IsCellOfKind(p, kind) && Adjacent(c, p)
      ensures RankSorted(c, up + (down + (left + right)))
    {
      NeighboursMembership(c, kind, up, down, left, right);
      NeighboursOrder(c, up, down, left, right);
    }

    lemma NeighboursMembership(c: Point, kind: CellType, up: seq<Point>, down: seq<Point>, left: seq<Point>, right: seq<Point>)
      requires Valid()
      requires up == KeepIfKind(Step(c, Up), kind) && down == KeepIfKind(Step(c, Down), kind)
      requires left == KeepIfKind(Step(c, Left), kind) && right == KeepIfKind(Step(c, Right), kind)
      ensures forall p :: p in up + (down + (left + right)) <==> IsCellOfKind(p, kind) && Adjacent(c, p)
    {
      AdjacentIsStep(c);
    }

    lemma NeighboursOrder(c: Point, up: seq<Point>, down: seq<Point>, left: seq<Point>, right: seq<Point>)
      requires up == [] || up == [Step(c, Up)]
      requires down == [] || down == [Step(c, Down)]
      requires left == [] || left == [Step(c, Left)]
      requires right == [] || right == [Step(c, Right)]
      ensures RankSorted(c, up + (down + (left + right)))
    {
      SingleRank(c, right, Right, 3);
      SingleRank(c, left, Left, 2);
      PrependSorted(c, left, right, 2);
      SingleRank(c, down, Down, 1);
      PrependSorted(c, down, left + right, 1);
      SingleRank(c, up, Up, 0);
      PrependSorted(c, up, down + (left + right), 0);
    }

    lemma SingleRank(c: Point, s: seq<Point>, d: Dir, k: int)
      requires s == [] || s == [Step(c, d)]
      requires k == match d case Up => 0 case Down => 1 case Left => 2 case Right => 3
      ensures RankSorted(c, s) && forall i :: 0 <= i < |s| ==> NeighbourRank(c, s[i]) == k
    {
    }

    /** The in-bounds EMPTY orthogonal neighbours, in the order up, down, left, right. */
    function AdjacentEmptyCells(row: int, col: int): (r: seq<Point>)
      requires Valid()
      ensures |r| <= 4
      ensures forall p :: p in r <==> IsEmptyCell(p) && Adjacent(Point(row, col), p)
      ensures forall i :: 0 <= i < |r| ==> IsEmptyCell(r[i])
      ensures forall i, j :: 0 <= i < j < |r| ==> r[i] != r[j]
      ensures RankSorted(Point(row, col), r)
    {
      NeighboursOfKind(row, col, Empty)
    }
  }
}
