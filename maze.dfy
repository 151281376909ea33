/**
 * The grid data model shared by the maze generator and the five solvers:
 * coordinates, the four wall directions, cells, steps, and the movement
 * relation that every solver uses (a move leaves the current cell through a
 * side whose wall flag is down and lands inside the grid).
 */
module Maze {

  datatype Option<T> = None | Some(value: T)

  /** A zero-based (row, col) position. */
  datatype Coord = Coord(row: int, col: int)

  /** The four sides of a cell, each of which may carry a wall. */
  datatype Dir = Top | Right | Bottom | Left

  function DRow(d: Dir): int
  {
    match d
    case Top => -1
    case Bottom => 1
    case _ => 0
  }

  function DCol(d: Dir): int
  {
    match d
    case Left => -1
    case Right => 1
    case _ => 0
  }

  /** The cell one step away from `c` in direction `d`. */
  function Move(c: Coord, d: Dir): Coord
  {
    Coord(c.row + DRow(d), c.col + DCol(d))
  }

  /** The side of the neighbour that faces back. */
  function Opposite(d: Dir): Dir
  {
    match d
    case Top => Bottom
    case Right => Left
    case Bottom => Top
    case Left => Right
  }

  lemma MoveOpposite(c: Coord, d: Dir)
    ensures Move(Move(c, d), Opposite(d)) == c
    ensures Opposite(Opposite(d)) == d
    ensures Move(c, d) != c
  {
  }

  /** The four wall flags of a cell; `true` means the wall is present. */
  datatype Walls = Walls(top: bool, right: bool, bottom: bool, left: bool)
  {
    function Has(d: Dir): bool
    {
      match d
      case Top => top
      case Right => right
      case Bottom => bottom
      case Left => left
    }

    /** These walls with the wall on side `d` knocked down. */
    function Without(d: Dir): (w: Walls)
      ensures !w.Has(d)
      ensures forall e :: e != d ==> w.Has(e) == Has(e)
    {
      match d
      case Top => this.(top := false)
      case Right => this.(right := false)
      case Bottom => this.(bottom := false)
      case Left => this.(left := false)
    }
  }

  const AllWalls := Walls(true, true, true, true)

  /**
   * A grid cell. `visited` is the generator's transient marker; `bomb` is
   * the flag the backtracking solver refuses to enter (absent, hence false,
   * on every cell the generator builds).
   */
  datatype Cell = Cell(row: int, col: int, walls: Walls, visited: bool, bomb: bool)

  /** One entry of a trace: a coordinate tagged as explored or as on the route. */
  datatype Step = Step(coord: Coord, isPath: bool)

  /** A grid as the solvers receive it: `grid[row][col]`. */
  type Grid = seq<seq<Cell>>

  /** At least one row, and every row as long as the first. */
  predicate Wf(g: Grid)
  {
    |g| > 0 && forall r :: 0 <= r < |g| ==> |g[r]| == |g[0]|
  }

  function Rows(g: Grid): nat
  {
    |g|
  }

  function Cols(g: Grid): nat
  {
    if |g| == 0 then 0 else |g[0]|
  }

  predicate InBounds(g: Grid, c: Coord)
  {
    0 <= c.row < Rows(g) && 0 <= c.col < Cols(g)
  }

  function At(g: Grid, c: Coord): Cell
    requires Wf(g) && InBounds(g, c)
  {
    g[c.row][c.col]
  }

  /** A solver may leave `c` through side `d`: both cells in bounds, the wall of `c` down. */
  predicate Passable(g: Grid, c: Coord, d: Dir)
  {
    Wf(g) && InBounds(g, c) && InBounds(g, Move(c, d)) && !At(g, c).walls.Has(d)
  }

  /** One legal move from `a` to `b`. */
  predicate Link(g: Grid, a: Coord, b: Coord)
  {
    (Passable(g, a, Top) && b == Move(a, Top)) ||
    (Passable(g, a, Right) && b == Move(a, Right)) ||
    (Passable(g, a, Bottom) && b == Move(a, Bottom)) ||
    (Passable(g, a, Left) && b == Move(a, Left))
  }

  lemma LinkIff(g: Grid, a: Coord, d: Dir)
    ensures Passable(g, a, d) ==> Link(g, a, Move(a, d))
    ensures Link(g, a, Move(a, d)) ==> Passable(g, a, d)
  {
  }

  /** A sequence of cells, each one legal move from the one before. */
  predicate IsRoute(g: Grid, p: seq<Coord>)
  {
    Wf(g) && |p| > 0 && InBounds(g, p[0]) &&
    forall i :: 0 <= i < |p| - 1 ==> Link(g, p[i], p[i + 1])
  }

  predicate RouteBetween(g: Grid, p: seq<Coord>, a: Coord, b: Coord)
  {
    IsRoute(g, p) && p[0] == a && p[|p| - 1] == b
  }

  ghost predicate Reachable(g: Grid, a: Coord, b: Coord)
  {
    exists p :: RouteBetween(g, p, a, b)
  }

  /**
   * Every wall flag agrees with the facing flag of the neighbour behind it:
   * a cell's bottom flag with the top flag of the cell below, its right flag
   * with the left flag of the cell to its right.
   */
  ghost predicate WallSymmetric(g: Grid)
  {
    Wf(g) &&
    forall c {:trigger At(g, c)} :: InBounds(g, c) ==>
      (c.row + 1 < Rows(g) ==> At(g, c).walls.bottom == g[c.row + 1][c.col].walls.top) &&
      (c.col + 1 < Cols(g) ==> At(g, c).walls.right == g[c.row][c.col + 1].walls.left)
  }

  /** Under wall symmetry the two flags on either side of any inner boundary agree. */
  lemma SymmetricFlags(g: Grid, c: Coord, d: Dir)
    requires WallSymmetric(g) && InBounds(g, c) && InBounds(g, Move(c, d))
    ensures At(g, c).walls.Has(d) == At(g, Move(c, d)).walls.Has(Opposite(d))
  {
    var n := Move(c, d);
    assert At(g, c) == At(g, c) && At(g, n) == At(g, n);
  }

  /** With symmetric walls a move can be made backwards, and neither side of the boundary has a wall. */
  lemma LinkSymmetric(g: Grid, a: Coord, b: Coord)
    requires WallSymmetric(g) && Link(g, a, b)
    ensures Link(g, b, a)
  {
    var d :| d in {Top, Right, Bottom, Left} && Passable(g, a, d) && b == Move(a, d);
    MoveOpposite(a, d);
    SymmetricFlags(g, a, d);
    assert Passable(g, b, Opposite(d));
    LinkIff(g, b, Opposite(d));
  }

  /** Under wall symmetry a route read backwards is again a route. */
  lemma {:induction false} RouteReversible(g: Grid, p: seq<Coord>)
    requires WallSymmetric(g) && IsRoute(g, p)
    ensures IsRoute(g, Reverse(p))
    decreases |p|
  {
    var q := Reverse(p);
    ReverseIndex(p);
    forall i | 0 <= i < |q| - 1
      ensures Link(g, q[i], q[i + 1])
    {
      LinkSymmetric(g, p[|p| - 2 - i], p[|p| - 1 - i]);
    }
    assert InBounds(g, q[0]) by {
      if |p| == 1 {
      } else {
        assert Link(g, p[|p| - 2], p[|p| - 1]);
      }
    }
  }

  /** A route with one more cell that is one legal move from its last cell. */
  lemma RouteExtend(g: Grid, p: seq<Coord>, b: Coord)
    requires IsRoute(g, p) && Link(g, p[|p| - 1], b)
    ensures IsRoute(g, p + [b])
  {
    var q := p + [b];
    forall i | 0 <= i < |q| - 1
      ensures Link(g, q[i], q[i + 1])
    {
      if i < |p| - 1 {
        assert q[i] == p[i] && q[i + 1] == p[i + 1];
      }
    }
  }

  /** Sequences read from the back. */
  function Reverse<T>(s: seq<T>): (r: seq<T>)
    ensures |r| == |s|
  {
    if s == [] then [] else Reverse(s[1..]) + [s[0]]
  }

  lemma {:induction false} ReverseIndex<T>(s: seq<T>)
    ensures |Reverse(s)| == |s|
    ensures forall k :: 0 <= k < |s| ==> Reverse(s)[k] == s[|s| - 1 - k]
    decreases |s|
  {
    if s != [] {
      ReverseIndex(s[1..]);
    }
  }

  /** The coordinates of a trace. */
  function Coords(ss: seq<Step>): (cs: seq<Coord>)
    ensures |cs| == |ss|
    ensures forall i :: 0 <= i < |ss| ==> cs[i] == ss[i].coord
  {
    seq(|ss|, i requires 0 <= i < |ss| => ss[i].coord)
  }

  /** Every step of the trace carries the tag `isPath`. */
  predicate AllTagged(ss: seq<Step>, isPath: bool)
  {
    forall i :: 0 <= i < |ss| ==> ss[i].isPath == isPath
  }

  predicate Distinct<T(==)>(s: seq<T>)
  {
    forall i, j :: 0 <= i < j < |s| ==> s[i] != s[j]
  }

  /** Appending an element not yet present keeps a sequence free of repeats. */
  lemma DistinctAppend<T>(s: seq<T>, x: T)
    requires Distinct(s) && x !in s
    ensures Distinct(s + [x])
  {
    var t := s + [x];
    forall i, j | 0 <= i < j < |t|
      ensures t[i] != t[j]
    {
      if j == |s| {
        assert t[i] == s[i];
      }
    }
  }

  /** Every cell of a `rows` by `cols` grid. */
  function AllCells(rows: nat, cols: nat): (s: set<Coord>)
    ensures forall c :: c in s <==> 0 <= c.row < rows && 0 <= c.col < cols
  {
    set r, c | 0 <= r < rows && 0 <= c < cols :: Coord(r, c)
  }

  function RowCells(r: int, cols: nat): (s: set<Coord>)
    ensures forall c :: c in s <==> c.row == r && 0 <= c.col < cols
  {
    set c | 0 <= c < cols :: Coord(r, c)
  }

  lemma {:induction false} RowCellsCount(r: int, cols: nat)
    ensures |RowCells(r, cols)| == cols
    decreases cols
  {
    if cols > 0 {
      RowCellsCount(r, cols - 1);
      assert RowCells(r, cols) == RowCells(r, cols - 1) + {Coord(r, cols - 1)};
    }
  }

  /** A `rows` by `cols` grid has `rows * cols` cells. */
  lemma {:induction false} AllCellsCount(rows: nat, cols: nat)
    ensures |AllCells(rows, cols)| == rows * cols
    decreases rows
  {
    if rows > 0 {
      AllCellsCount(rows - 1, cols);
      RowCellsCount(rows - 1, cols);
      var top, last := AllCells(rows - 1, cols), RowCells(rows - 1, cols);
      assert AllCells(rows, cols) == top + last;
      assert top * last == {};
      assert |top + last| == |top| + |last|;
      assert rows * cols == (rows - 1) * cols + cols;
    }
  }

  lemma {:induction false} DistinctCard<T>(s: seq<T>)
    requires Distinct(s)
    ensures |set x | x in s| == |s|
    decreases |s|
  {
    if s != [] {
      var t := s[..|s| - 1];
      DistinctCard(t);
      assert (set x | x in s) == (set x | x in t) + {s[|s| - 1]};
      assert s[|s| - 1] !in (set x | x in t);
    }
  }

  lemma SubsetCard<T>(a: set<T>, b: set<T>)
    requires a <= b
    ensures |a| <= |b|
  {
    assert b == a + (b - a);
  }

  /**
   * A trace that never repeats a cell and stays in bounds has at most
   * `rows * cols` entries: each cell is explored at most once.
   */
  lemma DistinctCellsBound(g: Grid, s: seq<Coord>)
    requires Distinct(s)
    requires forall i :: 0 <= i < |s| ==> InBounds(g, s[i])
    ensures |s| <= Rows(g) * Cols(g)
  {
    DistinctCard(s);
    AllCellsCount(Rows(g), Cols(g));
    SubsetCard((set x | x in s), AllCells(Rows(g), Cols(g)));
  }
}
