/**
 * The maze generator: a randomized recursive backtracker from (0, 0) that
 * carves a spanning tree of passages into a grid whose cells start with all
 * four walls, a pass that clears the transient `visited` markers, and a
 * braiding pass that knocks down up to `extraPaths` further walls.
 *
 * The grid is an `array2<Cell>` changed in place; its contents are read as a
 * value through `Snap`, and every property is stated on that value.
 * `Math.random` becomes a `Random` object over an arbitrary oracle of draws,
 * so every property holds for every sequence of random choices.
 */
module MazeGenerator {
  import opened Maze

  /** The generator's direction table, in its own order. */
  const Directions: seq<Dir> := [Top, Right, Bottom, Left]

  /**
   * A source of random numbers: the k-th draw is `draw(k)`, and a draw
   * scaled to `[0, n)` is `draw(k) % n`.
   */
  class Random {
    const draw: nat -> nat
    var count: nat

    constructor (draw: nat -> nat)
      ensures this.draw == draw && count == 0
    {
      this.draw := draw;
      count := 0;
    }

    /** `Math.floor(Math.random() * n)`. */
    method Below(n: nat) returns (v: nat)
      requires n > 0
      modifies this
      ensures v < n && v == draw(old(count)) % n
      ensures count == old(count) + 1
    {
      v := draw(count) % n;
      count := count + 1;
    }
  }

  // ---------------------------------------------------------------- shuffle

  function Swap<T>(s: seq<T>, i: nat, j: nat): seq<T>
    requires i < |s| && j < |s|
  {
    s[i := s[j]][j := s[i]]
  }

  /** The Fisher-Yates passes for positions i, i-1, ..., 1, using draws k, k+1, .... */
  function FisherYates<T>(s: seq<T>, i: nat, draw: nat -> nat, k: nat): seq<T>
    requires i < |s|
    decreases i
  {
    if i == 0 then s
    else FisherYates(Swap(s, i, draw(k) % (i + 1)), i - 1, draw, k + 1)
  }

  /** The first pass of `FisherYates` swaps position `i` with the k-th draw scaled to `[0, i]`. */
  lemma FisherYatesStep<T>(s: seq<T>, i: nat, draw: nat -> nat, k: nat)
    requires 0 < i < |s|
    ensures FisherYates(s, i, draw, k) == FisherYates(Swap(s, i, draw(k) % (i + 1)), i - 1, draw, k + 1)
  {
  }

  /** What `shuffle` leaves in an array holding `s`, when the first draw is the k-th. */
  function Shuffled<T>(s: seq<T>, draw: nat -> nat, k: nat): seq<T>
  {
    if |s| == 0 then s else FisherYates(s, |s| - 1, draw, k)
  }

  lemma SwapPermutes<T>(s: seq<T>, i: nat, j: nat)
    requires i < |s| && j < |s|
    ensures |Swap(s, i, j)| == |s|
    ensures multiset(Swap(s, i, j)) == multiset(s)
  {
    var t := s[i := s[j]];
    assert multiset(t) == multiset(s) - multiset{s[i]} + multiset{s[j]};
    assert t[j] == s[j];
  }

  lemma {:induction false} FisherYatesPermutes<T>(s: seq<T>, i: nat, draw: nat -> nat, k: nat)
    requires i < |s|
    ensures |FisherYates(s, i, draw, k)| == |s|
    ensures multiset(FisherYates(s, i, draw, k)) == multiset(s)
    decreases i
  {
    if i > 0 {
      var j := draw(k) % (i + 1);
      SwapPermutes(s, i, j);
      FisherYatesPermutes(Swap(s, i, j), i - 1, draw, k + 1);
    }
  }

  /** Whatever the draws, a shuffle is a permutation of its input. */
  lemma ShuffledPermutes<T>(s: seq<T>, draw: nat -> nat, k: nat)
    ensures |Shuffled(s, draw, k)| == |s|
    ensures multiset(Shuffled(s, draw, k)) == multiset(s)
  {
    if |s| > 0 {
      FisherYatesPermutes(s, |s| - 1, draw, k);
    }
  }

  /**
   * One pass of the shuffle loop: swap position `i` with a position drawn
   * from `[0, i]`; what the remaining passes produce is unchanged.
   */
  method SwapWithDraw<T>(a: array<T>, rng: Random, i: nat)
    requires 0 < i < a.Length
    modifies a, rng
    ensures a[..] == Swap(old(a[..]), i, rng.draw(old(rng.count)) % (i + 1))
    ensures rng.count == old(rng.count) + 1
    ensures FisherYates(a[..], i - 1, rng.draw, rng.count) == FisherYates(old(a[..]), i, rng.draw, old(rng.count))
  {
    ghost var s, k := a[..], rng.count;
    var j := rng.Below(i + 1);
    var x, y := a[j], a[i];
    a[i] := x;
    a[j] := y;
    assert a[..] == Swap(s, i, j);
    FisherYatesStep(s, i, rng.draw, k);
  }

  /** In-place Fisher-Yates shuffle, one swap per position from the last down to 1. */
  method Shuffle<T>(a: array<T>, rng: Random)
    modifies a, rng
    ensures a[..] == Shuffled(old(a[..]), rng.draw, old(rng.count))
    ensures multiset(a[..]) == multiset(old(a[..]))
    ensures rng.count == old(rng.count) + (if a.Length == 0 then 0 else a.Length - 1)
  {
    ghost var s0, k0 := a[..], rng.count;
    ShuffledPermutes(s0, rng.draw, k0);
    if a.Length == 0 {
      return;
    }
    ghost var target := Shuffled(s0, rng.draw, k0);
    var i: nat := a.Length - 1;
    while i > 0
      invariant i < a.Length
      invariant FisherYates(a[..], i, rng.draw, rng.count) == target
      invariant rng.count == k0 + (a.Length - 1 - i)
    {
      SwapWithDraw(a, rng, i);
      i := i - 1;
    }
    assert FisherYates(a[..], 0, rng.draw, rng.count) == a[..];
  }

  // ------------------------------------------------------ the grid as a value

  /** The contents of the grid array as a `Grid` value. */
  function Snap(grid: array2<Cell>): (g: Grid)
    reads grid
    ensures |g| == grid.Length0
    ensures forall r :: 0 <= r < |g| ==> |g[r]| == grid.Length1
    ensures forall r, c :: 0 <= r < grid.Length0 && 0 <= c < grid.Length1 ==> g[r][c] == grid[r, c]
  {
    seq(grid.Length0, r requires 0 <= r < grid.Length0 reads grid =>
      seq(grid.Length1, c requires 0 <= c < grid.Length1 reads grid => grid[r, c]))
  }

  /** Cell [r][c] knows its own coordinates. */
  ghost predicate Labelled(g: Grid)
  {
    Wf(g) && forall c {:trigger At(g, c)} :: InBounds(g, c) ==> At(g, c).row == c.row && At(g, c).col == c.col
  }

  ghost predicate NoBombs(g: Grid)
  {
    Wf(g) && forall c :: InBounds(g, c) ==> !At(g, c).bomb
  }

  /** A wall on the rim of the grid is never knocked down. */
  ghost predicate OuterWallsIntact(g: Grid)
  {
    Wf(g) &&
    forall c {:trigger At(g, c)} :: InBounds(g, c) ==>
      (c.row == 0 ==> At(g, c).walls.top) && (c.row == Rows(g) - 1 ==> At(g, c).walls.bottom) &&
      (c.col == 0 ==> At(g, c).walls.left) && (c.col == Cols(g) - 1 ==> At(g, c).walls.right)
  }

  /** On an intact rim, a side that leads off the grid carries its wall. */
  lemma RimFlag(g: Grid, c: Coord, d: Dir)
    requires OuterWallsIntact(g) && InBounds(g, c) && !InBounds(g, Move(c, d))
    ensures At(g, c).walls.Has(d)
  {
    var cell := At(g, c);  // names the term that triggers OuterWallsIntact's quantifier
  }

  /** Every unvisited cell other than `x` still has all four walls. */
  ghost predicate UnvisitedIntactExcept(g: Grid, x: Coord)
  {
    Wf(g) && forall c :: InBounds(g, c) && c != x && !At(g, c).visited ==> At(g, c).walls == AllWalls
  }

  ghost predicate UnvisitedIntact(g: Grid)
  {
    Wf(g) && forall c :: InBounds(g, c) && !At(g, c).visited ==> At(g, c).walls == AllWalls
  }

  ghost predicate AllUnvisited(g: Grid)
  {
    Wf(g) && forall c :: InBounds(g, c) ==> !At(g, c).visited
  }

  /** Every in-bounds neighbour of `x` carries the visited marker. */
  ghost predicate NeighboursVisited(g: Grid, x: Coord)
  {
    Wf(g) && forall d :: InBounds(g, Move(x, d)) ==> At(g, Move(x, d)).visited
  }

  /** What every grid satisfies between two steps of the generator. */
  ghost predicate GridInv(g: Grid)
  {
    Wf(g) && Labelled(g) && NoBombs(g) && WallSymmetric(g) && OuterWallsIntact(g)
  }

  ghost function VisitedSet(g: Grid): (s: set<Coord>)
    requires Wf(g)
    ensures forall c :: c in s <==> InBounds(g, c) && At(g, c).visited
  {
    set c | c in AllCells(Rows(g), Cols(g)) && At(g, c).visited
  }

  lemma VisitedSetBound(g: Grid)
    requires Wf(g)
    ensures |VisitedSet(g)| <= Rows(g) * Cols(g)
  {
    AllCellsCount(Rows(g), Cols(g));
    SubsetCard(VisitedSet(g), AllCells(Rows(g), Cols(g)));
  }

  /** `h` has the shape of `g` and no wall that `g` lacks. */
  ghost predicate WallsOnlyRemoved(g: Grid, h: Grid)
  {
    Wf(g) && Wf(h) && Rows(g) == Rows(h) && Cols(g) == Cols(h) &&
    forall c, d :: InBounds(g, c) && At(h, c).walls.Has(d) ==> At(g, c).walls.Has(d)
  }

  /** `h` has the shape and the walls of `g`. */
  ghost predicate SameWalls(g: Grid, h: Grid)
  {
    Wf(g) && Wf(h) && Rows(g) == Rows(h) && Cols(g) == Cols(h) &&
    forall c :: InBounds(g, c) ==> At(h, c).walls == At(g, c).walls
  }

  lemma LinkPersists(g: Grid, h: Grid, a: Coord, b: Coord)
    requires WallsOnlyRemoved(g, h) && Link(g, a, b)
    ensures Link(h, a, b)
  {
  }

  /** Knocking walls down never disconnects two cells. */
  lemma ReachablePersists(g: Grid, h: Grid, a: Coord, b: Coord)
    requires WallsOnlyRemoved(g, h) && Reachable(g, a, b)
    ensures Reachable(h, a, b)
  {
    var p :| RouteBetween(g, p, a, b);
    forall i | 0 <= i < |p| - 1
      ensures Link(h, p[i], p[i + 1])
    {
      LinkPersists(g, h, p[i], p[i + 1]);
    }
    assert RouteBetween(h, p, a, b);
  }

  lemma ReachablePrepend(g: Grid, a: Coord, b: Coord, x: Coord)
    requires Link(g, a, b) && Reachable(g, b, x)
    ensures Reachable(g, a, x)
  {
    var p :| RouteBetween(g, p, b, x);
    var q := [a] + p;
    forall i | 0 <= i < |q| - 1
      ensures Link(g, q[i], q[i + 1])
    {
      if i > 0 {
        assert q[i] == p[i - 1] && q[i + 1] == p[i];
      }
    }
    assert RouteBetween(g, q, a, x);
  }

  lemma ReachableRefl(g: Grid, a: Coord)
    requires Wf(g) && InBounds(g, a)
    ensures Reachable(g, a, a)
  {
    assert RouteBetween(g, [a], a, a);
  }

  // ---------------------------------------------------------------- boundaries

  /** A boundary between two cells, named by its upper or left cell and `Right` or `Bottom`. */
  datatype Edge = Edge(cell: Coord, dir: Dir)

  /** The boundary crossed when leaving `c` through side `d`. */
  function Boundary(c: Coord, d: Dir): Edge
  {
    match d
    case Right => Edge(c, Right)
    case Bottom => Edge(c, Bottom)
    case Left => Edge(Move(c, Left), Right)
    case Top => Edge(Move(c, Top), Bottom)
  }

  /** Both sides of a boundary name the same boundary. */
  lemma BoundaryShared(c: Coord, d: Dir)
    ensures Boundary(Move(c, d), Opposite(d)) == Boundary(c, d)
  {
  }

  /** A boundary is open when neither of its two wall flags is set. */
  ghost predicate IsOpen(g: Grid, e: Edge)
  {
    Passable(g, e.cell, e.dir) && Passable(g, Move(e.cell, e.dir), Opposite(e.dir))
  }

  ghost function OpenEdges(g: Grid): set<Edge>
    requires Wf(g)
  {
    set c, d | c in AllCells(Rows(g), Cols(g)) && d in {Right, Bottom} && IsOpen(g, Edge(c, d)) :: Edge(c, d)
  }

  lemma OpenEdgesMember(g: Grid, e: Edge)
    requires Wf(g)
    ensures e in OpenEdges(g) <==> (e.dir == Right || e.dir == Bottom) && IsOpen(g, e)
  {
    if (e.dir == Right || e.dir == Bottom) && IsOpen(g, e) {
      assert e.cell in AllCells(Rows(g), Cols(g));
    }
  }

  lemma BoundaryOpen(g: Grid, c: Coord, d: Dir)
    requires Wf(g)
    ensures Boundary(c, d) in OpenEdges(g) <==> Passable(g, c, d) && Passable(g, Move(c, d), Opposite(d))
  {
    OpenEdgesMember(g, Boundary(c, d));
    MoveOpposite(c, d);
  }

  function SetCell(g: Grid, c: Coord, x: Cell): Grid
    requires Wf(g) && InBounds(g, c)
  {
    g[c.row := g[c.row][c.col := x]]
  }

  /** The grid with the wall of `c` on side `d` and the facing wall of its neighbour knocked down. */
  function ClearBoundary(g: Grid, c: Coord, d: Dir): Grid
    requires Wf(g) && InBounds(g, c) && InBounds(g, Move(c, d))
  {
    var n := Move(c, d);
    var g1 := SetCell(g, c, At(g, c).(walls := At(g, c).walls.Without(d)));
    SetCell(g1, n, g[n.row][n.col].(walls := g[n.row][n.col].walls.Without(Opposite(d))))
  }

  lemma ClearBoundaryCells(g: Grid, c: Coord, d: Dir)
    requires Wf(g) && InBounds(g, c) && InBounds(g, Move(c, d))
    ensures var h := ClearBoundary(g, c, d);
      Wf(h) && Rows(h) == Rows(g) && Cols(h) == Cols(g) &&
      At(h, c) == At(g, c).(walls := At(g, c).walls.Without(d)) &&
      At(h, Move(c, d)) == At(g, Move(c, d)).(walls := At(g, Move(c, d)).walls.Without(Opposite(d))) &&
      forall x :: InBounds(g, x) && x != c && x != Move(c, d) ==> At(h, x) == At(g, x)
  {
    MoveOpposite(c, d);
  }

  /** `h` has the shape of `g`, and every cell keeps its labels and its two markers. */
  ghost predicate SameMarks(g: Grid, h: Grid)
  {
    Wf(g) && Wf(h) && Rows(g) == Rows(h) && Cols(g) == Cols(h) &&
    forall c :: InBounds(g, c) ==>
      At(h, c).row == At(g, c).row && At(h, c).col == At(g, c).col &&
      At(h, c).visited == At(g, c).visited && At(h, c).bomb == At(g, c).bomb
  }

  lemma SameMarksKeep(g: Grid, h: Grid)
    requires SameMarks(g, h)
    ensures Labelled(g) ==> Labelled(h)
    ensures NoBombs(g) ==> NoBombs(h)
    ensures AllUnvisited(g) ==> AllUnvisited(h)
    ensures VisitedSet(h) == VisitedSet(g)
  {
  }

  /** Clearing a boundary touches walls only, and only by knocking them down. */
  lemma ClearBoundaryMarks(g: Grid, c: Coord, d: Dir)
    requires Wf(g) && InBounds(g, c) && InBounds(g, Move(c, d))
    ensures SameMarks(g, ClearBoundary(g, c, d))
    ensures WallsOnlyRemoved(g, ClearBoundary(g, c, d))
  {
    var h := ClearBoundary(g, c, d);
    ClearBoundaryCells(g, c, d);
    forall x, e | InBounds(g, x) && At(h, x).walls.Has(e)
      ensures At(g, x).walls.Has(e)
    {
      FlagUnchanged(g, c, d, x, e);
    }
  }

  /** Clearing a boundary between two cells keeps the grid invariant. */
  lemma ClearBoundaryKeepsInv(g: Grid, c: Coord, d: Dir)
    requires GridInv(g) && InBounds(g, c) && InBounds(g, Move(c, d))
    ensures GridInv(ClearBoundary(g, c, d))
  {
    ClearBoundaryMarks(g, c, d);
    SameMarksKeep(g, ClearBoundary(g, c, d));
    ClearBoundaryKeepsSymmetry(g, c, d);
    ClearBoundaryKeepsRim(g, c, d);
  }

  /** Only the two cells of the cleared boundary change. */
  lemma ClearBoundaryIntact(g: Grid, c: Coord, d: Dir)
    requires Wf(g) && InBounds(g, c) && InBounds(g, Move(c, d))
    requires UnvisitedIntact(g) && At(g, c).visited
    ensures UnvisitedIntactExcept(ClearBoundary(g, c, d), Move(c, d))
  {
    ClearBoundaryCells(g, c, d);
  }

  lemma WallsOnlyRemovedTrans(g: Grid, h: Grid, k: Grid)
    requires WallsOnlyRemoved(g, h) && WallsOnlyRemoved(h, k)
    ensures WallsOnlyRemoved(g, k)
  {
  }

  lemma ClearBoundaryKeepsSymmetry(g: Grid, c: Coord, d: Dir)
    requires WallSymmetric(g) && InBounds(g, c) && InBounds(g, Move(c, d))
    ensures WallSymmetric(ClearBoundary(g, c, d))
  {
    var h := ClearBoundary(g, c, d);
    ClearBoundaryCells(g, c, d);
    forall x | InBounds(h, x)
      ensures x.row + 1 < Rows(h) ==> At(h, x).walls.bottom == h[x.row + 1][x.col].walls.top
      ensures x.col + 1 < Cols(h) ==> At(h, x).walls.right == h[x.row][x.col + 1].walls.left
    {
      if x.row + 1 < Rows(h) {
        ClearedPairAgrees(g, c, d, x, Bottom);
        assert At(h, Move(x, Bottom)) == h[x.row + 1][x.col];
      }
      if x.col + 1 < Cols(h) {
        ClearedPairAgrees(g, c, d, x, Right);
        assert At(h, Move(x, Right)) == h[x.row][x.col + 1];
      }
    }
  }

  /** After clearing a boundary, the two flags of any inner boundary still agree. */
  lemma ClearedPairAgrees(g: Grid, c: Coord, d: Dir, x: Coord, e: Dir)
    requires WallSymmetric(g) && InBounds(g, c) && InBounds(g, Move(c, d))
    requires InBounds(g, x) && InBounds(g, Move(x, e))
    ensures var h := ClearBoundary(g, c, d);
      Wf(h) && At(h, x).walls.Has(e) == At(h, Move(x, e)).walls.Has(Opposite(e))
  {
    ClearBoundaryCells(g, c, d);
    MoveOpposite(c, d);
    MoveOpposite(x, e);
    SymmetricFlags(g, x, e);
    FlagUnchanged(g, c, d, x, e);
    FlagUnchanged(g, c, d, Move(x, e), Opposite(e));
  }

  /** A wall flag other than the two on the cleared boundary is left as it was. */
  lemma FlagUnchanged(g: Grid, c: Coord, d: Dir, x: Coord, e: Dir)
    requires Wf(g) && InBounds(g, c) && InBounds(g, Move(c, d)) && InBounds(g, x)
    ensures var h := ClearBoundary(g, c, d);
      if (x == c && e == d) || (x == Move(c, d) && e == Opposite(d)) then !At(h, x).walls.Has(e)
      else At(h, x).walls.Has(e) == At(g, x).walls.Has(e)
  {
    ClearBoundaryCells(g, c, d);
    MoveOpposite(c, d);
  }

  lemma ClearBoundaryKeepsRim(g: Grid, c: Coord, d: Dir)
    requires OuterWallsIntact(g) && InBounds(g, c) && InBounds(g, Move(c, d))
    ensures OuterWallsIntact(ClearBoundary(g, c, d))
  {
    var h := ClearBoundary(g, c, d);
    ClearBoundaryCells(g, c, d);
    forall x | InBounds(h, x)
      ensures (x.row == 0 ==> At(h, x).walls.top) && (x.row == Rows(h) - 1 ==> At(h, x).walls.bottom) &&
              (x.col == 0 ==> At(h, x).walls.left) && (x.col == Cols(h) - 1 ==> At(h, x).walls.right)
    {
      forall e | !InBounds(h, Move(x, e))
        ensures At(h, x).walls.Has(e)
      {
        FlagUnchanged(g, c, d, x, e);
        MoveOpposite(c, d);
        RimFlag(g, x, e);
      }
      RimFromFlags(h, x);
    }
  }

  /** A cell whose every side leading off the grid is walled satisfies the rim conditions. */
  lemma RimFromFlags(h: Grid, x: Coord)
    requires Wf(h) && InBounds(h, x)
    requires forall e :: !InBounds(h, Move(x, e)) ==> At(h, x).walls.Has(e)
    ensures (x.row == 0 ==> At(h, x).walls.top) && (x.row == Rows(h) - 1 ==> At(h, x).walls.bottom) &&
            (x.col == 0 ==> At(h, x).walls.left) && (x.col == Cols(h) - 1 ==> At(h, x).walls.right)
  {
    assert x.row == 0 ==> !InBounds(h, Move(x, Top));
    assert x.row == Rows(h) - 1 ==> !InBounds(h, Move(x, Bottom));
    assert x.col == 0 ==> !InBounds(h, Move(x, Left));
    assert x.col == Cols(h) - 1 ==> !InBounds(h, Move(x, Right));
  }

  /** Clearing a boundary of a cell that still has all its walls opens exactly one more boundary. */
  lemma ClearBoundaryOpensOne(g: Grid, c: Coord, d: Dir)
    requires Wf(g) && InBounds(g, c) && InBounds(g, Move(c, d))
    requires At(g, c).walls.Has(d) || At(g, Move(c, d)).walls.Has(Opposite(d))
    ensures Boundary(c, d) !in OpenEdges(g)
    ensures OpenEdges(ClearBoundary(g, c, d)) == OpenEdges(g) + {Boundary(c, d)}
  {
    var h, n := ClearBoundary(g, c, d), Move(c, d);
    ClearBoundaryCells(g, c, d);
    MoveOpposite(c, d);
    BoundaryOpen(g, c, d);
    BoundaryOpen(h, c, d);
    forall e | e != Boundary(c, d)
      ensures e in OpenEdges(h) <==> e in OpenEdges(g)
    {
      ClearBoundaryOther(g, c, d, e);
    }
  }

  /** Clearing one boundary leaves every other boundary open or closed as it was. */
  lemma ClearBoundaryOther(g: Grid, c: Coord, d: Dir, e: Edge)
    requires Wf(g) && InBounds(g, c) && InBounds(g, Move(c, d)) && e != Boundary(c, d)
    ensures e in OpenEdges(ClearBoundary(g, c, d)) <==> e in OpenEdges(g)
  {
    var h, n := ClearBoundary(g, c, d), Move(c, d);
    ClearBoundaryCells(g, c, d);
    MoveOpposite(c, d);
    OpenEdgesMember(g, e);
    OpenEdgesMember(h, e);
    if e.dir == Right || e.dir == Bottom {
      var m := Move(e.cell, e.dir);
      BoundaryShared(e.cell, e.dir);
      MoveOpposite(e.cell, e.dir);
      assert Boundary(e.cell, e.dir) == e;
      assert !(e.cell == c && e.dir == d) && !(e.cell == n && e.dir == Opposite(d));
      assert !(m == c && Opposite(e.dir) == d) && !(m == n && Opposite(e.dir) == Opposite(d));
      if InBounds(g, e.cell) && InBounds(g, m) {
        assert At(h, e.cell).walls.Has(e.dir) == At(g, e.cell).walls.Has(e.dir);
        assert At(h, m).walls.Has(Opposite(e.dir)) == At(g, m).walls.Has(Opposite(e.dir));
      }
    }
  }

  lemma SameWallsKeep(g: Grid, h: Grid)
    requires SameWalls(g, h)
    ensures WallsOnlyRemoved(g, h)
    ensures WallSymmetric(g) ==> WallSymmetric(h)
    ensures OuterWallsIntact(g) ==> OuterWallsIntact(h)
    ensures OpenEdges(h) == OpenEdges(g)
  {
    forall e
      ensures e in OpenEdges(h) <==> e in OpenEdges(g)
    {
      OpenEdgesMember(g, e);
      OpenEdgesMember(h, e);
    }
    if WallSymmetric(g) {
      forall x | InBounds(h, x)
        ensures x.row + 1 < Rows(h) ==> At(h, x).walls.bottom == h[x.row + 1][x.col].walls.top
        ensures x.col + 1 < Cols(h) ==> At(h, x).walls.right == h[x.row][x.col + 1].walls.left
      {
        assert At(h, x).walls == At(g, x).walls;
        if x.row + 1 < Rows(h) {
          assert At(h, Coord(x.row + 1, x.col)).walls == At(g, Coord(x.row + 1, x.col)).walls;
        }
        if x.col + 1 < Cols(h) {
          assert At(h, Coord(x.row, x.col + 1)).walls == At(g, Coord(x.row, x.col + 1)).walls;
        }
      }
    }
  }

  /** A set of cells that holds (0, 0) and every neighbour of each of its cells holds every cell. */
  lemma ClosedHoldsAll(g: Grid)
    requires Wf(g) && InBounds(g, Coord(0, 0)) && At(g, Coord(0, 0)).visited
    requires forall x :: InBounds(g, x) && At(g, x).visited ==> NeighboursVisited(g, x)
    ensures forall x :: InBounds(g, x) ==> At(g, x).visited
  {
    forall x | InBounds(g, x)
      ensures At(g, x).visited
    {
      ClosedHoldsCell(g, x.row, x.col);
    }
  }

  lemma {:induction false} ClosedHoldsCell(g: Grid, r: nat, c: nat)
    requires Wf(g) && InBounds(g, Coord(0, 0)) && At(g, Coord(0, 0)).visited
    requires forall x :: InBounds(g, x) && At(g, x).visited ==> NeighboursVisited(g, x)
    requires InBounds(g, Coord(r, c))
    ensures At(g, Coord(r, c)).visited
    decreases r + c
  {
    if c > 0 {
      ClosedHoldsCell(g, r, c - 1);
      assert Move(Coord(r, c - 1), Right) == Coord(r, c);
    } else if r > 0 {
      ClosedHoldsCell(g, r - 1, c);
      assert Move(Coord(r - 1, c), Bottom) == Coord(r, c);
    }
  }


  // ------------------------------------------------------------- the carving

  /** Clears both wall flags of the boundary crossed leaving `c` through side `d`. */
  method OpenBoundary(grid: array2<Cell>, c: Coord, d: Dir)
    requires Wf(Snap(grid)) && InBounds(Snap(grid), c) && InBounds(Snap(grid), Move(c, d))
    modifies grid
    ensures Snap(grid) == ClearBoundary(old(Snap(grid)), c, d)
  {
    ghost var g := Snap(grid);
    var n := Move(c, d);
    grid[c.row, c.col] := grid[c.row, c.col].(walls := grid[c.row, c.col].walls.Without(d));
    grid[n.row, n.col] := grid[n.row, n.col].(walls := grid[n.row, n.col].walls.Without(Opposite(d)));
    ghost var h := ClearBoundary(g, c, d);
    ClearBoundaryCells(g, c, d);
    forall r | 0 <= r < grid.Length0
      ensures Snap(grid)[r] == h[r]
    {
      forall k | 0 <= k < grid.Length1
        ensures Snap(grid)[r][k] == h[r][k]
      {
        assert h[r][k] == At(h, Coord(r, k));
      }
    }
  }

  /** What `carve(cur)` needs: an unvisited cell, and every other unvisited cell still fully walled. */
  ghost predicate CarveReady(g: Grid, cur: Coord)
  {
    GridInv(g) && InBounds(g, cur) && !At(g, cur).visited && UnvisitedIntactExcept(g, cur)
  }

  /**
   * What `carve(cur)` leaves behind in `h`, started from `g`: the invariant
   * kept, walls only knocked down, `cur` marked, every newly marked cell
   * reachable from `cur` with all its neighbours marked, and one more open
   * boundary per newly marked cell except the first (a spanning tree).
   */
  ghost predicate Carved(g: Grid, h: Grid, cur: Coord)
  {
    GridInv(g) && GridInv(h) && UnvisitedIntact(h) && WallsOnlyRemoved(g, h) &&
    VisitedSet(g) + {cur} <= VisitedSet(h) &&
    (forall x :: x in VisitedSet(h) - VisitedSet(g) ==> NeighboursVisited(h, x) && Reachable(h, cur, x)) &&
    |OpenEdges(h)| + |VisitedSet(g)| + 1 == |OpenEdges(g)| + |VisitedSet(h)|
  }

  /** The state of `carve(cur)` after the first `i` directions of `order`, started from `g0`. */
  ghost predicate CarveLoop(g0: Grid, g: Grid, cur: Coord, order: seq<Dir>, i: nat)
  {
    CarveReady(g0, cur) && i <= |order| &&
    GridInv(g) && UnvisitedIntact(g) && WallsOnlyRemoved(g0, g) &&
    VisitedSet(g0) + {cur} <= VisitedSet(g) &&
    (forall j :: 0 <= j < i && InBounds(g, Move(cur, order[j])) ==> At(g, Move(cur, order[j])).visited) &&
    (forall x :: x in VisitedSet(g) - VisitedSet(g0) && x != cur ==> NeighboursVisited(g, x)) &&
    (forall x :: x in VisitedSet(g) - VisitedSet(g0) ==> Reachable(g, cur, x)) &&
    |OpenEdges(g)| + |VisitedSet(g0)| + 1 == |OpenEdges(g0)| + |VisitedSet(g)|
  }

  /**
   * `carve(row, col)`: marks `cur`, then tries each direction in shuffled
   * order.
   */
  method Carve(grid: array2<Cell>, rng: Random, cur: Coord)
    requires CarveReady(Snap(grid), cur)
    modifies grid, rng
    ensures Carved(old(Snap(grid)), Snap(grid), cur)
    decreases grid.Length0 * grid.Length1 - |VisitedSet(Snap(grid))|, 1
  {
    ghost var g0 := Snap(grid);
    grid[cur.row, cur.col] := grid[cur.row, cur.col].(visited := true);
    var dirs := new Dir[4](i requires 0 <= i < 4 => Directions[i]);
    assert dirs[..] == Directions;
    Shuffle(dirs, rng);
    var order := dirs[..];
    ghost var g1 := Snap(grid);
    EveryDirection(order);
    CarveStart(g0, g1, cur, order);
    for i := 0 to 4
      invariant CarveLoop(g0, Snap(grid), cur, order, i)
    {
      CarveToward(grid, rng, cur, order[i], g0, order, i);
    }
    CarveFinish(g0, Snap(grid), cur, order);
  }

  /**
   * One turn of the direction loop of `carve(row, col)`: when the neighbour
   * `Move(cur, d)` is inside the grid and unmarked, knock down the boundary
   * between the two cells and carve from the neighbour.
   */
  method CarveToward(grid: array2<Cell>, rng: Random, cur: Coord, d: Dir,
                     ghost g0: Grid, ghost order: seq<Dir>, ghost i: nat)
    requires CarveLoop(g0, Snap(grid), cur, order, i) && i < |order| && order[i] == d
    requires Rows(g0) == grid.Length0 && Cols(g0) == grid.Length1
    modifies grid, rng
    ensures CarveLoop(g0, Snap(grid), cur, order, i + 1)
    decreases grid.Length0 * grid.Length1 - |VisitedSet(g0)|, 0
  {
    var n := Move(cur, d);
    ghost var gA := Snap(grid);
    if 0 <= n.row < grid.Length0 && 0 <= n.col < grid.Length1 && !grid[n.row, n.col].visited {
      CarveStepBefore(g0, gA, cur, order, i);
      OpenBoundary(grid, cur, d);
      Carve(grid, rng, n);
      CarveStepAfter(g0, gA, Snap(grid), cur, order, i);
    } else {
      CarveSkip(g0, gA, cur, order, i);
    }
  }

  /** A shuffle of the direction table still lists every direction. */
  lemma EveryDirection(order: seq<Dir>)
    requires multiset(order) == multiset(Directions)
    ensures |order| == 4 && forall d :: d in order
  {
    assert |order| == |multiset(order)| == 4;
    forall d
      ensures d in order
    {
      assert d == Directions[0] || d == Directions[1] || d == Directions[2] || d == Directions[3];
      assert d in multiset(Directions);
    }
  }

  /** The loop of `Carve` starts right after `cur` is marked. */
  lemma CarveStart(g0: Grid, g1: Grid, cur: Coord, order: seq<Dir>)
    requires CarveReady(g0, cur)
    requires Wf(g1) && Rows(g1) == Rows(g0) && Cols(g1) == Cols(g0)
    requires forall x :: InBounds(g0, x) ==> At(g1, x) == if x == cur then At(g0, x).(visited := true) else At(g0, x)
    ensures CarveLoop(g0, g1, cur, order, 0)
  {
    MarkVisited(g0, g1, cur);
    SameWallsKeep(g0, g1);
    ReachableRefl(g1, cur);
  }

  /** The grid just after `cur` is marked. */
  lemma MarkVisited(g0: Grid, g1: Grid, cur: Coord)
    requires GridInv(g0) && InBounds(g0, cur) && UnvisitedIntactExcept(g0, cur)
    requires Wf(g1) && Rows(g1) == Rows(g0) && Cols(g1) == Cols(g0)
    requires forall x :: InBounds(g0, x) ==> At(g1, x) == if x == cur then At(g0, x).(visited := true) else At(g0, x)
    ensures GridInv(g1) && UnvisitedIntact(g1) && SameWalls(g0, g1)
    ensures VisitedSet(g1) == VisitedSet(g0) + {cur}
    ensures OpenEdges(g1) == OpenEdges(g0)
  {
    SameWallsKeep(g0, g1);
  }

  /** A direction whose neighbour is off the grid or already marked is passed over. */
  lemma CarveSkip(g0: Grid, g: Grid, cur: Coord, order: seq<Dir>, i: nat)
    requires CarveLoop(g0, g, cur, order, i) && i < |order|
    requires !(InBounds(g, Move(cur, order[i])) && !At(g, Move(cur, order[i])).visited)
    ensures CarveLoop(g0, g, cur, order, i + 1)
  {
  }

  /** Opening the boundary to an unmarked neighbour makes the neighbour ready to carve, with more cells marked. */
  lemma CarveStepBefore(g0: Grid, gA: Grid, cur: Coord, order: seq<Dir>, i: nat)
    requires CarveLoop(g0, gA, cur, order, i) && i < |order|
    requires InBounds(gA, Move(cur, order[i])) && !At(gA, Move(cur, order[i])).visited
    ensures InBounds(gA, cur)
    ensures CarveReady(ClearBoundary(gA, cur, order[i]), Move(cur, order[i]))
    ensures |VisitedSet(g0)| < |VisitedSet(ClearBoundary(gA, cur, order[i]))| <= Rows(gA) * Cols(gA)
  {
    var d := order[i];
    var gB := ClearBoundary(gA, cur, d);
    ClearBoundaryKeepsInv(gA, cur, d);
    ClearBoundaryMarks(gA, cur, d);
    SameMarksKeep(gA, gB);
    ClearBoundaryIntact(gA, cur, d);
    assert cur !in VisitedSet(g0);
    SubsetCard(VisitedSet(g0) + {cur}, VisitedSet(gB));
    VisitedSetBound(gB);
  }

  /** The loop of `Carve` moves on after carving from the neighbour `Move(cur, order[i])`. */
  lemma CarveStepAfter(g0: Grid, gA: Grid, gC: Grid, cur: Coord, order: seq<Dir>, i: nat)
    requires CarveLoop(g0, gA, cur, order, i) && i < |order|
    requires InBounds(gA, cur) && InBounds(gA, Move(cur, order[i])) && !At(gA, Move(cur, order[i])).visited
    requires Carved(ClearBoundary(gA, cur, order[i]), gC, Move(cur, order[i]))
    ensures CarveLoop(g0, gC, cur, order, i + 1)
  {
    var d := order[i];
    var gB := ClearBoundary(gA, cur, d);
    ClearBoundaryMarks(gA, cur, d);
    SameMarksKeep(gA, gB);
    ClearBoundaryCells(gA, cur, d);
    ClearBoundaryOpensOne(gA, cur, d);
    WallsOnlyRemovedTrans(g0, gA, gB);
    WallsOnlyRemovedTrans(g0, gB, gC);
    LinkIff(gB, cur, d);
    CarveStepReach(VisitedSet(g0), gA, gB, gC, cur, d);
    CarveStepClosed(gA, gB, gC, cur, order, i);
    CountStep(OpenEdges(g0), OpenEdges(gA), OpenEdges(gB), OpenEdges(gC),
              VisitedSet(g0), VisitedSet(gA), VisitedSet(gC), Boundary(cur, d));
  }

  /** Opening one more boundary before a carve that keeps the count keeps the count. */
  lemma CountStep(e0: set<Edge>, eA: set<Edge>, eB: set<Edge>, eC: set<Edge>,
                  v0: set<Coord>, vA: set<Coord>, vC: set<Coord>, b: Edge)
    requires |eA| + |v0| + 1 == |e0| + |vA|
    requires b !in eA && eB == eA + {b}
    requires |eC| + |vA| + 1 == |eB| + |vC|
    ensures |eC| + |v0| + 1 == |e0| + |vC|
  {
  }

  lemma CarveStepReach(v0: set<Coord>, gA: Grid, gB: Grid, gC: Grid, cur: Coord, d: Dir)
    requires Wf(gA) && Wf(gB) && InBounds(gA, cur)
    requires forall x :: x in VisitedSet(gA) - v0 ==> Reachable(gA, cur, x)
    requires WallsOnlyRemoved(gA, gB) && Passable(gB, cur, d) && VisitedSet(gB) == VisitedSet(gA)
    requires WallsOnlyRemoved(gB, gC)
    requires forall x :: x in VisitedSet(gC) - VisitedSet(gB) ==> Reachable(gC, Move(cur, d), x)
    ensures forall x :: x in VisitedSet(gC) - v0 ==> Reachable(gC, cur, x)
  {
    var n := Move(cur, d);
    LinkIff(gB, cur, d);
    LinkPersists(gB, gC, cur, n);
    forall x | x in VisitedSet(gC) - v0
      ensures Reachable(gC, cur, x)
    {
      if x in VisitedSet(gA) {
        ReachablePersists(gA, gB, cur, x);
        ReachablePersists(gB, gC, cur, x);
      } else {
        ReachablePrepend(gC, cur, n, x);
      }
    }
  }

  lemma CarveStepClosed(gA: Grid, gB: Grid, gC: Grid, cur: Coord, order: seq<Dir>, i: nat)
    requires i < |order|
    requires Wf(gA) && Wf(gB) && Wf(gC) && Rows(gC) == Rows(gA) && Cols(gC) == Cols(gA)
    requires forall j :: 0 <= j < i && InBounds(gA, Move(cur, order[j])) ==> At(gA, Move(cur, order[j])).visited
    requires VisitedSet(gB) == VisitedSet(gA)
    requires VisitedSet(gB) + {Move(cur, order[i])} <= VisitedSet(gC)
    ensures forall j :: 0 <= j < i + 1 && InBounds(gC, Move(cur, order[j])) ==> At(gC, Move(cur, order[j])).visited
    ensures forall x :: x in VisitedSet(gA) && NeighboursVisited(gA, x) ==> NeighboursVisited(gC, x)
  {
    forall j | 0 <= j < i + 1 && InBounds(gC, Move(cur, order[j]))
      ensures At(gC, Move(cur, order[j])).visited
    {
      assert Move(cur, order[j]) in VisitedSet(gC);
    }
    forall x | x in VisitedSet(gA) && NeighboursVisited(gA, x)
      ensures NeighboursVisited(gC, x)
    {
      forall e | InBounds(gC, Move(x, e))
        ensures At(gC, Move(x, e)).visited
      {
        assert Move(x, e) in VisitedSet(gA);
      }
    }
  }

  /** Once every direction has been tried, `cur` has all its neighbours marked. */
  lemma CarveFinish(g0: Grid, g: Grid, cur: Coord, order: seq<Dir>)
    requires CarveLoop(g0, g, cur, order, |order|)
    requires forall d :: d in order
    ensures Carved(g0, g, cur)
  {
    EveryNeighbourTried(g, cur, order);
  }

  lemma EveryNeighbourTried(g: Grid, cur: Coord, order: seq<Dir>)
    requires Wf(g) && forall d :: d in order
    requires forall j :: 0 <= j < |order| && InBounds(g, Move(cur, order[j])) ==> At(g, Move(cur, order[j])).visited
    ensures NeighboursVisited(g, cur)
  {
    forall e | InBounds(g, Move(cur, e))
      ensures At(g, Move(cur, e)).visited
    {
      assert e in order;
      var j :| 0 <= j < |order| && order[j] == e;
    }
  }

  // ------------------------------------------------------------- after carving

  /** Every cell with its `visited` marker cleared. */
  function Unvisit(g: Grid): (h: Grid)
    ensures |h| == |g|
    ensures forall r :: 0 <= r < |g| ==> |h[r]| == |g[r]|
  {
    seq(|g|, r requires 0 <= r < |g| =>
      seq(|g[r]|, c requires 0 <= c < |g[r]| => g[r][c].(visited := false)))
  }

  /** The reset pass keeps the walls and the invariant and leaves every cell unmarked. */
  lemma UnvisitKeeps(g: Grid)
    requires GridInv(g)
    ensures GridInv(Unvisit(g)) && AllUnvisited(Unvisit(g)) && SameWalls(g, Unvisit(g))
  {
    var h := Unvisit(g);
    assert Wf(h);
    assert forall c :: InBounds(g, c) ==> At(h, c) == At(g, c).(visited := false);
    SameWallsKeep(g, h);
  }

  /** The reset pass: `visited` goes back to false on every cell, row by row. */
  method ResetVisited(grid: array2<Cell>)
    modifies grid
    ensures Snap(grid) == Unvisit(old(Snap(grid)))
  {
    for r := 0 to grid.Length0
      invariant forall i, j :: 0 <= i < grid.Length0 && 0 <= j < grid.Length1 ==>
        grid[i, j] == if i < r then old(grid[i, j]).(visited := false) else old(grid[i, j])
    {
      for c := 0 to grid.Length1
        invariant forall i, j :: 0 <= i < grid.Length0 && 0 <= j < grid.Length1 ==>
          grid[i, j] == if i < r || (i == r && j < c) then old(grid[i, j]).(visited := false) else old(grid[i, j])
      {
        grid[r, c] := grid[r, c].(visited := false);
      }
    }
    ghost var h := Unvisit(old(Snap(grid)));
    assert forall i :: 0 <= i < grid.Length0 ==> Snap(grid)[i] == h[i];
  }

  function Max0(x: int): nat
  {
    if x < 0 then 0 else x
  }

  /**
   * The state of the braiding pass started from `g0` once `added` boundaries
   * have been opened: the invariant kept, every cell unmarked, walls only
   * knocked down, and exactly `added` more open boundaries.
   */
  ghost predicate Braided(g0: Grid, g: Grid, added: nat)
  {
    GridInv(g0) && GridInv(g) && AllUnvisited(g) && WallsOnlyRemoved(g0, g) &&
    OpenEdges(g0) <= OpenEdges(g) && |OpenEdges(g)| == |OpenEdges(g0)| + added
  }

  lemma BraidStart(g0: Grid)
    requires GridInv(g0) && AllUnvisited(g0)
    ensures Braided(g0, g0, 0)
  {
  }

  /** Knocking down a boundary walled on one side opens one more boundary. */
  lemma BraidStep(g0: Grid, g: Grid, added: nat, c: Coord, d: Dir)
    requires Braided(g0, g, added)
    requires InBounds(g, c) && InBounds(g, Move(c, d)) && At(g, c).walls.Has(d)
    ensures Braided(g0, ClearBoundary(g, c, d), added + 1)
  {
    var h := ClearBoundary(g, c, d);
    ClearBoundaryKeepsInv(g, c, d);
    ClearBoundaryMarks(g, c, d);
    SameMarksKeep(g, h);
    ClearBoundaryOpensOne(g, c, d);
    WallsOnlyRemovedTrans(g0, g, h);
  }

  /**
   * The braiding pass: up to `extraPaths * 10` attempts, each drawing a
   * cell and a direction and opening that boundary when it lies inside the
   * grid and is walled on both sides, until `extraPaths` have been opened.
   */
  method Braid(grid: array2<Cell>, rng: Random, extraPaths: int) returns (attempts: nat, added: nat)
    requires GridInv(Snap(grid)) && AllUnvisited(Snap(grid)) && grid.Length1 > 0
    modifies grid, rng
    ensures Braided(old(Snap(grid)), Snap(grid), added)
    ensures added <= attempts <= Max0(extraPaths * 10) && added <= Max0(extraPaths)
    ensures added == extraPaths || attempts == Max0(extraPaths * 10)
  {
    ghost var g0 := Snap(grid);
    var rows, cols := grid.Length0, grid.Length1;
    BraidStart(g0);
    attempts, added := 0, 0;
    while added < extraPaths && attempts < extraPaths * 10
      invariant Braided(g0, Snap(grid), added)
      invariant added <= attempts <= Max0(extraPaths * 10) && added <= Max0(extraPaths)
      decreases extraPaths * 10 - attempts
    {
      var row := rng.Below(rows);
      var col := rng.Below(cols);
      var k := rng.Below(|Directions|);
      var dir := Directions[k];
      var n := Move(Coord(row, col), dir);
      if 0 <= n.row < rows && 0 <= n.col < cols &&
         grid[row, col].walls.Has(dir) && grid[n.row, n.col].walls.Has(Opposite(dir))
      {
        ghost var gA := Snap(grid);
        BraidStep(g0, gA, added, Coord(row, col), dir);
        OpenBoundary(grid, Coord(row, col), dir);
        added := added + 1;
      }
      attempts := attempts + 1;
    }
  }

  /** The grid `generateMaze` starts from: labelled cells, all four walls up, nothing marked. */
  lemma FreshGrid(g: Grid)
    requires Wf(g) && forall x :: InBounds(g, x) ==> At(g, x) == Cell(x.row, x.col, AllWalls, false, false)
    ensures InBounds(g, Coord(0, 0)) ==> CarveReady(g, Coord(0, 0))
    ensures VisitedSet(g) == {} && OpenEdges(g) == {}
  {
    forall x | InBounds(g, x)
      ensures x.row + 1 < Rows(g) ==> At(g, x).walls.bottom == g[x.row + 1][x.col].walls.top
      ensures x.col + 1 < Cols(g) ==> At(g, x).walls.right == g[x.row][x.col + 1].walls.left
    {
      if x.row + 1 < Rows(g) {
        assert At(g, Coord(x.row + 1, x.col)).walls == AllWalls;
      }
      if x.col + 1 < Cols(g) {
        assert At(g, Coord(x.row, x.col + 1)).walls == AllWalls;
      }
    }
    forall e | e in OpenEdges(g)
      ensures false
    {
      OpenEdgesMember(g, e);
    }
  }

  /** Carving from (0, 0) on a fresh grid marks every cell and opens a spanning tree of boundaries. */
  lemma CarvedEverything(g0: Grid, g1: Grid)
    requires InBounds(g0, Coord(0, 0)) && Carved(g0, g1, Coord(0, 0))
    requires VisitedSet(g0) == {} && OpenEdges(g0) == {}
    ensures forall c :: InBounds(g1, c) ==> Reachable(g1, Coord(0, 0), c)
    ensures |OpenEdges(g1)| == Rows(g1) * Cols(g1) - 1
  {
    ClosedHoldsAll(g1);
    assert VisitedSet(g1) == AllCells(Rows(g1), Cols(g1));
    AllCellsCount(Rows(g1), Cols(g1));
  }

  /**
   * `generateMaze(rows, cols, extraPaths)`: a fresh `rows` by `cols` grid of
   * labelled, fully walled cells, carved from (0, 0), reset, and braided.
   */
  method GenerateMaze(rows: nat, cols: nat, extraPaths: int := 0, rng: Random) returns (grid: array2<Cell>)
    requires rows > 0 && cols > 0
    modifies rng
    ensures fresh(grid) && grid.Length0 == rows && grid.Length1 == cols
    ensures GridInv(Snap(grid)) && AllUnvisited(Snap(grid))
    ensures forall c :: InBounds(Snap(grid), c) ==> Reachable(Snap(grid), Coord(0, 0), c)
    ensures rows * cols - 1 <= |OpenEdges(Snap(grid))| <= rows * cols - 1 + Max0(extraPaths)
    ensures extraPaths <= 0 ==> |OpenEdges(Snap(grid))| == rows * cols - 1
  {
    grid := new Cell[rows, cols]((r, c) => Cell(r, c, AllWalls, false, false));
    ghost var g0 := Snap(grid);
    FreshGrid(g0);
    Carve(grid, rng, Coord(0, 0));
    ghost var g1 := Snap(grid);
    CarvedEverything(g0, g1);
    ResetVisited(grid);
    ghost var g2 := Snap(grid);
    UnvisitKeeps(g1);
    SameWallsKeep(g1, g2);
    var attempts, added := Braid(grid, rng, extraPaths);
    GeneratedReachable(g1, g2, Snap(grid));
  }

  lemma GeneratedReachable(g1: Grid, g2: Grid, g3: Grid)
    requires WallsOnlyRemoved(g1, g2) && WallsOnlyRemoved(g2, g3)
    requires forall c :: InBounds(g1, c) ==> Reachable(g1, Coord(0, 0), c)
    ensures forall c :: InBounds(g3, c) ==> Reachable(g3, Coord(0, 0), c)
  {
    forall c | InBounds(g3, c)
      ensures Reachable(g3, Coord(0, 0), c)
    {
      ReachablePersists(g1, g2, Coord(0, 0), c);
      ReachablePersists(g2, g3, Coord(0, 0), c);
    }
  }
}
