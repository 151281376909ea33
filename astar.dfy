/**
 * The A* solver: an open list scanned linearly for the entry with the
 * lowest `fScore`, `gScore` / `fScore` / `cameFrom` matrices, a `visited`
 * matrix of closed cells, and the Manhattan distance to `end` as heuristic.
 * A score of `Infinity` is `None`.
 */
module AStar {
  import opened Maze
  import opened Search

  function Abs(x: int): nat
  {
    if x < 0 then -x else x
  }

  /** The heuristic: rows plus columns between `a` and `b`. */
  function Manhattan(a: Coord, b: Coord): (d: nat)
    ensures d == 0 <==> a == b
  {
    Abs(a.row - b.row) + Abs(a.col - b.col)
  }

  /** The Manhattan distance is a metric. */
  lemma ManhattanMetric(a: Coord, b: Coord, c: Coord)
    ensures Manhattan(a, b) == Manhattan(b, a)
    ensures Manhattan(a, a) == 0
    ensures Manhattan(a, c) <= Manhattan(a, b) + Manhattan(b, c)
  {
  }

  /** One legal move changes the heuristic by at most one: it is consistent on unit-cost moves. */
  lemma ManhattanStep(g: Grid, a: Coord, b: Coord, e: Coord)
    requires Link(g, a, b)
    ensures Manhattan(a, e) <= Manhattan(b, e) + 1
    ensures Manhattan(b, e) <= Manhattan(a, e) + 1
  {
  }

  /** Along a route the heuristic never overestimates the moves left: it is admissible. */
  lemma {:induction false} ManhattanAlongRoute(g: Grid, q: seq<Coord>, i: nat, e: Coord)
    requires IsRoute(g, q) && i < |q|
    ensures Manhattan(q[i], e) <= (|q| - 1 - i) + Manhattan(q[|q| - 1], e)
    decreases |q| - i
  {
    if i < |q| - 1 {
      ManhattanAlongRoute(g, q, i + 1, e);
      ManhattanStep(g, q[i], q[i + 1], e);
    }
  }

  /** The `fScore` of a scored cell. */
  ghost function F(gs: map<Coord, nat>, end: Coord, c: Coord): nat
    requires c in gs
  {
    gs[c] + Manhattan(c, end)
  }

  /**
   * The score matrices hold `gs` and nothing else: a scored cell has its
   * `gScore` and `fScore = gScore + manhattan(cell, end)`; every other cell
   * has `Infinity` in both.
   */
  ghost predicate ScoresAre(gScore: array2<Option<nat>>, fScore: array2<Option<nat>>, gs: map<Coord, nat>, end: Coord)
    reads gScore, fScore
  {
    forall r, c :: 0 <= r < gScore.Length0 && 0 <= c < gScore.Length1 ==>
      gScore[r, c] == (if Coord(r, c) in gs then Some(gs[Coord(r, c)]) else None) &&
      (0 <= r < fScore.Length0 && 0 <= c < fScore.Length1 ==>
        fScore[r, c] == if Coord(r, c) in gs then Some(gs[Coord(r, c)] + Manhattan(Coord(r, c), end)) else None)
  }

  /** No route from `start` to a closed cell is shorter than the cell's score. */
  ghost predicate Settled(g: Grid, start: Coord, gs: map<Coord, nat>, closed: set<Coord>)
  {
    forall c, q :: c in closed && RouteBetween(g, q, start, c) ==> c in gs && gs[c] + 1 <= |q|
  }

  /**
   * The scores form the `cameFrom` tree, every parent is closed, every
   * closed cell is scored and its score is its distance.
   */
  ghost predicate Scores(g: Grid, start: Coord, gs: map<Coord, nat>, parent: map<Coord, Coord>, closed: set<Coord>)
  {
    Tree(g, start, gs, parent) &&
    (forall c :: c in parent ==> parent[c] in closed) &&
    (forall c :: c in closed ==> c in gs) &&
    Settled(g, start, gs, closed)
  }

  /** The open list: scored cells, none closed, none twice, and every scored cell that is not closed. */
  ghost predicate OpenList(gs: map<Coord, nat>, closed: set<Coord>, open: seq<Coord>)
  {
    Distinct(open) &&
    (forall i :: 0 <= i < |open| ==> open[i] in gs && open[i] !in closed) &&
    (forall c :: c in gs && c !in closed ==> c in open)
  }

  /** Every closed cell has had all its neighbours scored, and `end` is not closed. */
  ghost predicate Frontier(g: Grid, end: Coord, gs: map<Coord, nat>, closed: set<Coord>, open: seq<Coord>)
  {
    InBounds(g, end) && OpenList(gs, closed, open) &&
    (forall c :: c in closed ==> Expanded(g, gs, c)) &&
    end !in closed
  }

  /** `visitedSteps` opens with `start` and lists the closed cells, each once. */
  ghost predicate Trace(start: Coord, closed: set<Coord>, open: seq<Coord>, visited: seq<Step>)
  {
    AllTagged(visited, false) &&
    (visited == [] ==> open == [start]) && (visited != [] ==> visited[0].coord == start) &&
    Distinct(Coords(visited)) && (forall c :: c in Coords(visited) <==> c in closed)
  }

  /** The state at the head of the main loop. */
  ghost predicate AStarState(g: Grid, start: Coord, end: Coord, gs: map<Coord, nat>, parent: map<Coord, Coord>,
                             closed: set<Coord>, open: seq<Coord>, visited: seq<Step>)
  {
    Scores(g, start, gs, parent, closed) && Frontier(g, end, gs, closed, open) && Trace(start, closed, open, visited)
  }

  /**
   * Midway through the direction loop for `cur`: `cur` is already closed,
   * and the neighbours behind the first `k` directions are scored at most
   * one more than `cur`.
   */
  ghost predicate Relaxing(g: Grid, start: Coord, gs: map<Coord, nat>, parent: map<Coord, Coord>,
                           closed: set<Coord>, open: seq<Coord>, cur: Coord, k: nat)
  {
    Scores(g, start, gs, parent, closed) && cur in closed && OpenList(gs, closed, open) &&
    (forall c :: c in closed && c != cur ==> Expanded(g, gs, c)) &&
    Scanned(g, gs, cur, k)
  }

  /** The neighbours of `cur` behind the first `k` directions are scored at most one more than `cur`. */
  ghost predicate Scanned(g: Grid, gs: map<Coord, nat>, cur: Coord, k: nat)
  {
    cur in gs &&
    forall j :: 0 <= j < k && j < |SearchOrder| && Passable(g, cur, SearchOrder[j]) ==>
      Move(cur, SearchOrder[j]) in gs && gs[Move(cur, SearchOrder[j])] <= gs[cur] + 1
  }

  /** Lowering the score of the neighbour behind `SearchOrder[k]` to one more than `cur`'s extends the scan. */
  lemma ScanStep(g: Grid, gs: map<Coord, nat>, cur: Coord, k: nat, v: nat, gs': map<Coord, nat>)
    requires Scanned(g, gs, cur, k) && k < 4 && v == gs[cur] + 1
    requires var n := Move(cur, SearchOrder[k]); (n !in gs || v < gs[n]) && gs' == gs[n := v]
    ensures Scanned(g, gs', cur, k + 1)
    ensures forall c :: c in gs ==> c in gs' && gs'[c] <= gs[c]
  {
    MoveOpposite(cur, SearchOrder[k]);
  }

  /** The open list, the scores and the `cameFrom` links during the direction loop. */
  datatype Relaxed = Relaxed(open: seq<Coord>, gs: map<Coord, nat>, parent: map<Coord, Coord>)

  /** Side `j` of `cur` is open and, by the scores `gs`, going through `cur` improves the neighbour behind it. */
  ghost predicate Improves(g: Grid, gs: map<Coord, nat>, cur: Coord, j: nat)
    requires j < 4
  {
    var n := Move(cur, SearchOrder[j]);
    Passable(g, cur, SearchOrder[j]) && cur in gs && (n !in gs || gs[cur] + 1 < gs[n])
  }

  /**
   * One pass of the direction loop: the neighbour behind `SearchOrder[k]`,
   * if the wall of `cur` on that side is down and going through `cur`
   * improves its score, is scored one more than `cur`, linked back to
   * `cur`, and appended to the open list unless closed or already there.
   */
  ghost function RelaxOne(g: Grid, r: Relaxed, closed: set<Coord>, cur: Coord, k: nat): Relaxed
    requires k < 4
  {
    var n := Move(cur, SearchOrder[k]);
    if Improves(g, r.gs, cur, k) then
      Relaxed(if n !in closed && n !in r.open then r.open + [n] else r.open,
              r.gs[n := r.gs[cur] + 1], r.parent[n := cur])
    else r
  }

  /** The scores after the first `k` passes: each improved neighbour is scored one more than `cur`. */
  ghost function ScoresAfter(g: Grid, gs: map<Coord, nat>, cur: Coord, k: nat): map<Coord, nat>
    requires k <= 4
  {
    if k == 0 then gs
    else if Improves(g, gs, cur, k - 1) then ScoresAfter(g, gs, cur, k - 1)[Move(cur, SearchOrder[k - 1]) := gs[cur] + 1]
    else ScoresAfter(g, gs, cur, k - 1)
  }

  /** The `cameFrom` links after the first `k` passes: each improved neighbour is linked back to `cur`. */
  ghost function LinksAfter(g: Grid, gs: map<Coord, nat>, parent: map<Coord, Coord>, cur: Coord, k: nat): map<Coord, Coord>
    requires k <= 4
  {
    if k == 0 then parent
    else if Improves(g, gs, cur, k - 1) then LinksAfter(g, gs, parent, cur, k - 1)[Move(cur, SearchOrder[k - 1]) := cur]
    else LinksAfter(g, gs, parent, cur, k - 1)
  }

  /** `x` is the neighbour behind one of the first `k` sides of `cur` that improves by the scores `gs`. */
  ghost predicate ImprovedWithin(g: Grid, gs: map<Coord, nat>, cur: Coord, k: nat, x: Coord)
    requires k <= 4
  {
    exists j :: 0 <= j < k && Improves(g, gs, cur, j) && x == Move(cur, SearchOrder[j])
  }

  /**
   * After the first `k` passes, a neighbour whose score improves is scored
   * one more than `cur` and linked back to `cur`; every other cell keeps
   * its score and its link, including a neighbour that going through `cur`
   * would only tie.
   */
  lemma {:induction false} AfterAt(g: Grid, gs: map<Coord, nat>, parent: map<Coord, Coord>, cur: Coord, k: nat, x: Coord)
    requires k <= 4
    ensures ImprovedWithin(g, gs, cur, k, x) ==>
      cur in gs && x in ScoresAfter(g, gs, cur, k) && ScoresAfter(g, gs, cur, k)[x] == gs[cur] + 1 &&
      x in LinksAfter(g, gs, parent, cur, k) && LinksAfter(g, gs, parent, cur, k)[x] == cur
    ensures !ImprovedWithin(g, gs, cur, k, x) ==>
      Same(gs, ScoresAfter(g, gs, cur, k), x) &&
      (x in parent <==> x in LinksAfter(g, gs, parent, cur, k)) &&
      (x in parent ==> LinksAfter(g, gs, parent, cur, k)[x] == parent[x])
    decreases k
  {
    if k > 0 {
      AfterAt(g, gs, parent, cur, k - 1, x);
      var n := Move(cur, SearchOrder[k - 1]);
      if ImprovedWithin(g, gs, cur, k, x) && !ImprovedWithin(g, gs, cur, k - 1, x) {
        var j :| 0 <= j < k && Improves(g, gs, cur, j) && x == Move(cur, SearchOrder[j]);
        assert j == k - 1;
      }
      if ImprovedWithin(g, gs, cur, k - 1, x) {
        var j :| 0 <= j < k - 1 && Improves(g, gs, cur, j) && x == Move(cur, SearchOrder[j]);
        NeighboursDiffer(cur, j, k - 1);
      }
    }
  }

  /**
   * The open list after the first `k` passes of the direction loop, each
   * judged against the scores `gs` the loop started from: the four
   * neighbours are different cells, so a pass never changes what a later
   * pass sees.
   */
  ghost function Pushes(g: Grid, gs: map<Coord, nat>, closed: set<Coord>, open: seq<Coord>, cur: Coord, k: nat): seq<Coord>
    requires k <= 4
  {
    if k == 0 then open
    else
      var prior := Pushes(g, gs, closed, open, cur, k - 1);
      var n := Move(cur, SearchOrder[k - 1]);
      if Improves(g, gs, cur, k - 1) && n !in closed && n !in prior then prior + [n]
      else prior
  }

  /** `c` has the same score, or none, in `a` and `b`. */
  ghost predicate Same(a: map<Coord, nat>, b: map<Coord, nat>, c: Coord)
  {
    (c in a <==> c in b) && (c in a ==> a[c] == b[c])
  }

  /** `cur` and the neighbours behind the directions from `k` on still have their starting scores. */
  ghost predicate Untouched(gs: map<Coord, nat>, gs': map<Coord, nat>, cur: Coord, k: nat)
  {
    Same(gs, gs', cur) && forall j :: k <= j < |SearchOrder| ==> Same(gs, gs', Move(cur, SearchOrder[j]))
  }

  /** The four neighbours of a cell are four different cells, none of them the cell itself. */
  lemma NeighboursDiffer(cur: Coord, j: nat, k: nat)
    requires j < 4 && k < 4
    ensures Move(cur, SearchOrder[k]) != cur
    ensures j != k ==> Move(cur, SearchOrder[j]) != Move(cur, SearchOrder[k])
  {
  }

  /**
   * The direction loop's state `r` after `k` passes, judged against the
   * open list, scores and links it started from.
   */
  ghost predicate Progress(g: Grid, gs: map<Coord, nat>, parent: map<Coord, Coord>, closed: set<Coord>,
                           open: seq<Coord>, cur: Coord, k: nat, r: Relaxed)
    requires k <= 4
  {
    r.open == Pushes(g, gs, closed, open, cur, k) && r.gs == ScoresAfter(g, gs, cur, k) &&
    r.parent == LinksAfter(g, gs, parent, cur, k) && Untouched(gs, r.gs, cur, k)
  }

  /** `trail` lists the direction loop's state before each of its first `k` passes and after the last. */
  ghost predicate Trail(g: Grid, closed: set<Coord>, cur: Coord, trail: seq<Relaxed>, k: nat)
  {
    k <= 4 && |trail| == k + 1 && forall j :: 0 <= j < k ==> trail[j + 1] == RelaxOne(g, trail[j], closed, cur, j)
  }

  /** Recording one more pass extends the trail. */
  lemma TrailStep(g: Grid, closed: set<Coord>, cur: Coord, trail: seq<Relaxed>, k: nat, r: Relaxed) returns (trail': seq<Relaxed>)
    requires Trail(g, closed, cur, trail, k) && k < 4 && r == RelaxOne(g, trail[k], closed, cur, k)
    ensures trail' == trail + [r] && Trail(g, closed, cur, trail', k + 1) && trail'[k + 1] == r
  {
    trail' := trail + [r];
    assert forall j :: 0 <= j <= k ==> trail'[j] == trail[j];
  }

  /** Each state of the trail is where `Pushes`, `ScoresAfter` and `LinksAfter` say the loop is. */
  lemma {:induction false} TrailProgress(g: Grid, gs: map<Coord, nat>, parent: map<Coord, Coord>, closed: set<Coord>,
                                         open: seq<Coord>, cur: Coord, trail: seq<Relaxed>, j: nat)
    requires |trail| > 0 && Trail(g, closed, cur, trail, |trail| - 1) && trail[0] == Relaxed(open, gs, parent) && j < |trail|
    ensures Progress(g, gs, parent, closed, open, cur, j, trail[j])
    decreases j
  {
    if j > 0 {
      TrailProgress(g, gs, parent, closed, open, cur, trail, j - 1);
      PushStep(g, gs, parent, closed, open, cur, j - 1, trail[j - 1]);
    }
  }

  /**
   * The four passes of the direction loop, each `RelaxOne`, end where
   * `Pushes`, `ScoresAfter` and `LinksAfter` say: every side judged
   * against the open list, scores and links the loop started from.
   */
  lemma LoopOutcome(g: Grid, gs: map<Coord, nat>, parent: map<Coord, Coord>, closed: set<Coord>,
                    open: seq<Coord>, cur: Coord, trail: seq<Relaxed>)
    requires Trail(g, closed, cur, trail, 4) && trail[0] == Relaxed(open, gs, parent)
    ensures trail[4] == Relaxed(Pushes(g, gs, closed, open, cur, 4), ScoresAfter(g, gs, cur, 4), LinksAfter(g, gs, parent, cur, 4))
  {
    TrailProgress(g, gs, parent, closed, open, cur, trail, 4);
  }

  /** One pass of the direction loop does what `Pushes`, `ScoresAfter` and `LinksAfter` say and leaves the later neighbours alone. */
  lemma PushStep(g: Grid, gs: map<Coord, nat>, parent: map<Coord, Coord>, closed: set<Coord>, open: seq<Coord>,
                 cur: Coord, k: nat, r: Relaxed)
    requires k < 4 && Progress(g, gs, parent, closed, open, cur, k, r)
    ensures Progress(g, gs, parent, closed, open, cur, k + 1, RelaxOne(g, r, closed, cur, k))
  {
    var n := Move(cur, SearchOrder[k]);
    assert Same(gs, r.gs, n);
    NeighboursDiffer(cur, k, k);
    forall j | k + 1 <= j < |SearchOrder|
      ensures Move(cur, SearchOrder[j]) != n
    {
      NeighboursDiffer(cur, j, k);
    }
  }

  /**
   * The direction loop only appends to the open list, and only neighbours
   * of `cur` that are not closed, each once.
   */
  lemma {:induction false} PushesAppend(g: Grid, gs: map<Coord, nat>, closed: set<Coord>, open: seq<Coord>, cur: Coord, k: nat)
    requires k <= 4
    ensures var o := Pushes(g, gs, closed, open, cur, k);
      |open| <= |o| && o[..|open|] == open &&
      forall i :: |open| <= i < |o| ==> Link(g, cur, o[i]) && o[i] !in closed && o[i] !in o[..i]
  {
    if k > 0 {
      PushesAppend(g, gs, closed, open, cur, k - 1);
      var p := Pushes(g, gs, closed, open, cur, k - 1);
      var d := SearchOrder[k - 1];
      var n := Move(cur, d);
      if Passable(g, cur, d) {
        assert Link(g, cur, n) by {
          assert d == Top || d == Bottom || d == Left || d == Right;
        }
      }
      var o := Pushes(g, gs, closed, open, cur, k);
      if o != p {
        assert o == p + [n];
        assert o[..|p|] == p;
        assert o[..|open|] == p[..|open|];
      }
    }
  }

  /**
   * The open-list scan: the index of the first entry whose `fScore` is
   * strictly lower than that of every earlier entry and no higher than any
   * later one.
   */
  method LowestF(fScore: array2<Option<nat>>, open: seq<Coord>) returns (m: nat)
    requires |open| > 0
    requires forall i :: 0 <= i < |open| ==> 0 <= open[i].row < fScore.Length0 && 0 <= open[i].col < fScore.Length1
    ensures m < |open|
    ensures forall i :: 0 <= i < |open| ==>
      !Less(fScore[open[i].row, open[i].col], fScore[open[m].row, open[m].col])
    ensures forall i :: 0 <= i < m ==>
      Less(fScore[open[m].row, open[m].col], fScore[open[i].row, open[i].col])
  {
    m := 0;
    for i := 1 to |open|
      invariant m < i
      invariant forall j :: 0 <= j < i ==>
        !Less(fScore[open[j].row, open[j].col], fScore[open[m].row, open[m].col])
      invariant forall j :: 0 <= j < m ==>
        Less(fScore[open[m].row, open[m].col], fScore[open[j].row, open[j].col])
    {
      if Less(fScore[open[i].row, open[i].col], fScore[open[m].row, open[m].col]) {
        m := i;
      }
    }
  }

  /**
   * The cell taken from the open list with the lowest `fScore` has its
   * distance as score: on any route to it, the first cell that is not
   * closed is open, and its `fScore` bounds the route's length from below.
   */
  lemma PopOptimal(g: Grid, start: Coord, end: Coord, gs: map<Coord, nat>, parent: map<Coord, Coord>,
                   closed: set<Coord>, open: seq<Coord>, cur: Coord)
    requires Scores(g, start, gs, parent, closed) && OpenList(gs, closed, open)
    requires forall c :: c in closed ==> Expanded(g, gs, c)
    requires cur in open && forall x :: x in open ==> F(gs, end, cur) <= F(gs, end, x)
    ensures forall q :: RouteBetween(g, q, start, cur) ==> gs[cur] + 1 <= |q|
  {
    forall q | RouteBetween(g, q, start, cur)
      ensures gs[cur] + 1 <= |q|
    {
      var i := 0;
      while q[i] in closed
        invariant 0 <= i < |q| && q[i] in gs && gs[q[i]] <= i
        decreases |q| - i
      {
        assert i < |q| - 1;
        assert Link(g, q[i], q[i + 1]);
        assert Expanded(g, gs, q[i]);
        i := i + 1;
      }
      ManhattanAlongRoute(g, q, i, end);
      assert q[i] in open;
      assert F(gs, end, cur) <= F(gs, end, q[i]);
    }
  }

  /** A closed cell can never be improved from a neighbour: its score is already at most one more. */
  lemma NoReopen(g: Grid, start: Coord, gs: map<Coord, nat>, parent: map<Coord, Coord>,
                 closed: set<Coord>, cur: Coord, n: Coord)
    requires Scores(g, start, gs, parent, closed) && cur in gs && Link(g, cur, n)
    ensures n in closed ==> gs[n] <= gs[cur] + 1
  {
    if n in closed {
      var q := TreeRoute(g, start, gs, parent, cur);
      RouteExtend(g, q, n);
      assert RouteBetween(g, q + [n], start, n);
    }
  }

  /**
   * Lowering the score of an open cell `n` to one more than a closed `cur`
   * and making `cur` its parent keeps the tree: no cell hangs below `n`,
   * because only closed cells are parents.
   */
  lemma TreeImprove(g: Grid, start: Coord, gs: map<Coord, nat>, parent: map<Coord, Coord>,
                    closed: set<Coord>, cur: Coord, n: Coord)
    requires Scores(g, start, gs, parent, closed) && cur in closed && Link(g, cur, n) && InBounds(g, n)
    requires n !in closed && (n !in gs || gs[cur] + 1 < gs[n])
    ensures Tree(g, start, gs[n := gs[cur] + 1], parent[n := cur])
  {
    assert n != start;
  }

  /** Lowering the score of a cell that is not closed keeps the closed cells' scores and the tree. */
  lemma UpdateScores(g: Grid, start: Coord, gs: map<Coord, nat>, parent: map<Coord, Coord>,
                     closed: set<Coord>, cur: Coord, n: Coord, gs': map<Coord, nat>, parent': map<Coord, Coord>)
    requires Scores(g, start, gs, parent, closed) && cur in closed && Link(g, cur, n)
    requires n !in gs || gs[cur] + 1 < gs[n]
    requires gs' == gs[n := gs[cur] + 1] && parent' == parent[n := cur]
    ensures n !in closed
    ensures Scores(g, start, gs', parent', closed)
  {
    NoReopen(g, start, gs, parent, closed, cur, n);
    TreeImprove(g, start, gs, parent, closed, cur, n);
    forall c, q | c in closed && RouteBetween(g, q, start, c)
      ensures c in gs' && gs'[c] + 1 <= |q|
    {
      assert gs'[c] == gs[c];
    }
  }

  /** A newly scored cell joins the open list unless it is already there; nothing leaves. */
  lemma UpdateOpen(gs: map<Coord, nat>, closed: set<Coord>, open: seq<Coord>, n: Coord, v: nat,
                   gs': map<Coord, nat>, open': seq<Coord>)
    requires OpenList(gs, closed, open) && n !in closed && gs' == gs[n := v]
    requires open' == if n !in open then open + [n] else open
    ensures OpenList(gs', closed, open')
  {
    if n !in open {
      DistinctAppend(open, n);
    }
    forall c | c in gs' && c !in closed
      ensures c in open'
    {
      if c != n {
        assert c in open;
      }
    }
  }

  /** Lowering a score that is not a closed cell's keeps every closed cell expanded. */
  lemma UpdateExpanded(g: Grid, gs: map<Coord, nat>, closed: set<Coord>, cur: Coord, n: Coord, v: nat,
                       gs': map<Coord, nat>)
    requires forall c :: c in closed && c != cur ==> Expanded(g, gs, c)
    requires n !in closed && (n !in gs || v < gs[n]) && gs' == gs[n := v]
    ensures forall c :: c in closed && c != cur ==> Expanded(g, gs', c)
  {
    forall c | c in closed && c != cur
      ensures Expanded(g, gs', c)
    {
      assert Expanded(g, gs, c);
    }
  }

  /** One pass of the direction loop that lowers the score of the neighbour `n`. */
  lemma RelaxUpdate(g: Grid, start: Coord, gs: map<Coord, nat>, parent: map<Coord, Coord>,
                    closed: set<Coord>, open: seq<Coord>, cur: Coord, k: nat, n: Coord,
                    gs': map<Coord, nat>, parent': map<Coord, Coord>, open': seq<Coord>)
    requires Relaxing(g, start, gs, parent, closed, open, cur, k) && k < 4
    requires n == Move(cur, SearchOrder[k]) && Passable(g, cur, SearchOrder[k])
    requires n !in gs || gs[cur] + 1 < gs[n]
    requires gs' == gs[n := gs[cur] + 1] && parent' == parent[n := cur]
    requires open' == if n !in closed && n !in open then open + [n] else open
    ensures Relaxing(g, start, gs', parent', closed, open', cur, k + 1)
    ensures forall c :: c in gs ==> c in gs' && gs'[c] <= gs[c]
  {
    var v := gs[cur] + 1;
    LinkIff(g, cur, SearchOrder[k]);
    UpdateScores(g, start, gs, parent, closed, cur, n, gs', parent');
    UpdateOpen(gs, closed, open, n, v, gs', open');
    UpdateExpanded(g, gs, closed, cur, n, v, gs');
    ScanStep(g, gs, cur, k, v, gs');
  }

  /** One pass of the direction loop that leaves everything as it was. */
  lemma RelaxKeep(g: Grid, start: Coord, gs: map<Coord, nat>, parent: map<Coord, Coord>,
                  closed: set<Coord>, open: seq<Coord>, cur: Coord, k: nat)
    requires Relaxing(g, start, gs, parent, closed, open, cur, k) && k < 4
    requires Passable(g, cur, SearchOrder[k]) ==>
      Move(cur, SearchOrder[k]) in gs && gs[Move(cur, SearchOrder[k])] <= gs[cur] + 1
    ensures Relaxing(g, start, gs, parent, closed, open, cur, k + 1)
  {
  }

  /** One pass of the direction loop, whichever way its test goes. */
  lemma RelaxStep(g: Grid, start: Coord, gs: map<Coord, nat>, parent: map<Coord, Coord>,
                  closed: set<Coord>, open: seq<Coord>, cur: Coord, k: nat, improve: bool,
                  gs': map<Coord, nat>, parent': map<Coord, Coord>, open': seq<Coord>)
    requires Relaxing(g, start, gs, parent, closed, open, cur, k) && k < 4
    requires var n := Move(cur, SearchOrder[k]);
      improve == (Passable(g, cur, SearchOrder[k]) && (n !in gs || gs[cur] + 1 < gs[n]))
    requires var n := Move(cur, SearchOrder[k]);
      improve ==> gs' == gs[n := gs[cur] + 1] && parent' == parent[n := cur] &&
                  open' == if n !in closed && n !in open then open + [n] else open
    requires !improve ==> gs' == gs && parent' == parent && open' == open
    ensures Relaxing(g, start, gs', parent', closed, open', cur, k + 1)
    ensures forall c :: c in gs ==> c in gs' && gs'[c] <= gs[c]
  {
    var n := Move(cur, SearchOrder[k]);
    if improve {
      RelaxUpdate(g, start, gs, parent, closed, open, cur, k, n, gs', parent', open');
    } else {
      RelaxKeep(g, start, gs, parent, closed, open, cur, k);
    }
  }

  predicate Sized(g: Grid, gScore: array2<Option<nat>>, fScore: array2<Option<nat>>,
                  cameFrom: array2<Option<Coord>>, closedArr: array2<bool>)
  {
    gScore.Length0 == Rows(g) && gScore.Length1 == Cols(g) &&
    fScore.Length0 == Rows(g) && fScore.Length1 == Cols(g) &&
    cameFrom.Length0 == Rows(g) && cameFrom.Length1 == Cols(g) &&
    closedArr.Length0 == Rows(g) && closedArr.Length1 == Cols(g)
  }

  /** Records `t` as the `gScore` of `n`, `t + manhattan(n, end)` as its `fScore`, and `p` as its `cameFrom`. */
  method Improve(gScore: array2<Option<nat>>, fScore: array2<Option<nat>>, cameFrom: array2<Option<Coord>>,
                 end: Coord, n: Coord, p: Coord, t: nat, ghost gs: map<Coord, nat>, ghost parent: map<Coord, Coord>)
    requires gScore != fScore
    requires 0 <= n.row < gScore.Length0 && 0 <= n.col < gScore.Length1
    requires 0 <= n.row < fScore.Length0 && 0 <= n.col < fScore.Length1
    requires 0 <= n.row < cameFrom.Length0 && 0 <= n.col < cameFrom.Length1
    requires ScoresAre(gScore, fScore, gs, end) && PrevIs(cameFrom, parent)
    modifies gScore, fScore, cameFrom
    ensures ScoresAre(gScore, fScore, gs[n := t], end) && PrevIs(cameFrom, parent[n := p])
  {
    cameFrom[n.row, n.col] := Some(p);
    gScore[n.row, n.col] := Some(t);
    fScore[n.row, n.col] := Some(t + Manhattan(n, end));
  }

  /**
   * The array work of one pass of the direction loop: if the neighbour
   * behind `SearchOrder[k]` is in bounds, the wall of `cur` on that side is
   * down, and going through `cur` improves its `gScore`, its `cameFrom`,
   * `gScore` and `fScore` are rewritten, and it joins the open list unless
   * it is closed or already there.
   */
  method TryNeighbour(g: Grid, gScore: array2<Option<nat>>, fScore: array2<Option<nat>>,
                      cameFrom: array2<Option<Coord>>, closedArr: array2<bool>,
                      end: Coord, cur: Coord, k: nat, open: seq<Coord>,
                      ghost gs: map<Coord, nat>, ghost parent: map<Coord, Coord>, ghost closed: set<Coord>)
    returns (open': seq<Coord>, ghost improve: bool, ghost gs': map<Coord, nat>, ghost parent': map<Coord, Coord>)
    requires Wf(g) && InBounds(g, cur) && k < 4 && cur in gs
    requires Sized(g, gScore, fScore, cameFrom, closedArr) && gScore != fScore
    requires ScoresAre(gScore, fScore, gs, end) && PrevIs(cameFrom, parent) && SeenIs(closedArr, closed)
    modifies gScore, fScore, cameFrom
    ensures ScoresAre(gScore, fScore, gs', end) && PrevIs(cameFrom, parent')
    ensures var n := Move(cur, SearchOrder[k]);
      improve == (Passable(g, cur, SearchOrder[k]) && (n !in gs || gs[cur] + 1 < gs[n]))
    ensures var n := Move(cur, SearchOrder[k]);
      improve ==> gs' == gs[n := gs[cur] + 1] && parent' == parent[n := cur] &&
                  open' == if n !in closed && n !in open then open + [n] else open
    ensures !improve ==> gs' == gs && parent' == parent && open' == open
  {
    var d := SearchOrder[k];
    var n := Move(cur, d);
    open', gs', parent' := open, gs, parent;
    var ok := 0 <= n.row < |g| && 0 <= n.col < |g[0]| && !g[cur.row][cur.col].walls.Has(d);
    assert ok == Passable(g, cur, d);
    improve := ok && (n !in gs || gs[cur] + 1 < gs[n]);
    if ok {
      assert gScore[cur.row, cur.col] == Some(gs[cur]);
      var t := gScore[cur.row, cur.col].value + 1;
      assert gScore[n.row, n.col] == if n in gs then Some(gs[n]) else None;
      var better := Less(Some(t), gScore[n.row, n.col]);
      assert better == improve;
      if better {
        Improve(gScore, fScore, cameFrom, end, n, cur, t, gs, parent);
        gs', parent' := gs[n := t], parent[n := cur];
        assert closedArr[n.row, n.col] == (n in closed);
        if !closedArr[n.row, n.col] && n !in open {
          open' := open + [n];
        }
      }
    }
  }

  /**
   * One pass of the direction loop (`TryNeighbour`) keeps the search tree
   * and the open list, and leaves the first `k + 1` neighbours of `cur`
   * scored at most one more than `cur`. Scores only ever go down.
   */
  method Relax(g: Grid, gScore: array2<Option<nat>>, fScore: array2<Option<nat>>,
               cameFrom: array2<Option<Coord>>, closedArr: array2<bool>,
               end: Coord, cur: Coord, k: nat, open: seq<Coord>,
               ghost start: Coord, ghost gs: map<Coord, nat>, ghost parent: map<Coord, Coord>,
               ghost closed: set<Coord>)
    returns (open': seq<Coord>, ghost gs': map<Coord, nat>, ghost parent': map<Coord, Coord>)
    requires Wf(g) && InBounds(g, cur) && k < 4
    requires Sized(g, gScore, fScore, cameFrom, closedArr) && gScore != fScore
    requires ScoresAre(gScore, fScore, gs, end) && PrevIs(cameFrom, parent) && SeenIs(closedArr, closed)
    requires Relaxing(g, start, gs, parent, closed, open, cur, k)
    modifies gScore, fScore, cameFrom
    ensures ScoresAre(gScore, fScore, gs', end) && PrevIs(cameFrom, parent')
    ensures Relaxing(g, start, gs', parent', closed, open', cur, k + 1)
    ensures Relaxed(open', gs', parent') == RelaxOne(g, Relaxed(open, gs, parent), closed, cur, k)
    ensures forall c :: c in gs ==> c in gs' && gs'[c] <= gs[c]
  {
    ghost var improve;
    open', improve, gs', parent' := TryNeighbour(g, gScore, fScore, cameFrom, closedArr, end, cur, k, open, gs, parent, closed);
    RelaxStep(g, start, gs, parent, closed, open, cur, k, improve, gs', parent', open');
    RelaxOneIs(g, gs, parent, closed, open, cur, k, improve, gs', parent', open');
  }

  /** The outcome `TryNeighbour` describes is `RelaxOne`. */
  lemma RelaxOneIs(g: Grid, gs: map<Coord, nat>, parent: map<Coord, Coord>,
                   closed: set<Coord>, open: seq<Coord>, cur: Coord, k: nat, improve: bool,
                   gs': map<Coord, nat>, parent': map<Coord, Coord>, open': seq<Coord>)
    requires k < 4 && cur in gs
    requires var n := Move(cur, SearchOrder[k]);
      improve == (Passable(g, cur, SearchOrder[k]) && (n !in gs || gs[cur] + 1 < gs[n]))
    requires var n := Move(cur, SearchOrder[k]);
      improve ==> gs' == gs[n := gs[cur] + 1] && parent' == parent[n := cur] &&
                  open' == if n !in closed && n !in open then open + [n] else open
    requires !improve ==> gs' == gs && parent' == parent && open' == open
    ensures Relaxed(open', gs', parent') == RelaxOne(g, Relaxed(open, gs, parent), closed, cur, k)
  {
  }

  /** With all four directions relaxed, `cur` is expanded like every other closed cell. */
  lemma RelaxDone(g: Grid, start: Coord, gs: map<Coord, nat>, parent: map<Coord, Coord>,
                  closed: set<Coord>, open: seq<Coord>, cur: Coord)
    requires Relaxing(g, start, gs, parent, closed, open, cur, 4)
    ensures forall c :: c in closed ==> Expanded(g, gs, c)
  {
    forall n | Link(g, cur, n)
      ensures n in gs && gs[n] <= gs[cur] + 1
    {
      assert SearchOrder[0] == Top && SearchOrder[1] == Bottom && SearchOrder[2] == Left && SearchOrder[3] == Right;
    }
  }

  /**
   * The direction loop of A*: every neighbour of the closed cell `cur`
   * ends up scored at most one more than `cur`, no score goes up, and
   * `cur` is then expanded.
   */
  method ExpandCell(g: Grid, gScore: array2<Option<nat>>, fScore: array2<Option<nat>>,
                    cameFrom: array2<Option<Coord>>, closedArr: array2<bool>,
                    end: Coord, cur: Coord, open: seq<Coord>,
                    ghost start: Coord, ghost gs: map<Coord, nat>, ghost parent: map<Coord, Coord>,
                    ghost closed: set<Coord>)
    returns (open': seq<Coord>, ghost gs': map<Coord, nat>, ghost parent': map<Coord, Coord>, ghost trail: seq<Relaxed>)
    requires Wf(g) && InBounds(g, cur)
    requires Sized(g, gScore, fScore, cameFrom, closedArr) && gScore != fScore
    requires ScoresAre(gScore, fScore, gs, end) && PrevIs(cameFrom, parent) && SeenIs(closedArr, closed)
    requires Relaxing(g, start, gs, parent, closed, open, cur, 0)
    modifies gScore, fScore, cameFrom
    ensures ScoresAre(gScore, fScore, gs', end) && PrevIs(cameFrom, parent')
    ensures Scores(g, start, gs', parent', closed) && OpenList(gs', closed, open')
    ensures Trail(g, closed, cur, trail, 4) && trail[0] == Relaxed(open, gs, parent) && trail[4] == Relaxed(open', gs', parent')
    ensures forall c :: c in closed ==> Expanded(g, gs', c)
    ensures forall c :: c in gs ==> c in gs' && gs'[c] <= gs[c]
  {
    open', gs', parent' := open, gs, parent;
    trail := [Relaxed(open, gs, parent)];
    for k := 0 to 4
      invariant ScoresAre(gScore, fScore, gs', end) && PrevIs(cameFrom, parent')
      invariant Relaxing(g, start, gs', parent', closed, open', cur, k)
      invariant forall c :: c in gs ==> c in gs' && gs'[c] <= gs[c]
      invariant Trail(g, closed, cur, trail, k) && trail[0] == Relaxed(open, gs, parent)
      invariant trail[k] == Relaxed(open', gs', parent')
    {
      open', gs', parent' := Relax(g, gScore, fScore, cameFrom, closedArr, end, cur, k, open', start, gs', parent', closed);
      trail := TrailStep(g, closed, cur, trail, k, Relaxed(open', gs', parent'));
    }
    RelaxDone(g, start, gs', parent', closed, open', cur);
  }

  /** `splice(m, 1)` on a list without duplicates removes exactly the entry at `m`. */
  lemma RemoveAt(open: seq<Coord>, m: nat, open': seq<Coord>)
    requires Distinct(open) && m < |open| && open' == open[..m] + open[m + 1..]
    ensures Distinct(open')
    ensures forall x :: x in open' <==> x in open && x != open[m]
  {
    assert forall i :: 0 <= i < |open'| ==> open'[i] == open[if i < m then i else i + 1];
    forall x | x in open && x != open[m]
      ensures x in open'
    {
      var i :| 0 <= i < |open| && open[i] == x;
      if i < m {
        assert open'[i] == x;
      } else {
        assert open'[i - 1] == x;
      }
    }
  }

  /** Taking `cur` off the open list and closing it starts its direction loop. */
  lemma Close(g: Grid, start: Coord, end: Coord, gs: map<Coord, nat>, parent: map<Coord, Coord>,
              closed: set<Coord>, open: seq<Coord>, visited: seq<Step>, m: nat, open': seq<Coord>)
    requires AStarState(g, start, end, gs, parent, closed, open, visited) && m < |open|
    requires forall q :: RouteBetween(g, q, start, open[m]) ==> gs[open[m]] + 1 <= |q|
    requires open' == open[..m] + open[m + 1..]
    ensures Relaxing(g, start, gs, parent, closed + {open[m]}, open', open[m], 0)
  {
    RemoveAt(open, m, open');
    forall i | 0 <= i < |open'|
      ensures open'[i] in gs && open'[i] !in closed + {open[m]}
    {
      assert open'[i] in open;
    }
  }

  /** Closing and expanding `cur` re-establishes the loop state with `cur` appended to `visitedSteps`. */
  lemma AStarStep(g: Grid, start: Coord, end: Coord, gs: map<Coord, nat>, parent: map<Coord, Coord>,
                  closed: set<Coord>, open: seq<Coord>, visited: seq<Step>, cur: Coord,
                  gs': map<Coord, nat>, parent': map<Coord, Coord>, open': seq<Coord>, visited': seq<Step>)
    requires AStarState(g, start, end, gs, parent, closed, open, visited)
    requires cur in open && cur != end && visited' == visited + [Step(cur, false)]
    requires Scores(g, start, gs', parent', closed + {cur}) && OpenList(gs', closed + {cur}, open')
    requires forall c :: c in closed + {cur} ==> Expanded(g, gs', c)
    ensures AStarState(g, start, end, gs', parent', closed + {cur}, open', visited')
    ensures |visited'| <= Rows(g) * Cols(g)
  {
    TraceStep(start, closed, open, visited, cur, open');
    forall c | c in Coords(visited')
      ensures InBounds(g, c)
    {
      assert c in gs';
    }
    TraceBound(g, start, closed + {cur}, open', visited');
  }

  /** Closing an open cell and recording it in `visitedSteps` keeps the trace. */
  lemma TraceStep(start: Coord, closed: set<Coord>, open: seq<Coord>, visited: seq<Step>, cur: Coord,
                  open': seq<Coord>)
    requires Trace(start, closed, open, visited) && cur in open && cur !in closed
    ensures Trace(start, closed + {cur}, open', visited + [Step(cur, false)])
  {
    CoordsAppend(visited, Step(cur, false));
    DistinctAppend(Coords(visited), cur);
  }

  /** A trace of cells of the grid is no longer than the grid has cells. */
  lemma TraceBound(g: Grid, start: Coord, closed: set<Coord>, open: seq<Coord>, visited: seq<Step>)
    requires Wf(g) && Trace(start, closed, open, visited)
    requires forall c :: c in Coords(visited) ==> InBounds(g, c)
    ensures |visited| <= Rows(g) * Cols(g)
  {
    DistinctCellsBound(g, Coords(visited));
  }

  /** `end` leaves the open list: the exploration ends with it, and its score is its distance. */
  lemma AStarFound(g: Grid, start: Coord, end: Coord, gs: map<Coord, nat>, parent: map<Coord, Coord>,
                   closed: set<Coord>, open: seq<Coord>, visited: seq<Step>, visited': seq<Step>)
    requires AStarState(g, start, end, gs, parent, closed, open, visited)
    requires end in open && visited' == visited + [Step(end, false)]
    requires forall q :: RouteBetween(g, q, start, end) ==> gs[end] + 1 <= |q|
    ensures Solved(g, start, end, gs, visited')
  {
    TraceStep(start, closed, open, visited, end, []);
    var done := Coords(visited');
    forall c | c in done
      ensures InBounds(g, c)
    {
      assert c in gs;
    }
    TraceBound(g, start, closed + {end}, [], visited');
    assert done[|visited|] == end;
    TreeReachable(g, start, gs, parent, end);
  }

  /** An empty open list: every scored cell is closed, so `end` is out of reach. */
  lemma AStarExhausted(g: Grid, start: Coord, end: Coord, gs: map<Coord, nat>, parent: map<Coord, Coord>,
                       closed: set<Coord>, visited: seq<Step>)
    requires AStarState(g, start, end, gs, parent, closed, [], visited)
    ensures Solved(g, start, end, gs, visited)
  {
    var done := Coords(visited);
    assert visited != [];
    forall i | 0 <= i < |visited|
      ensures InBounds(g, visited[i].coord)
    {
      assert done[i] in closed;
    }
    DistinctCellsBound(g, done);
    forall x, n | x in gs.Keys && Link(g, x, n)
      ensures n in gs.Keys
    {
      assert Expanded(g, gs, x);
    }
    if Reachable(g, start, end) {
      ClosedHoldsReachable(g, start, gs.Keys, end);
    }
  }

  /**
   * The scan of the open list in terms of scores: the chosen entry has the
   * lowest `fScore`, every earlier entry a strictly higher one, and its
   * `gScore` is its distance from `start`.
   */
  method PopLowest(g: Grid, gScore: array2<Option<nat>>, fScore: array2<Option<nat>>,
                   start: Coord, end: Coord, open: seq<Coord>,
                   ghost gs: map<Coord, nat>, ghost parent: map<Coord, Coord>, ghost closed: set<Coord>)
    returns (m: nat)
    requires gScore.Length0 == fScore.Length0 == Rows(g) && gScore.Length1 == fScore.Length1 == Cols(g)
    requires ScoresAre(gScore, fScore, gs, end) && |open| > 0
    requires Scores(g, start, gs, parent, closed) && OpenList(gs, closed, open)
    requires forall c :: c in closed ==> Expanded(g, gs, c)
    ensures m < |open|
    ensures forall x :: x in open ==> F(gs, end, open[m]) <= F(gs, end, x)
    ensures forall i :: 0 <= i < m ==> F(gs, end, open[m]) < F(gs, end, open[i])
    ensures forall q :: RouteBetween(g, q, start, open[m]) ==> gs[open[m]] + 1 <= |q|
  {
    forall i | 0 <= i < |open|
      ensures open[i] in gs && InBounds(g, open[i])
    {
      assert open[i] in gs;
    }
    m := LowestF(fScore, open);
    LowestScore(gScore, fScore, gs, end, open, m);
    PopOptimal(g, start, end, gs, parent, closed, open, open[m]);
  }

  /** The entry `LowestF` picks from `fScore` has the lowest `F` of the open list. */
  lemma LowestScore(gScore: array2<Option<nat>>, fScore: array2<Option<nat>>, gs: map<Coord, nat>, end: Coord,
                    open: seq<Coord>, m: nat)
    requires gScore.Length0 == fScore.Length0 && gScore.Length1 == fScore.Length1
    requires ScoresAre(gScore, fScore, gs, end) && m < |open|
    requires forall i :: 0 <= i < |open| ==>
      open[i] in gs && 0 <= open[i].row < fScore.Length0 && 0 <= open[i].col < fScore.Length1
    requires forall i :: 0 <= i < |open| ==>
      !Less(fScore[open[i].row, open[i].col], fScore[open[m].row, open[m].col])
    requires forall i :: 0 <= i < m ==>
      Less(fScore[open[m].row, open[m].col], fScore[open[i].row, open[i].col])
    ensures forall x :: x in open ==> F(gs, end, open[m]) <= F(gs, end, x)
    ensures forall i :: 0 <= i < m ==> F(gs, end, open[m]) < F(gs, end, open[i])
  {
    var cur := open[m];
    forall x | x in open
      ensures F(gs, end, cur) <= F(gs, end, x)
    {
      var i :| 0 <= i < |open| && open[i] == x;
      assert !Less(fScore[x.row, x.col], fScore[cur.row, cur.col]);
    }
    forall i | 0 <= i < m
      ensures F(gs, end, cur) < F(gs, end, open[i])
    {
      assert Less(fScore[cur.row, cur.col], fScore[open[i].row, open[i].col]);
    }
  }

  /** Links only point at closed cells, and the closed cells are the visited ones. */
  lemma ClosedLinks(g: Grid, start: Coord, end: Coord, gs: map<Coord, nat>, parent: map<Coord, Coord>,
                    closed: set<Coord>, open: seq<Coord>, visited: seq<Step>, s: Step)
    requires AStarState(g, start, end, gs, parent, closed, open, visited)
    ensures LinksExplored(parent, visited) && LinksExplored(parent, visited + [s])
  {
    CoordsAppend(visited, s);
  }

  lemma AStarInit(g: Grid, start: Coord, end: Coord)
    requires Wf(g) && InBounds(g, start) && InBounds(g, end)
    ensures AStarState(g, start, end, map[start := 0], map[], {}, [start], [])
  {
    assert Coords([]) == [];
  }

  /** Fresh score matrices holding `Infinity` everywhere except `start`. */
  method NewScores(g: Grid, start: Coord, end: Coord) returns (gScore: array2<Option<nat>>, fScore: array2<Option<nat>>)
    requires Wf(g) && InBounds(g, start)
    ensures fresh(gScore) && fresh(fScore) && gScore != fScore
    ensures gScore.Length0 == fScore.Length0 == Rows(g) && gScore.Length1 == fScore.Length1 == Cols(g)
    ensures ScoresAre(gScore, fScore, map[start := 0], end)
  {
    gScore := new Option<nat>[|g|, |g[0]|]((r, c) => None);
    fScore := new Option<nat>[|g|, |g[0]|]((r, c) => None);
    gScore[start.row, start.col] := Some(0);
    fScore[start.row, start.col] := Some(Manhattan(start, end));
  }

  /**
   * The open cell at `m`, which is not `end`, leaves the open list, is
   * marked closed in the `visited` matrix, and has its neighbours relaxed.
   */
  method Settle(g: Grid, gScore: array2<Option<nat>>, fScore: array2<Option<nat>>,
                cameFrom: array2<Option<Coord>>, closedArr: array2<bool>,
                start: Coord, end: Coord, open: seq<Coord>, visited: seq<Step>, m: nat,
                ghost gs: map<Coord, nat>, ghost parent: map<Coord, Coord>, ghost closed: set<Coord>)
    returns (open': seq<Coord>, visited': seq<Step>,
             ghost gs': map<Coord, nat>, ghost parent': map<Coord, Coord>, ghost closed': set<Coord>)
    requires Sized(g, gScore, fScore, cameFrom, closedArr) && gScore != fScore
    requires ScoresAre(gScore, fScore, gs, end) && PrevIs(cameFrom, parent) && SeenIs(closedArr, closed)
    requires AStarState(g, start, end, gs, parent, closed, open, visited) && m < |open| && open[m] != end
    requires forall q :: RouteBetween(g, q, start, open[m]) ==> gs[open[m]] + 1 <= |q|
    modifies gScore, fScore, cameFrom, closedArr
    ensures visited' == visited + [Step(open[m], false)] && closed' == closed + {open[m]}
    ensures open' == Pushes(g, gs, closed', open[..m] + open[m + 1..], open[m], 4)
    ensures gs' == ScoresAfter(g, gs, open[m], 4) && parent' == LinksAfter(g, gs, parent, open[m], 4)
    ensures ScoresAre(gScore, fScore, gs', end) && PrevIs(cameFrom, parent') && SeenIs(closedArr, closed')
    ensures AStarState(g, start, end, gs', parent', closed', open', visited')
    ensures |visited'| <= Rows(g) * Cols(g)
  {
    var cur := open[m];
    visited' := visited + [Step(cur, false)];
    open' := open[..m] + open[m + 1..];
    Close(g, start, end, gs, parent, closed, open, visited, m, open');
    assert InBounds(g, cur) by {
      assert cur in gs;
    }
    MarkSeen(closedArr, cur, closed);
    closed' := closed + {cur};
    ghost var spliced, trail := open', [];
    open', gs', parent', trail := ExpandCell(g, gScore, fScore, cameFrom, closedArr, end, cur, open', start, gs, parent, closed');
    LoopOutcome(g, gs, parent, closed', spliced, cur, trail);
    AStarStep(g, start, end, gs, parent, closed, open, visited, cur, gs', parent', open', visited');
  }

  /**
   * A* search from `start` to `end` with the Manhattan heuristic.
   * `visitedSteps` lists cells in the order they leave the open list; it
   * holds `end` (as its last entry) exactly when `end` is reachable, and
   * then the returned path is a shortest route; otherwise the path is
   * `[end]`.
   */
  method AStar(g: Grid, start: Coord, end: Coord) returns (visited: seq<Step>, path: seq<Step>)
    requires Wf(g) && InBounds(g, start) && InBounds(g, end)
    ensures Explored(g, start, visited)
    ensures end in Coords(visited) <==> Reachable(g, start, end)
    ensures end in Coords(visited) ==> visited[|visited| - 1].coord == end
    ensures AllTagged(path, true)
    ensures Reachable(g, start, end) ==> Shortest(g, path, start, end)
    ensures Reachable(g, start, end) ==> forall i :: 0 <= i < |path| ==> path[i].coord in Coords(visited)
    ensures !Reachable(g, start, end) ==> path == [Step(end, true)]
  {
    var cameFrom;
    ghost var gs, parent;
    visited, cameFrom, gs, parent := Explore(g, start, end);
    path := TracePath(cameFrom, start, end, g, gs, parent, Elems(Coords(visited)));
    SolvedAnswer(g, start, end, gs, visited, path);
  }

  /**
   * The main loop of `AStar`. Each pass takes the first open cell with the
   * lowest `fScore` and records it in `visitedSteps`; the loop stops there
   * if it is `end`, and otherwise closes it and relaxes its neighbours.
   */
  method Explore(g: Grid, start: Coord, end: Coord)
    returns (visited: seq<Step>, cameFrom: array2<Option<Coord>>, ghost gs: map<Coord, nat>, ghost parent: map<Coord, Coord>)
    requires Wf(g) && InBounds(g, start) && InBounds(g, end)
    ensures cameFrom.Length0 == Rows(g) && cameFrom.Length1 == Cols(g) && PrevIs(cameFrom, parent)
    ensures Tree(g, start, gs, parent) && Solved(g, start, end, gs, visited)
    ensures LinksExplored(parent, visited)
  {
    var rows, cols := |g|, |g[0]|;
    var open := [start];
    cameFrom := NewPrev(rows, cols);
    var gScore, fScore := NewScores(g, start, end);
    var closedArr := NewSeen(rows, cols);
    visited := [];
    gs, parent := map[start := 0], map[];
    ghost var closed: set<Coord> := {};
    AStarInit(g, start, end);
    while |open| > 0
      invariant Sized(g, gScore, fScore, cameFrom, closedArr) && gScore != fScore
      invariant ScoresAre(gScore, fScore, gs, end) && PrevIs(cameFrom, parent) && SeenIs(closedArr, closed)
      invariant AStarState(g, start, end, gs, parent, closed, open, visited)
      decreases rows * cols - |visited|
    {
      var m := PopLowest(g, gScore, fScore, start, end, open, gs, parent, closed);
      var cur := open[m];
      if cur == end {
        AStarFound(g, start, end, gs, parent, closed, open, visited, visited + [Step(cur, false)]);
        ClosedLinks(g, start, end, gs, parent, closed, open, visited, Step(cur, false));
        visited := visited + [Step(cur, false)];
        return;
      }
      open, visited, gs, parent, closed := Settle(g, gScore, fScore, cameFrom, closedArr, start, end, open, visited, m, gs, parent, closed);
    }
    AStarExhausted(g, start, end, gs, parent, closed, visited);
    ClosedLinks(g, start, end, gs, parent, closed, open, visited, Step(end, false));
  }
}
