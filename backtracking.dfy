/**
 * The recursive backtracking solver: a nested `dfs(row, col)` that refuses
 * cells outside the grid, cells already marked in its `visited` matrix and
 * cells flagged `bomb`, marks and records the cell it enters, stops at
 * `end`, and otherwise tries the neighbours top, bottom, left, right through
 * the sides of the current cell without a wall. The route is appended on
 * the way back out of a successful branch and reversed at the end.
 */
module Backtracking {
  import opened Maze
  import opened Search

  /** A cell the solver may enter: inside the grid and not flagged `bomb`. */
  predicate Enterable(g: Grid, c: Coord)
  {
    Wf(g) && InBounds(g, c) && !At(g, c).bomb
  }

  /** A route none of whose cells is flagged `bomb`. */
  predicate SafeRoute(g: Grid, p: seq<Coord>, a: Coord, b: Coord)
  {
    RouteBetween(g, p, a, b) && forall i :: 0 <= i < |p| ==> Enterable(g, p[i])
  }

  ghost predicate SafeReachable(g: Grid, a: Coord, b: Coord)
  {
    exists p :: SafeRoute(g, p, a, b)
  }

  /** The visited trace: explored steps, each an enterable cell, none twice. */
  predicate Entered(g: Grid, vs: seq<Step>)
  {
    AllTagged(vs, false) && Distinct(Coords(vs)) &&
    forall i :: 0 <= i < |vs| ==> Enterable(g, vs[i].coord)
  }

  /** Leaving `x` through side `d` leads nowhere the solver could still enter. */
  ghost predicate Tried(g: Grid, marked: set<Coord>, x: Coord, d: Dir)
  {
    Passable(g, x, d) && Enterable(g, Move(x, d)) ==> Move(x, d) in marked
  }

  /** Every side of `x` has been tried. */
  ghost predicate Closed(g: Grid, marked: set<Coord>, x: Coord)
  {
    forall d :: Tried(g, marked, x, d)
  }

  /**
   * Side `d` of `c` leads the recursion into a new cell: `c` has no wall on
   * that side, and the neighbour behind it can be entered and is not marked.
   */
  ghost predicate Enters(g: Grid, marked: set<Coord>, c: Coord, d: Dir)
  {
    Enterable(g, c) && !At(g, c).walls.Has(d) && Enterable(g, Move(c, d)) && Move(c, d) !in marked
  }

  /** The first of the sides `SearchOrder[k..]` of `c` that leads into a new cell, or 4 if none does. */
  ghost function FirstEntry(g: Grid, marked: set<Coord>, c: Coord, k: nat): (j: nat)
    requires k <= 4
    ensures k <= j <= 4
    ensures j < 4 ==> Enters(g, marked, c, SearchOrder[j])
    ensures forall i :: k <= i < j ==> !Enters(g, marked, c, SearchOrder[i])
    decreases 4 - k
  {
    if k == 4 then 4
    else if Enters(g, marked, c, SearchOrder[k]) then k
    else FirstEntry(g, marked, c, k + 1)
  }

  /** Step `i` of `vs` is one legal move from an earlier step. */
  ghost predicate EnteredFrom(g: Grid, vs: seq<Step>, i: int)
    requires 0 <= i < |vs|
  {
    exists j :: 0 <= j < i && Link(g, vs[j].coord, vs[i].coord)
  }

  /** Each step after the first enters a cell one legal move from the earlier step `src` names for it. */
  ghost predicate Linked(g: Grid, vs: seq<Step>, src: seq<int>)
  {
    |src| == |vs| && forall i :: 0 < i < |vs| ==> 0 <= src[i] < i && Link(g, vs[src[i]].coord, vs[i].coord)
  }

  /** The state of one run: the `visited` matrix and the two traces the nested `dfs` appends to. */
  class Run {
    const g: Grid
    const end: Coord
    const seen: array2<bool>
    var visitedSteps: seq<Step>
    var path: seq<Step>
    /** For each visited step, the position of the step whose side led to it. */
    ghost var src: seq<int>

    ghost predicate Valid()
      reads this, seen
    {
      Wf(g) && seen.Length0 == Rows(g) && seen.Length1 == Cols(g) &&
      SeenIs(seen, Elems(Coords(visitedSteps))) && Entered(g, visitedSteps) && AllTagged(path, true) &&
      Linked(g, visitedSteps, src)
    }

    /** A fresh run: nothing marked, both traces empty. */
    constructor (g: Grid, end: Coord)
      requires Wf(g)
      ensures Valid() && this.g == g && this.end == end && visitedSteps == [] && path == [] && fresh(seen)
    {
      this.g := g;
      this.end := end;
      seen := new bool[|g|, |g[0]|]((r, c) => false);
      visitedSteps := [];
      path := [];
      src := [];
      new;
      assert Coords([]) == [];
    }

    /**
     * `dfs(row, col)`. It returns `true` exactly when it reached `end`: then
     * `end` is the last visited step and `path`, read backwards, is a route
     * from `c` to `end` through visited cells. When it returns `false` the
     * path is still empty, `end` is still unvisited, `c` is visited if it
     * could be entered at all, and every cell it visited has had all of its
     * sides tried.
     */
    method Dfs(c: Coord, ghost from: int) returns (ok: bool)
      requires Valid() && path == [] && end !in Coords(visitedSteps)
      requires Enterable(g, c) && visitedSteps != [] ==>
        0 <= from < |visitedSteps| && Link(g, visitedSteps[from].coord, c)
      modifies this, seen
      ensures Valid()
      ensures |visitedSteps| >= |old(visitedSteps)| && visitedSteps[..|old(visitedSteps)|] == old(visitedSteps)
      ensures |visitedSteps| > |old(visitedSteps)| ==> visitedSteps[|old(visitedSteps)|].coord == c
      ensures |visitedSteps| > |old(visitedSteps)| <==> Enterable(g, c) && c !in Coords(old(visitedSteps))
      ensures ok ==> Enterable(g, c) && |visitedSteps| > 0 && visitedSteps[|visitedSteps| - 1].coord == end
      ensures ok ==> path != [] && RouteBetween(g, Reverse(Coords(path)), c, end)
      ensures ok ==> forall i :: 0 <= i < |path| ==> path[i].coord in Coords(visitedSteps)
      ensures !ok ==> path == [] && end !in Coords(visitedSteps)
      ensures !ok && Enterable(g, c) ==> c in Coords(visitedSteps)
      ensures !ok ==> forall i :: |old(visitedSteps)| <= i < |visitedSteps| ==>
        Closed(g, Elems(Coords(visitedSteps)), visitedSteps[i].coord)
      decreases Rows(g) * Cols(g) - |visitedSteps|, 0
    {
      if c.row < 0 || c.row >= |g| || c.col < 0 || c.col >= |g[0]| {
        return false;
      }
      if seen[c.row, c.col] {
        assert c in Elems(Coords(visitedSteps));
        return false;
      }
      if g[c.row][c.col].bomb {
        return false;
      }
      ghost var before := visitedSteps;
      Enter(c, from);
      if c == end {
        Push(c);
        assert Reverse(Coords(path)) == [c] by {
          assert Coords(path) == [c];
        }
        return true;
      }
      DistinctCellsBound(g, Coords(visitedSteps));
      ok := Sides(c, before);
      GrownIn(before, visitedSteps, c);
    }

    /**
     * The direction loop of `dfs(row, col)` after `c` was entered: the sides
     * top, bottom, left, right are tried in turn until one leads to `end`.
     */
    method Sides(c: Coord, ghost before: seq<Step>) returns (ok: bool)
      requires Valid() && path == [] && end !in Coords(visitedSteps)
      requires Enterable(g, c) && Grown(before, visitedSteps, c) && |visitedSteps| == |before| + 1
      modifies this, seen
      ensures Valid() && Grown(before, visitedSteps, c)
      ensures ok ==> |visitedSteps| > 0 && visitedSteps[|visitedSteps| - 1].coord == end
      ensures ok ==> path != [] && RouteBetween(g, Reverse(Coords(path)), c, end)
      ensures ok ==> forall i :: 0 <= i < |path| ==> path[i].coord in Coords(visitedSteps)
      ensures !ok ==> path == [] && end !in Coords(visitedSteps)
      ensures !ok ==> forall i :: |before| <= i < |visitedSteps| ==>
        Closed(g, Elems(Coords(visitedSteps)), visitedSteps[i].coord)
      ensures FirstChild(g, before, visitedSteps, c)
      decreases Rows(g) * Cols(g) - |visitedSteps|, 2
    {
      ghost var m0 := Elems(Coords(before)) + {c};
      EnteredMarks(before, visitedSteps, c);
      for k := 0 to 4
        invariant Valid() && path == [] && end !in Coords(visitedSteps)
        invariant Grown(before, visitedSteps, c)
        invariant forall j :: 0 <= j < k ==> Tried(g, Elems(Coords(visitedSteps)), c, SearchOrder[j])
        invariant forall i :: |before| < i < |visitedSteps| ==>
          Closed(g, Elems(Coords(visitedSteps)), visitedSteps[i].coord)
        invariant Order(g, m0, c, k, before, visitedSteps)
      {
        DistinctCellsBound(g, Coords(visitedSteps));
        ghost var prior := visitedSteps;
        ok := Side(c, k, before);
        FirstStep(g, m0, c, k, before, prior, visitedSteps);
        if ok {
          GrewTo(prior, visitedSteps, end);
          OrderDone(g, m0, c, k + 1, before, visitedSteps);
          return;
        }
      }
      OrderDone(g, m0, c, 4, before, visitedSteps);
      SidesClosed(g, before, visitedSteps, c);
      ok := false;
    }

    /**
     * One pass of the direction loop: if side `SearchOrder[k]` of `c` has no
     * wall, `dfs` is called on the neighbour behind it, and on success `c` is
     * appended to the path.
     */
    method Side(c: Coord, k: nat, ghost before: seq<Step>) returns (ok: bool)
      requires Valid() && path == [] && end !in Coords(visitedSteps) && k < 4
      requires Enterable(g, c) && Grown(before, visitedSteps, c)
      requires forall j :: 0 <= j < k ==> Tried(g, Elems(Coords(visitedSteps)), c, SearchOrder[j])
      requires forall i :: |before| < i < |visitedSteps| ==>
        Closed(g, Elems(Coords(visitedSteps)), visitedSteps[i].coord)
      modifies this, seen
      ensures |visitedSteps| >= |old(visitedSteps)| && visitedSteps[..|old(visitedSteps)|] == old(visitedSteps)
      ensures |visitedSteps| > |old(visitedSteps)| <==> Enters(g, Elems(Coords(old(visitedSteps))), c, SearchOrder[k])
      ensures |visitedSteps| > |old(visitedSteps)| ==> visitedSteps[|old(visitedSteps)|].coord == Move(c, SearchOrder[k])
      ensures At(g, c).walls.Has(SearchOrder[k]) ==> !ok && visitedSteps == old(visitedSteps) && path == old(path)
      ensures Valid() && Grown(before, visitedSteps, c)
      ensures ok ==> |visitedSteps| > 0 && visitedSteps[|visitedSteps| - 1].coord == end
      ensures ok ==> path != [] && RouteBetween(g, Reverse(Coords(path)), c, end)
      ensures ok ==> forall i :: 0 <= i < |path| ==> path[i].coord in Coords(visitedSteps)
      ensures !ok ==> path == [] && end !in Coords(visitedSteps)
      ensures !ok ==> forall j :: 0 <= j < k + 1 ==> Tried(g, Elems(Coords(visitedSteps)), c, SearchOrder[j])
      ensures !ok ==> forall i :: |before| < i < |visitedSteps| ==>
        Closed(g, Elems(Coords(visitedSteps)), visitedSteps[i].coord)
      decreases Rows(g) * Cols(g) - |visitedSteps|, 1
    {
      var d := SearchOrder[k];
      var n := Move(c, d);
      ghost var mid := visitedSteps;
      if !g[c.row][c.col].walls.Has(d) {
        LinkIff(g, c, d);
        ok := Dfs(n, |before|);
        if ok {
          Succeeded(g, before, mid, visitedSteps, c, d, path, end);
          Push(c);
          return;
        }
        TriedAfter(g, before, mid, visitedSteps, c, k, n);
      } else {
        ok := false;
        assert !Passable(g, c, d);
        TriedAfter(g, before, visitedSteps, visitedSteps, c, k, n);
      }
    }

    /** Appends `c` to the path, tagged as a path step. */
    method Push(c: Coord)
      requires Valid()
      modifies this
      ensures Valid() && visitedSteps == old(visitedSteps) && path == old(path) + [Step(c, true)]
    {
      path := path + [Step(c, true)];
    }

    /** Marks `c` in the matrix and appends it to the visited trace. */
    method Enter(c: Coord, ghost from: int)
      requires Valid() && Enterable(g, c) && c !in Elems(Coords(visitedSteps))
      requires visitedSteps != [] ==> 0 <= from < |visitedSteps| && Link(g, visitedSteps[from].coord, c)
      modifies this, seen
      ensures Valid() && path == old(path)
      ensures visitedSteps == old(visitedSteps) + [Step(c, false)]
    {
      MarkSeen(seen, c, Elems(Coords(visitedSteps)));
      CoordsAppend(visitedSteps, Step(c, false));
      DistinctAppend(Coords(visitedSteps), c);
      visitedSteps := visitedSteps + [Step(c, false)];
      src := src + [from];
      assert Elems(Coords(visitedSteps)) == Elems(Coords(old(visitedSteps))) + {c};
    }
  }

  /** Right after `c` is entered, the marked cells are those of `before` and `c`. */
  lemma EnteredMarks(before: seq<Step>, now: seq<Step>, c: Coord)
    requires Grown(before, now, c) && |now| == |before| + 1
    ensures Elems(Coords(now)) == Elems(Coords(before)) + {c}
  {
    assert now == before + [Step(c, false)];
    CoordsAppend(before, Step(c, false));
  }

  /** No side before `k` has entered a new cell, so the marks are still those of `m0`. */
  ghost predicate NoneEnteredYet(g: Grid, m0: set<Coord>, c: Coord, k: nat, before: seq<Step>, now: seq<Step>)
  {
    |now| == |before| + 1 ==>
      Elems(Coords(now)) == m0 && forall j :: 0 <= j < k && j < |SearchOrder| ==> !Enters(g, m0, c, SearchOrder[j])
  }

  /** Once a side has entered a new cell, the first cell entered is the neighbour behind `FirstEntry`. */
  ghost predicate FirstEntered(g: Grid, m0: set<Coord>, c: Coord, before: seq<Step>, now: seq<Step>)
  {
    |now| > |before| + 1 ==>
      FirstEntry(g, m0, c, 0) < 4 && now[|before| + 1].coord == Move(c, SearchOrder[FirstEntry(g, m0, c, 0)])
  }

  /** `FirstEntry` from `i` is `k` when side `k` enters and no side from `i` up to `k` does. */
  lemma {:induction false} FirstEntryAt(g: Grid, m: set<Coord>, c: Coord, i: nat, k: nat)
    requires i <= k < 4 && Enters(g, m, c, SearchOrder[k])
    requires forall j :: i <= j < k ==> !Enters(g, m, c, SearchOrder[j])
    ensures FirstEntry(g, m, c, i) == k
    decreases k - i
  {
    if i < k {
      FirstEntryAt(g, m, c, i + 1, k);
    }
  }

  /** One pass of the direction loop keeps track of the first cell the loop enters. */
  lemma FirstStep(g: Grid, m0: set<Coord>, c: Coord, k: nat, before: seq<Step>, prior: seq<Step>, now: seq<Step>)
    requires k < 4 && |prior| >= |before| + 1 && |now| >= |prior| && now[..|prior|] == prior
    requires Order(g, m0, c, k, before, prior)
    requires |now| > |prior| <==> Enters(g, Elems(Coords(prior)), c, SearchOrder[k])
    requires |now| > |prior| ==> now[|prior|].coord == Move(c, SearchOrder[k])
    ensures Order(g, m0, c, k + 1, before, now)
  {
    if |prior| > |before| + 1 {
      assert now[|before| + 1] == prior[|before| + 1];
    } else if |now| > |prior| {
      FirstEntryAt(g, m0, c, 0, k);
    } else {
      assert now == prior;
    }
  }

  /** With no side from `i` on entering a new cell, `FirstEntry` from `i` finds none. */
  lemma {:induction false} FirstEntryNone(g: Grid, m: set<Coord>, c: Coord, i: nat)
    requires i <= 4 && forall j :: i <= j < 4 ==> !Enters(g, m, c, SearchOrder[j])
    ensures FirstEntry(g, m, c, i) == 4
    decreases 4 - i
  {
    if i < 4 {
      FirstEntryNone(g, m, c, i + 1);
    }
  }

  /**
   * The direction loop of `c`, entered right after the steps `before`, tries
   * sides in the order top, bottom, left, right: it enters a further cell
   * exactly when some side leads to a cell it can enter, and the first one
   * it enters is behind the first such side.
   */
  ghost predicate FirstChild(g: Grid, before: seq<Step>, now: seq<Step>, c: Coord)
  {
    var j := FirstEntry(g, Elems(Coords(before)) + {c}, c, 0);
    (|now| > |before| + 1 <==> j < 4) && (j < 4 ==> |now| > |before| + 1 && now[|before| + 1].coord == Move(c, SearchOrder[j]))
  }

  /** A trace that now ends at a cell missing from its earlier prefix has grown. */
  lemma GrewTo(prior: seq<Step>, now: seq<Step>, x: Coord)
    requires |now| >= |prior| && now[..|prior|] == prior && x !in Coords(prior)
    requires |now| > 0 && now[|now| - 1].coord == x
    ensures |now| > |prior|
  {
    assert Coords(now)[|now| - 1] == x;
    assert forall i :: 0 <= i < |prior| ==> Coords(prior)[i] == now[i].coord;
  }

  /** The direction loop's bookkeeping of the first cell it entered, after `k` passes. */
  ghost predicate Order(g: Grid, m0: set<Coord>, c: Coord, k: nat, before: seq<Step>, now: seq<Step>)
  {
    NoneEnteredYet(g, m0, c, k, before, now) && FirstEntered(g, m0, c, before, now)
  }

  /** When the loop stops, after all four sides or after entering some cell, its first entry is `FirstEntry`'s. */
  lemma OrderDone(g: Grid, m0: set<Coord>, c: Coord, k: nat, before: seq<Step>, now: seq<Step>)
    requires m0 == Elems(Coords(before)) + {c} && |now| >= |before| + 1
    requires Order(g, m0, c, k, before, now) && (k == 4 || |now| > |before| + 1)
    ensures FirstChild(g, before, now, c)
  {
    if |now| == |before| + 1 {
      FirstEntryNone(g, m0, c, 0);
    }
  }

  /** `now` extends `before` by the step into `c` and then whatever the tried neighbours added. */
  ghost predicate Grown(before: seq<Step>, now: seq<Step>, c: Coord)
  {
    |now| > |before| && now[..|before|] == before && now[|before|] == Step(c, false)
  }

  lemma GrownIn(before: seq<Step>, now: seq<Step>, c: Coord)
    requires Grown(before, now, c)
    ensures c in Coords(now) && now[..|before|] == before && now[|before|].coord == c
  {
    assert Coords(now)[|before|] == c;
  }

  /** Marked sets only grow along extensions of the trace. */
  lemma MarkedGrow(a: seq<Step>, b: seq<Step>)
    requires |b| >= |a| && b[..|a|] == a
    ensures Elems(Coords(a)) <= Elems(Coords(b))
  {
    forall x | x in Elems(Coords(a))
      ensures x in Elems(Coords(b))
    {
      var i :| 0 <= i < |a| && Coords(a)[i] == x;
      assert Coords(b)[i] == x;
    }
  }

  /**
   * After side `k` of `c` is handled (the recursive call failed, or a wall
   * was in the way) the loop's facts hold one side further on.
   */
  lemma TriedAfter(g: Grid, before: seq<Step>, mid: seq<Step>, now: seq<Step>, c: Coord, k: nat, n: Coord)
    requires k < 4 && n == Move(c, SearchOrder[k])
    requires Grown(before, mid, c) && |now| >= |mid| && now[..|mid|] == mid
    requires forall j :: 0 <= j < k ==> Tried(g, Elems(Coords(mid)), c, SearchOrder[j])
    requires forall i :: |before| < i < |mid| ==> Closed(g, Elems(Coords(mid)), mid[i].coord)
    requires Passable(g, c, SearchOrder[k]) && Enterable(g, n) ==> n in Coords(now)
    requires forall i :: |mid| <= i < |now| ==> Closed(g, Elems(Coords(now)), now[i].coord)
    ensures Grown(before, now, c)
    ensures forall j :: 0 <= j < k + 1 ==> Tried(g, Elems(Coords(now)), c, SearchOrder[j])
    ensures forall i :: |before| < i < |now| ==> Closed(g, Elems(Coords(now)), now[i].coord)
  {
    MarkedGrow(mid, now);
    var m, m' := Elems(Coords(mid)), Elems(Coords(now));
    assert now[..|before|] == mid[..|mid|][..|before|];
    assert now[|before|] == mid[|before|];
    forall i | |before| < i < |now|
      ensures Closed(g, m', now[i].coord)
    {
      if i < |mid| {
        assert now[i] == mid[i];
        ClosedMono(g, m, m', mid[i].coord);
      }
    }
    forall j | 0 <= j < k
      ensures Tried(g, m', c, SearchOrder[j])
    {
      assert Tried(g, m, c, SearchOrder[j]);
    }
  }

  /** Once all four sides of `c` are tried, every cell entered since `before` is closed. */
  lemma SidesClosed(g: Grid, before: seq<Step>, now: seq<Step>, c: Coord)
    requires Grown(before, now, c)
    requires forall j :: 0 <= j < 4 ==> Tried(g, Elems(Coords(now)), c, SearchOrder[j])
    requires forall i :: |before| < i < |now| ==> Closed(g, Elems(Coords(now)), now[i].coord)
    ensures forall i :: |before| <= i < |now| ==> Closed(g, Elems(Coords(now)), now[i].coord)
  {
    var m := Elems(Coords(now));
    assert Tried(g, m, c, SearchOrder[0]) && Tried(g, m, c, SearchOrder[1]);
    assert Tried(g, m, c, SearchOrder[2]) && Tried(g, m, c, SearchOrder[3]);
    assert Closed(g, m, c) by {
      forall d
        ensures Tried(g, m, c, d)
      {
        assert d == SearchOrder[0] || d == SearchOrder[1] || d == SearchOrder[2] || d == SearchOrder[3];
      }
    }
  }

  lemma ClosedMono(g: Grid, m: set<Coord>, m': set<Coord>, x: Coord)
    requires Closed(g, m, x) && m <= m'
    ensures Closed(g, m', x)
  {
    forall d
      ensures Tried(g, m', x, d)
    {
      assert Tried(g, m, x, d);
    }
  }

  /**
   * A recursive call through the open side `d` of `c` that reached `end`:
   * with `c` appended, the path read backwards runs from `c` to `end` through
   * visited cells.
   */
  lemma Succeeded(g: Grid, before: seq<Step>, mid: seq<Step>, now: seq<Step>, c: Coord, d: Dir,
                  path: seq<Step>, end: Coord)
    requires Grown(before, mid, c) && |now| >= |mid| && now[..|mid|] == mid
    requires Enterable(g, c) && !At(g, c).walls.Has(d) && Enterable(g, Move(c, d))
    requires RouteBetween(g, Reverse(Coords(path)), Move(c, d), end)
    requires forall i :: 0 <= i < |path| ==> path[i].coord in Coords(now)
    ensures Grown(before, now, c)
    ensures RouteBetween(g, Reverse(Coords(path + [Step(c, true)])), c, end)
    ensures forall i :: 0 <= i < |path + [Step(c, true)]| ==> (path + [Step(c, true)])[i].coord in Coords(now)
  {
    assert now[..|before|] == mid[..|mid|][..|before|];
    assert now[|before|] == mid[|before|];
    LinkIff(g, c, d);
    Unwound(g, c, Move(c, d), path, end);
    GrownIn(before, now, c);
  }

  /** Appending `c` on the way out of a successful call extends the backwards route by one cell. */
  lemma Unwound(g: Grid, c: Coord, n: Coord, path: seq<Step>, end: Coord)
    requires RouteBetween(g, Reverse(Coords(path)), n, end) && Link(g, c, n)
    ensures RouteBetween(g, Reverse(Coords(path + [Step(c, true)])), c, end)
  {
    CoordsAppend(path, Step(c, true));
    ReverseAppend(Coords(path), c);
    ReachablePrefix(g, c, Reverse(Coords(path)));
  }

  /** A set holding `p[0]` and closed under enterable moves holds every cell of a safe route. */
  lemma {:induction false} ClosedHoldsSafeRoute(g: Grid, s: set<Coord>, p: seq<Coord>, a: Coord, b: Coord)
    requires SafeRoute(g, p, a, b) && a in s
    requires forall x :: x in s ==> Closed(g, s, x)
    ensures b in s
    decreases |p|
  {
    if |p| > 1 {
      var front := p[..|p| - 1];
      var x := p[|p| - 2];
      assert SafeRoute(g, front, a, x) by {
        forall i | 0 <= i < |front| - 1
          ensures Link(g, front[i], front[i + 1])
        {
          assert front[i] == p[i] && front[i + 1] == p[i + 1];
        }
      }
      ClosedHoldsSafeRoute(g, s, front, a, x);
      assert Link(g, x, b) && Enterable(g, b);
      assert Tried(g, s, x, Top) && Tried(g, s, x, Bottom) && Tried(g, s, x, Left) && Tried(g, s, x, Right);
    }
  }

  /**
   * `backtracking(grid, start, end)`. `visitedSteps` lists the cells in the
   * order the recursion entered them, starting at `start`, never twice,
   * never outside the grid and never a `bomb` cell. The path is non-empty
   * exactly when `end` can be reached from `start` without crossing a
   * `bomb` cell; it is then such a route, ordered from `start` to `end`,
   * through visited cells, and `end` is the last visited cell. Otherwise
   * `end` was never visited.
   */
  method Backtracking(g: Grid, start: Coord, end: Coord) returns (visited: seq<Step>, path: seq<Step>)
    requires Wf(g)
    ensures Entered(g, visited) && (visited != [] ==> visited[0].coord == start)
    ensures AllTagged(path, true)
    ensures path != [] <==> SafeReachable(g, start, end)
    ensures path != [] ==> SafeRoute(g, Coords(path), start, end) && |visited| > 0 && visited[|visited| - 1].coord == end
    ensures forall i :: 0 <= i < |path| ==> path[i].coord in Coords(visited)
    ensures path == [] ==> end !in Coords(visited)
    ensures forall i :: 0 < i < |visited| ==> EnteredFrom(g, visited, i)
  {
    var run := new Run(g, end);
    var ok := run.Dfs(start, -1);
    visited := run.visitedSteps;
    LinkedEarlier(g, visited, run.src);
    path := Reverse(run.path);
    ReverseTagged(run.path, true);
    CoordsReverse(run.path);
    ReverseIndex(run.path);
    if ok {
      Answer(g, start, end, visited, run.path, path);
    } else {
      Refused(g, start, end, visited);
    }
  }

  /** The positions `src` records show every visited cell after the first was entered from an earlier one. */
  lemma LinkedEarlier(g: Grid, vs: seq<Step>, src: seq<int>)
    requires Linked(g, vs, src)
    ensures forall i :: 0 < i < |vs| ==> EnteredFrom(g, vs, i)
  {
    forall i | 0 < i < |vs|
      ensures EnteredFrom(g, vs, i)
    {
      var j := src[i];
      assert 0 <= j < i && Link(g, vs[j].coord, vs[i].coord);
    }
  }

  /** A successful run's reversed path is a safe route through visited cells. */
  lemma Answer(g: Grid, start: Coord, end: Coord, visited: seq<Step>, back: seq<Step>, path: seq<Step>)
    requires Entered(g, visited) && back != [] && path == Reverse(back)
    requires RouteBetween(g, Reverse(Coords(back)), start, end)
    requires forall i :: 0 <= i < |back| ==> back[i].coord in Coords(visited)
    ensures path != [] && SafeRoute(g, Coords(path), start, end)
    ensures forall i :: 0 <= i < |path| ==> path[i].coord in Coords(visited)
  {
    var cs := Coords(path);
    assert cs == Reverse(Coords(back)) by {
      CoordsReverse(back);
    }
    assert forall i :: 0 <= i < |path| ==> path[i].coord in Coords(visited) by {
      ReverseIndex(back);
      forall i | 0 <= i < |path|
        ensures path[i].coord in Coords(visited)
      {
        assert path[i] == back[|back| - 1 - i];
      }
    }
    forall i | 0 <= i < |cs|
      ensures Enterable(g, cs[i])
    {
      EnteredCell(g, visited, path[i].coord);
    }
  }

  lemma EnteredCell(g: Grid, vs: seq<Step>, x: Coord)
    requires Entered(g, vs) && x in Coords(vs)
    ensures Enterable(g, x)
  {
    var j :| 0 <= j < |vs| && Coords(vs)[j] == x;
    assert vs[j].coord == x;
  }

  /** A failed run leaves a closed set of visited cells without `end`, so no safe route exists. */
  lemma Refused(g: Grid, start: Coord, end: Coord, visited: seq<Step>)
    requires Wf(g) && end !in Coords(visited)
    requires Enterable(g, start) ==> start in Coords(visited)
    requires forall i :: 0 <= i < |visited| ==> Closed(g, Elems(Coords(visited)), visited[i].coord)
    ensures !SafeReachable(g, start, end)
  {
    var s := Elems(Coords(visited));
    forall x | x in s
      ensures Closed(g, s, x)
    {
      var i :| 0 <= i < |visited| && Coords(visited)[i] == x;
    }
    forall p | SafeRoute(g, p, start, end)
      ensures end in s
    {
      ClosedHoldsSafeRoute(g, s, p, start, end);
    }
  }
}
