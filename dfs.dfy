/**
 * The depth-first solver: the breadth-first solver with its queue replaced
 * by a stack. Cells are marked when pushed, so each is pushed at most once,
 * and the search stops as soon as `end` is popped.
 */
module Dfs {
  import opened Maze
  import opened Search

  /** `x` is known and so is every neighbour of `x`. */
  ghost predicate Covered(g: Grid, depth: map<Coord, nat>, x: Coord)
  {
    x in depth && forall n :: Link(g, x, n) ==> n in depth
  }

  /**
   * The state at the head of the main loop: every known cell is explored or
   * on the stack, never both and never twice; explored cells have had all
   * their neighbours discovered; `end` has not been explored.
   */
  ghost predicate DfsState(g: Grid, start: Coord, end: Coord, depth: map<Coord, nat>, parent: map<Coord, Coord>,
                           stack: seq<Coord>, visited: seq<Step>)
  {
    Tree(g, start, depth, parent) && InBounds(g, end) &&
    AllTagged(visited, false) &&
    (visited == [] ==> stack == [start]) && (visited != [] ==> visited[0].coord == start) &&
    Distinct(Coords(visited) + stack) &&
    (forall c :: c in depth <==> c in Coords(visited) || c in stack) &&
    (forall i :: 0 <= i < |visited| ==> Covered(g, depth, Coords(visited)[i])) &&
    end !in Coords(visited)
  }

  /**
   * What the solver has established once it stops: `visitedSteps` is a
   * proper exploration, it contains `end` exactly when `end` is reachable and
   * then ends with it, and the tree reaches `end` exactly then.
   */
  ghost predicate Outcome(g: Grid, start: Coord, end: Coord, depth: map<Coord, nat>, visited: seq<Step>)
  {
    Explored(g, start, visited) &&
    (end in Coords(visited) <==> Reachable(g, start, end)) &&
    (end in Coords(visited) ==> visited[|visited| - 1].coord == end) &&
    (end in depth <==> Reachable(g, start, end))
  }

  lemma DfsInit(g: Grid, start: Coord, end: Coord)
    requires Wf(g) && InBounds(g, start) && InBounds(g, end)
    ensures DfsState(g, start, end, map[start := 0], map[], [start], [])
  {
    assert Coords([]) == [];
  }

  lemma ExploredPop(g: Grid, start: Coord, visited: seq<Step>, stack: seq<Coord>, cur: Coord)
    requires |stack| > 0 && cur == stack[|stack| - 1] && Distinct(Coords(visited) + stack) && AllTagged(visited, false)
    requires (visited == [] ==> cur == start) && (visited != [] ==> visited[0].coord == start)
    requires forall i :: 0 <= i < |visited| ==> InBounds(g, visited[i].coord)
    requires InBounds(g, cur)
    ensures Explored(g, start, visited + [Step(cur, false)])
    ensures Distinct(Coords(visited) + [cur] + stack[..|stack| - 1])
  {
    var v := visited + [Step(cur, false)];
    var s := Coords(visited) + stack;
    var t := Coords(visited) + [cur] + stack[..|stack| - 1];
    CoordsAppend(visited, Step(cur, false));
    forall i, j | 0 <= i < j < |t|
      ensures t[i] != t[j]
    {
      var n := |visited|;
      var i' := if i < n then i else if i == n then |s| - 1 else i - 1;
      var j' := if j < n then j else if j == n then |s| - 1 else j - 1;
      assert t[i] == s[i'] && t[j] == s[j'] && i' != j';
    }
    assert Coords(v) == t[..|visited| + 1];
    DistinctCellsBound(g, Coords(v));
  }

  /** The known cells stay split between the explored list and the stack. */
  lemma PopPartition(depth: map<Coord, nat>, done: seq<Coord>, stack: seq<Coord>, fr: seq<Coord>, cur: Coord, v: nat)
    requires |stack| > 0 && cur == stack[|stack| - 1]
    requires forall c :: c in depth <==> c in done || c in stack
    ensures forall c :: c in Deepen(depth, fr, v) <==> c in done + [cur] || c in stack[..|stack| - 1] + fr
    ensures forall c :: c in done + [cur] + stack[..|stack| - 1] ==> c in depth
  {
    var rest := stack[..|stack| - 1];
    assert stack == rest + [cur];
    forall c
      ensures c in Deepen(depth, fr, v) <==> c in done + [cur] || c in rest + fr
    {
      if c in stack && c != cur {
        var k :| 0 <= k < |stack| && stack[k] == c;
        assert rest[k] == c;
      }
      if c in rest {
        var k :| 0 <= k < |rest| && rest[k] == c;
        assert stack[k] == c;
      }
    }
  }

  /** Popping the top of the stack and pushing its fresh neighbours keeps the loop state. */
  lemma DfsStep(g: Grid, start: Coord, end: Coord, depth: map<Coord, nat>,
                parent: map<Coord, Coord>, stack: seq<Coord>, visited: seq<Step>, cur: Coord, fr: seq<Coord>,
                depth': map<Coord, nat>, parent': map<Coord, Coord>, stack': seq<Coord>, visited': seq<Step>)
    requires DfsState(g, start, end, depth, parent, stack, visited)
    requires |stack| > 0 && cur == stack[|stack| - 1] && cur != end && fr == Fresh(g, cur, depth.Keys)
    requires depth' == Deepen(depth, fr, depth[cur] + 1) && parent' == Adopt(parent, fr, cur)
    requires stack' == stack[..|stack| - 1] + fr && visited' == visited + [Step(cur, false)]
    ensures DfsState(g, start, end, depth', parent', stack', visited')
    ensures |visited'| <= Rows(g) * Cols(g)
  {
    var done, rest := Coords(visited), stack[..|stack| - 1];
    FreshFacts(g, cur, depth.Keys);
    TreeGrow(g, start, depth, parent, cur, fr);
    ExploredPop(g, start, visited, stack, cur);
    CoordsAppend(visited, Step(cur, false));
    assert Coords(visited') == done + [cur];
    PopPartition(depth, done, stack, fr, cur, depth[cur] + 1);
    AppendFreshDistinct(done + [cur] + rest, fr, depth);
    assert done + [cur] + stack' == (done + [cur] + rest) + fr;
    CoveredStep(g, depth, depth', done, cur);
  }

  /** Cells covered before stay covered as cells become known, and `cur` joins them. */
  lemma CoveredStep(g: Grid, depth: map<Coord, nat>, depth': map<Coord, nat>, done: seq<Coord>, cur: Coord)
    requires forall i :: 0 <= i < |done| ==> Covered(g, depth, done[i])
    requires depth.Keys <= depth'.Keys && Covered(g, depth', cur)
    ensures forall i :: 0 <= i < |done| + 1 ==> Covered(g, depth', (done + [cur])[i])
  {
    forall i | 0 <= i < |done| + 1
      ensures Covered(g, depth', (done + [cur])[i])
    {
      if i < |done| {
        assert (done + [cur])[i] == done[i] && Covered(g, depth, done[i]);
      }
    }
  }

  /** `end` on top of the stack: the exploration ends with it, and it is reachable. */
  lemma DfsFound(g: Grid, start: Coord, end: Coord, depth: map<Coord, nat>, parent: map<Coord, Coord>,
                 stack: seq<Coord>, visited: seq<Step>, visited': seq<Step>)
    requires DfsState(g, start, end, depth, parent, stack, visited)
    requires |stack| > 0 && stack[|stack| - 1] == end && visited' == visited + [Step(end, false)]
    ensures Outcome(g, start, end, depth, visited')
  {
    ExploredPop(g, start, visited, stack, end);
    CoordsAppend(visited, Step(end, false));
    assert Coords(visited')[|visited|] == end;
    TreeReachable(g, start, depth, parent, end);
  }

  /** An empty stack: everything reachable has been explored, and `end` is not among it. */
  lemma DfsExhausted(g: Grid, start: Coord, end: Coord, depth: map<Coord, nat>, parent: map<Coord, Coord>,
                     visited: seq<Step>)
    requires DfsState(g, start, end, depth, parent, [], visited)
    ensures Outcome(g, start, end, depth, visited)
  {
    var done := Coords(visited);
    assert visited != [];
    assert done + [] == done;
    forall i | 0 <= i < |visited|
      ensures InBounds(g, visited[i].coord)
    {
      assert done[i] in depth;
    }
    DistinctCellsBound(g, done);
    forall x, n | x in depth && Link(g, x, n)
      ensures n in depth
    {
      var i :| 0 <= i < |done| && done[i] == x;
      assert Covered(g, depth, done[i]);
    }
    if Reachable(g, start, end) {
      ClosedHoldsReachable(g, start, depth.Keys, end);
    }
  }

  /**
   * One pass of the main loop: pop the top of the stack, record it in
   * `visitedSteps`, stop there if it is `end`, and otherwise push its fresh
   * neighbours in table order, so the last one pushed is explored next.
   */
  method Visit(g: Grid, seen: array2<bool>, prev: array2<Option<Coord>>, start: Coord, end: Coord,
               stack: seq<Coord>, visited: seq<Step>, ghost depth: map<Coord, nat>, ghost parent: map<Coord, Coord>)
    returns (cur: Coord, stack': seq<Coord>, visited': seq<Step>, stop: bool,
             ghost depth': map<Coord, nat>, ghost parent': map<Coord, Coord>)
    requires seen.Length0 == Rows(g) && seen.Length1 == Cols(g) && prev.Length0 == Rows(g) && prev.Length1 == Cols(g)
    requires SeenIs(seen, depth.Keys) && PrevIs(prev, parent)
    requires DfsState(g, start, end, depth, parent, stack, visited) && |stack| > 0
    modifies seen, prev
    ensures cur == stack[|stack| - 1] && visited' == visited + [Step(cur, false)]
    ensures stop <==> cur == end
    ensures stop ==> parent' == parent
    ensures !stop ==> stack' == stack[..|stack| - 1] + Fresh(g, cur, depth.Keys)
    ensures !stop ==> parent' == Adopt(parent, Fresh(g, cur, depth.Keys), cur)
    ensures SeenIs(seen, depth'.Keys) && PrevIs(prev, parent') && Tree(g, start, depth', parent')
    ensures stop ==> Outcome(g, start, end, depth', visited')
    ensures !stop ==> DfsState(g, start, end, depth', parent', stack', visited')
    ensures |visited'| == |visited| + 1 <= Rows(g) * Cols(g)
  {
    cur := stack[|stack| - 1];
    stack' := stack[..|stack| - 1];
    visited' := visited + [Step(cur, false)];
    depth', parent' := depth, parent;
    if cur == end {
      DfsFound(g, start, end, depth, parent, stack, visited, visited');
      stop := true;
      return;
    }
    stop := false;
    ghost var fr := Fresh(g, cur, depth.Keys);
    stack' := Expand(g, seen, prev, cur, stack', depth.Keys, parent);
    depth', parent' := Deepen(depth, fr, depth[cur] + 1), Adopt(parent, fr, cur);
    assert depth'.Keys == depth.Keys + Elems(fr);
    DfsStep(g, start, end, depth, parent, stack, visited, cur, fr, depth', parent', stack', visited');
  }

  /**
   * Depth-first search from `start` to `end`. `visitedSteps` lists cells in
   * the order they are popped; it holds `end` (as its last entry) exactly
   * when `end` is reachable, and then the returned path is a route from
   * `start` to `end` along the discovery tree; otherwise the path is `[end]`.
   */
  method Dfs(g: Grid, start: Coord, end: Coord) returns (visited: seq<Step>, path: seq<Step>)
    requires Wf(g) && InBounds(g, start) && InBounds(g, end)
    ensures Explored(g, start, visited)
    ensures end in Coords(visited) <==> Reachable(g, start, end)
    ensures end in Coords(visited) ==> visited[|visited| - 1].coord == end
    ensures AllTagged(path, true)
    ensures Reachable(g, start, end) ==> RouteBetween(g, Coords(path), start, end)
    ensures Reachable(g, start, end) ==> forall i :: 0 <= i < |path| ==> path[i].coord in Coords(visited)
    ensures !Reachable(g, start, end) ==> path == [Step(end, true)]
  {
    var prev;
    ghost var depth, parent;
    visited, prev, depth, parent := Explore(g, start, end);
    path := TracePath(prev, start, end, g, depth, parent, Elems(Coords(visited)));
  }

  /** The main loop of `Dfs`: runs `Visit` until the stack empties or `end` is popped from it. */
  method Explore(g: Grid, start: Coord, end: Coord)
    returns (visited: seq<Step>, prev: array2<Option<Coord>>, ghost depth: map<Coord, nat>, ghost parent: map<Coord, Coord>)
    requires Wf(g) && InBounds(g, start) && InBounds(g, end)
    ensures prev.Length0 == Rows(g) && prev.Length1 == Cols(g) && PrevIs(prev, parent)
    ensures Tree(g, start, depth, parent) && Outcome(g, start, end, depth, visited)
    ensures LinksExplored(parent, visited)
  {
    var rows, cols := |g|, |g[0]|;
    var seen := NewSeen(rows, cols);
    prev := NewPrev(rows, cols);
    MarkSeen(seen, start, {});
    var stack := [start];
    visited := [];
    depth, parent := map[start := 0], map[];
    var stop := false;
    DfsInit(g, start, end);
    while |stack| > 0
      invariant seen.Length0 == rows && seen.Length1 == cols && prev.Length0 == rows && prev.Length1 == cols
      invariant SeenIs(seen, depth.Keys) && PrevIs(prev, parent)
      invariant DfsState(g, start, end, depth, parent, stack, visited)
      invariant LinksExplored(parent, visited)
      invariant !stop
      decreases rows * cols - |visited|
    {
      ghost var depth0, parent0, visited0 := depth, parent, visited;
      var cur;
      cur, stack, visited, stop, depth, parent := Visit(g, seen, prev, start, end, stack, visited, depth, parent);
      LinksExploredStep(parent0, visited0, Fresh(g, cur, depth0.Keys), cur);
      if stop {
        break;
      }
    }
    if !stop {
      DfsExhausted(g, start, end, depth, parent, visited);
    }
  }
}
