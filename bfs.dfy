/**
 * The breadth-first solver: a FIFO queue of discovered cells, a `visited`
 * matrix marking every cell ever queued, a `prev` matrix recording where each
 * cell was discovered from, and a stop as soon as `end` leaves the queue.
 */
module Bfs {
  import opened Maze
  import opened Search

  /**
   * The queue holds cells in nondecreasing depth, spanning at most two
   * consecutive levels, and nothing already explored lies deeper than its head.
   */
  ghost predicate Layered(depth: map<Coord, nat>, done: seq<Coord>, queue: seq<Coord>)
  {
    (forall i :: 0 <= i < |queue| ==> queue[i] in depth) &&
    (forall i :: 0 <= i < |done| ==> done[i] in depth) &&
    (forall i, j :: 0 <= i < j < |queue| ==> depth[queue[i]] <= depth[queue[j]]) &&
    (|queue| > 0 ==>
      depth[queue[|queue| - 1]] <= depth[queue[0]] + 1 &&
      forall i :: 0 <= i < |done| ==> depth[done[i]] <= depth[queue[0]])
  }

  /**
   * The state at the head of the main loop. Every known cell is either
   * explored (in `visited`) or waiting in the queue, never both, never twice;
   * explored cells have had all their neighbours discovered; `end` has not
   * been explored yet.
   */
  ghost predicate BfsState(g: Grid, start: Coord, end: Coord, depth: map<Coord, nat>, parent: map<Coord, Coord>,
                           queue: seq<Coord>, visited: seq<Step>)
  {
    Tree(g, start, depth, parent) && InBounds(g, end) &&
    AllTagged(visited, false) &&
    (visited == [] ==> queue == [start]) && (visited != [] ==> visited[0].coord == start) &&
    Distinct(Coords(visited) + queue) &&
    (forall c :: c in depth <==> c in Coords(visited) || c in queue) &&
    Layered(depth, Coords(visited), queue) &&
    (forall i :: 0 <= i < |visited| ==> Expanded(g, depth, Coords(visited)[i])) &&
    end !in Coords(visited)
  }

  lemma BfsInit(g: Grid, start: Coord, end: Coord)
    requires Wf(g) && InBounds(g, start) && InBounds(g, end)
    ensures BfsState(g, start, end, map[start := 0], map[], [start], [])
  {
    assert Coords([]) == [];
  }

  lemma ExploredStep(g: Grid, start: Coord, visited: seq<Step>, queue: seq<Coord>, cur: Coord)
    requires |queue| > 0 && cur == queue[0] && Distinct(Coords(visited) + queue) && AllTagged(visited, false)
    requires (visited == [] ==> cur == start) && (visited != [] ==> visited[0].coord == start)
    requires forall i :: 0 <= i < |visited| ==> InBounds(g, visited[i].coord)
    requires InBounds(g, cur)
    ensures Explored(g, start, visited + [Step(cur, false)])
  {
    var v := visited + [Step(cur, false)];
    CoordsAppend(visited, Step(cur, false));
    assert Coords(v) == (Coords(visited) + queue)[..|visited| + 1];
    DistinctCellsBound(g, Coords(v));
  }

  /** Moving the head of the queue to the explored list and appending new cells keeps everything distinct. */
  lemma StepDistinct(depth: map<Coord, nat>, done: seq<Coord>, queue: seq<Coord>, fr: seq<Coord>, cur: Coord)
    requires |queue| > 0 && cur == queue[0] && Distinct(done + queue) && Distinct(fr)
    requires forall c :: c in done || c in queue ==> c in depth
    requires forall n :: n in fr ==> n !in depth
    ensures Distinct((done + [cur]) + (queue[1..] + fr))
  {
    var s, s' := done + queue, (done + [cur]) + (queue[1..] + fr);
    assert s' == s + fr;
    forall i, j | 0 <= i < j < |s'|
      ensures s'[i] != s'[j]
    {
      if j >= |s| {
        assert s'[j] in fr;
        if i < |s| {
          assert s'[i] == s[i];
          assert s[i] in done || s[i] in queue;
        } else {
          assert s'[i] == fr[i - |s|] && s'[j] == fr[j - |s|];
        }
      }
    }
  }

  /** The known cells stay split between the explored list and the queue. */
  lemma StepPartition(depth: map<Coord, nat>, done: seq<Coord>, queue: seq<Coord>, fr: seq<Coord>, cur: Coord, v: nat)
    requires |queue| > 0 && cur == queue[0]
    requires forall c :: c in depth <==> c in done || c in queue
    ensures forall c :: c in Deepen(depth, fr, v) <==> c in done + [cur] || c in queue[1..] + fr
  {
    forall c
      ensures c in Deepen(depth, fr, v) <==> c in done + [cur] || c in queue[1..] + fr
    {
      if c in queue && c != cur {
        var k :| 0 <= k < |queue| && queue[k] == c;
        assert queue[1..][k - 1] == c;
      }
      if c in queue[1..] {
        assert c in queue;
      }
    }
  }

  /** Appending cells one level below the head keeps the queue layered. */
  lemma StepLayered(depth: map<Coord, nat>, done: seq<Coord>, queue: seq<Coord>, fr: seq<Coord>, cur: Coord)
    requires |queue| > 0 && cur == queue[0] && Layered(depth, done, queue)
    requires forall n :: n in fr ==> n !in depth
    ensures Layered(Deepen(depth, fr, depth[cur] + 1), done + [cur], queue[1..] + fr)
  {
    var v := depth[cur] + 1;
    var depth', done', queue' := Deepen(depth, fr, v), done + [cur], queue[1..] + fr;
    forall i | 0 <= i < |queue|
      ensures depth[cur] <= depth[queue[i]] <= v && queue[i] !in fr
    {
      if i > 0 {
        assert depth[queue[0]] <= depth[queue[i]] <= depth[queue[|queue| - 1]];
      }
    }
    forall i | 0 <= i < |queue'|
      ensures queue'[i] in depth' && depth'[queue'[i]] == (if i < |queue| - 1 then depth[queue[i + 1]] else v)
    {
      if i < |queue| - 1 {
        assert queue'[i] == queue[i + 1];
      } else {
        assert queue'[i] in fr;
      }
    }
    forall i | 0 <= i < |done'|
      ensures done'[i] in depth' && depth'[done'[i]] == depth[done'[i]] <= depth[cur]
    {
      if i < |done| {
        assert done'[i] == done[i];
        assert done[i] !in fr;
      }
    }
    forall i, j | 0 <= i < j < |queue'|
      ensures depth'[queue'[i]] <= depth'[queue'[j]]
    {
      if j < |queue| - 1 {
        assert depth[queue[i + 1]] <= depth[queue[j + 1]];
      }
    }
  }

  /** After the direction loop every neighbour of the explored cell is known, one level deeper at most. */
  lemma StepExpanded(g: Grid, depth: map<Coord, nat>, done: seq<Coord>, queue: seq<Coord>, cur: Coord, fr: seq<Coord>)
    requires |queue| > 0 && cur == queue[0] && Layered(depth, done, queue) && InBounds(g, cur)
    requires fr == Fresh(g, cur, depth.Keys)
    requires forall c :: c in depth <==> c in done || c in queue
    requires forall i :: 0 <= i < |done| ==> Expanded(g, depth, done[i])
    ensures forall i :: 0 <= i < |done| + 1 ==> Expanded(g, Deepen(depth, fr, depth[cur] + 1), (done + [cur])[i])
  {
    var v := depth[cur] + 1;
    var depth' := Deepen(depth, fr, v);
    FreshFacts(g, cur, depth.Keys);
    forall i | 0 <= i < |done| + 1
      ensures Expanded(g, depth', (done + [cur])[i])
    {
      if i < |done| {
        var x := done[i];
        assert (done + [cur])[i] == x && Expanded(g, depth, x);
      } else {
        assert (done + [cur])[i] == cur;
        forall n | Link(g, cur, n)
          ensures n in depth' && depth'[n] <= v
        {
          if n in done {
            var m :| 0 <= m < |done| && done[m] == n;
          } else if n in queue {
            var m :| 0 <= m < |queue| && queue[m] == n;
            if m > 0 {
              assert depth[queue[m]] <= depth[queue[|queue| - 1]];
            }
          }
        }
      }
    }
  }

  /** Exploring the head of the queue and queueing its fresh neighbours keeps the loop state. */
  lemma BfsStep(g: Grid, start: Coord, end: Coord, depth: map<Coord, nat>,
                parent: map<Coord, Coord>, queue: seq<Coord>, visited: seq<Step>, cur: Coord, fr: seq<Coord>,
                depth': map<Coord, nat>, parent': map<Coord, Coord>, queue': seq<Coord>, visited': seq<Step>)
    requires BfsState(g, start, end, depth, parent, queue, visited)
    requires |queue| > 0 && cur == queue[0] && cur != end && fr == Fresh(g, cur, depth.Keys)
    requires depth' == Deepen(depth, fr, depth[cur] + 1) && parent' == Adopt(parent, fr, cur)
    requires queue' == queue[1..] + fr && visited' == visited + [Step(cur, false)]
    ensures BfsState(g, start, end, depth', parent', queue', visited')
    ensures |visited'| <= Rows(g) * Cols(g)
  {
    var v := depth[cur] + 1;
    var done := Coords(visited);
    FreshFacts(g, cur, depth.Keys);
    TreeGrow(g, start, depth, parent, cur, fr);
    ExploredStep(g, start, visited, queue, cur);
    CoordsAppend(visited, Step(cur, false));
    StepDistinct(depth, done, queue, fr, cur);
    StepPartition(depth, done, queue, fr, cur, v);
    StepLayered(depth, done, queue, fr, cur);
    StepExpanded(g, depth, done, queue, cur, fr);
    assert Coords(visited') == done + [cur];
  }

  /** `end` at the head of the queue: the exploration ends with it, and no route to it is shorter than its depth. */
  lemma BfsFound(g: Grid, start: Coord, end: Coord, depth: map<Coord, nat>, parent: map<Coord, Coord>,
                 queue: seq<Coord>, visited: seq<Step>, visited': seq<Step>)
    requires BfsState(g, start, end, depth, parent, queue, visited)
    requires |queue| > 0 && queue[0] == end && visited' == visited + [Step(end, false)]
    ensures Solved(g, start, end, depth, visited')
  {
    var done := Coords(visited);
    ExploredStep(g, start, visited, queue, end);
    CoordsAppend(visited, Step(end, false));
    assert Coords(visited')[|visited|] == end;
    var m := depth[end];
    forall x | x in Elems(done)
      ensures Expanded(g, depth, x)
    {
      var i :| 0 <= i < |done| && done[i] == x;
    }
    forall k | 0 <= k < |queue|
      ensures m <= depth[queue[k]]
    {
      assert depth[queue[0]] <= depth[queue[k]];
    }
    assert forall x :: x in depth && depth[x] < m ==> x in Elems(done);
    forall q | RouteBetween(g, q, start, end)
      ensures m + 1 <= |q|
    {
      if |q| - 1 < m {
        LayerBound(g, start, depth, Elems(done), m, q);
      }
    }
    TreeReachable(g, start, depth, parent, end);
  }

  /** An empty queue: everything reachable has been explored, and `end` is not among it. */
  lemma BfsExhausted(g: Grid, start: Coord, end: Coord, depth: map<Coord, nat>, parent: map<Coord, Coord>,
                     visited: seq<Step>)
    requires BfsState(g, start, end, depth, parent, [], visited)
    ensures Solved(g, start, end, depth, visited)
  {
    var done := Coords(visited);
    assert visited != [];
    assert done + [] == done;
    forall i | 0 <= i < |visited|
      ensures InBounds(g, visited[i].coord)
    {
      assert done[i] in depth;
    }
    DistinctCellsBound(g, done);
    forall x, n | x in depth && Link(g, x, n)
      ensures n in depth
    {
      var i :| 0 <= i < |done| && done[i] == x;
      assert Expanded(g, depth, visited[i].coord);
    }
    if Reachable(g, start, end) {
      ClosedHoldsReachable(g, start, depth.Keys, end);
    }
  }

  /**
   * One pass of the main loop: take the head `cur` of the queue, record it in
   * `visitedSteps`, stop there if it is `end`, and otherwise queue its fresh
   * neighbours behind the rest of the queue.
   */
  method Visit(g: Grid, seen: array2<bool>, prev: array2<Option<Coord>>, start: Coord, end: Coord,
               queue: seq<Coord>, visited: seq<Step>, ghost depth: map<Coord, nat>, ghost parent: map<Coord, Coord>)
    returns (cur: Coord, queue': seq<Coord>, visited': seq<Step>, stop: bool,
             ghost depth': map<Coord, nat>, ghost parent': map<Coord, Coord>)
    requires seen.Length0 == Rows(g) && seen.Length1 == Cols(g) && prev.Length0 == Rows(g) && prev.Length1 == Cols(g)
    requires SeenIs(seen, depth.Keys) && PrevIs(prev, parent)
    requires BfsState(g, start, end, depth, parent, queue, visited) && |queue| > 0
    modifies seen, prev
    ensures cur == queue[0] && visited' == visited + [Step(cur, false)]
    ensures stop <==> cur == end
    ensures stop ==> depth' == depth && parent' == parent
    ensures !stop ==> queue' == queue[1..] + Fresh(g, cur, depth.Keys)
    ensures !stop ==> parent' == Adopt(parent, Fresh(g, cur, depth.Keys), cur)
    ensures SeenIs(seen, depth'.Keys) && PrevIs(prev, parent') && Tree(g, start, depth', parent')
    ensures stop ==> Solved(g, start, end, depth', visited')
    ensures !stop ==> BfsState(g, start, end, depth', parent', queue', visited')
    ensures |visited'| == |visited| + 1 <= Rows(g) * Cols(g)
  {
    cur := queue[0];
    visited' := visited + [Step(cur, false)];
    if cur == end {
      BfsFound(g, start, end, depth, parent, queue, visited, visited');
      queue', depth', parent' := queue[1..], depth, parent;
      stop := true;
      return;
    }
    stop := false;
    queue', depth', parent' := Advance(g, seen, prev, start, end, queue, visited, cur, depth, parent);
  }

  /**
   * The rest of a pass whose head `cur` is not `end`: its fresh neighbours
   * join the back of the queue one level deeper, marked and linked back to it.
   */
  method Advance(g: Grid, seen: array2<bool>, prev: array2<Option<Coord>>, start: Coord, end: Coord,
                 queue: seq<Coord>, visited: seq<Step>, cur: Coord,
                 ghost depth: map<Coord, nat>, ghost parent: map<Coord, Coord>)
    returns (queue': seq<Coord>, ghost depth': map<Coord, nat>, ghost parent': map<Coord, Coord>)
    requires seen.Length0 == Rows(g) && seen.Length1 == Cols(g) && prev.Length0 == Rows(g) && prev.Length1 == Cols(g)
    requires SeenIs(seen, depth.Keys) && PrevIs(prev, parent)
    requires BfsState(g, start, end, depth, parent, queue, visited) && |queue| > 0 && cur == queue[0] && cur != end
    modifies seen, prev
    ensures queue' == queue[1..] + Fresh(g, cur, depth.Keys)
    ensures cur in depth && depth' == Deepen(depth, Fresh(g, cur, depth.Keys), depth[cur] + 1)
    ensures parent' == Adopt(parent, Fresh(g, cur, depth.Keys), cur)
    ensures SeenIs(seen, depth'.Keys) && PrevIs(prev, parent') && Tree(g, start, depth', parent')
    ensures BfsState(g, start, end, depth', parent', queue', visited + [Step(cur, false)])
    ensures |visited| + 1 <= Rows(g) * Cols(g)
  {
    ghost var fr := Fresh(g, cur, depth.Keys);
    queue' := Expand(g, seen, prev, cur, queue[1..], depth.Keys, parent);
    depth', parent' := Deepen(depth, fr, depth[cur] + 1), Adopt(parent, fr, cur);
    assert depth'.Keys == depth.Keys + Elems(fr);
    BfsStep(g, start, end, depth, parent, queue, visited, cur, fr, depth', parent', queue', visited + [Step(cur, false)]);
  }

  /**
   * Breadth-first search from `start` to `end`. `visitedSteps` lists cells
   * in the order they leave the queue; it holds `end` (as its last entry)
   * exactly when `end` is reachable, and then the returned path is a
   * shortest route from `start` to `end`; otherwise the path is `[end]`.
   */
  method Bfs(g: Grid, start: Coord, end: Coord) returns (visited: seq<Step>, path: seq<Step>)
    requires Wf(g) && InBounds(g, start) && InBounds(g, end)
    ensures Explored(g, start, visited)
    ensures end in Coords(visited) <==> Reachable(g, start, end)
    ensures end in Coords(visited) ==> visited[|visited| - 1].coord == end
    ensures AllTagged(path, true)
    ensures Reachable(g, start, end) ==> Shortest(g, path, start, end)
    ensures Reachable(g, start, end) ==> forall i :: 0 <= i < |path| ==> path[i].coord in Coords(visited)
    ensures !Reachable(g, start, end) ==> path == [Step(end, true)]
  {
    var prev;
    ghost var depth, parent;
    visited, prev, depth, parent := Explore(g, start, end);
    path := TracePath(prev, start, end, g, depth, parent, Elems(Coords(visited)));
    SolvedAnswer(g, start, end, depth, visited, path);
  }

  /** The main loop of `Bfs`: runs `Visit` until the queue empties or `end` is taken from it. */
  method Explore(g: Grid, start: Coord, end: Coord)
    returns (visited: seq<Step>, prev: array2<Option<Coord>>, ghost depth: map<Coord, nat>, ghost parent: map<Coord, Coord>)
    requires Wf(g) && InBounds(g, start) && InBounds(g, end)
    ensures prev.Length0 == Rows(g) && prev.Length1 == Cols(g) && PrevIs(prev, parent)
    ensures Tree(g, start, depth, parent) && Solved(g, start, end, depth, visited)
    ensures LinksExplored(parent, visited)
  {
    var rows, cols := |g|, |g[0]|;
    var seen := NewSeen(rows, cols);
    prev := NewPrev(rows, cols);
    MarkSeen(seen, start, {});
    var queue := [start];
    visited := [];
    depth, parent := map[start := 0], map[];
    var stop := false;
    BfsInit(g, start, end);
    while |queue| > 0
      invariant seen.Length0 == rows && seen.Length1 == cols && prev.Length0 == rows && prev.Length1 == cols
      invariant SeenIs(seen, depth.Keys) && PrevIs(prev, parent)
      invariant BfsState(g, start, end, depth, parent, queue, visited)
      invariant LinksExplored(parent, visited)
      invariant !stop
      decreases rows * cols - |visited|
    {
      ghost var depth0, parent0, visited0 := depth, parent, visited;
      var cur;
      cur, queue, visited, stop, depth, parent := Visit(g, seen, prev, start, end, queue, visited, depth, parent);
      LinksExploredStep(parent0, visited0, Fresh(g, cur, depth0.Keys), cur);
      if stop {
        break;
      }
    }
    if !stop {
      BfsExhausted(g, start, end, depth, parent, visited);
    }
  }
}
