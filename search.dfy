/**
 * What the breadth-first, depth-first and A* solvers share: their table of
 * neighbour directions, the discovery of fresh neighbours, the `prev` /
 * `cameFrom` tree they record, and the walk back along that tree that turns
 * it into a path.
 */
module Search {
  import opened Maze

  /** The solvers' neighbour table, in their order: top, bottom, left, right. */
  const SearchOrder: seq<Dir> := [Top, Bottom, Left, Right]

  lemma MoveInjective(c: Coord, d: Dir, e: Dir)
    ensures Move(c, d) == Move(c, e) ==> d == e
  {
  }

  lemma SearchOrderFacts()
    ensures |SearchOrder| == 4 && Distinct(SearchOrder)
    ensures forall d :: d in SearchOrder
  {
    assert SearchOrder[0] == Top && SearchOrder[1] == Bottom && SearchOrder[2] == Left && SearchOrder[3] == Right;
    forall d
      ensures d in SearchOrder
    {
      assert d == SearchOrder[0] || d == SearchOrder[1] || d == SearchOrder[2] || d == SearchOrder[3];
    }
  }

  /**
   * The neighbours of `cur` a solver discovers when it scans the directions
   * `ds` in order: in bounds, behind a side of `cur` without a wall, and not
   * in `known`.
   */
  function FreshFrom(g: Grid, cur: Coord, known: set<Coord>, ds: seq<Dir>): (ns: seq<Coord>)
    ensures |ns| <= |ds|
    decreases |ds|
  {
    if ds == [] then []
    else
      var d := ds[|ds| - 1];
      FreshFrom(g, cur, known, ds[..|ds| - 1]) +
        (if Passable(g, cur, d) && Move(cur, d) !in known then [Move(cur, d)] else [])
  }

  /** The neighbours discovered from `cur` with the solvers' table. */
  function Fresh(g: Grid, cur: Coord, known: set<Coord>): seq<Coord>
  {
    FreshFrom(g, cur, known, SearchOrder)
  }

  /** A discovered neighbour is one legal move away, was not known, and lies behind one of `ds`. */
  lemma {:induction false} FreshFromSound(g: Grid, cur: Coord, known: set<Coord>, ds: seq<Dir>)
    ensures forall n :: n in FreshFrom(g, cur, known, ds) ==>
      n !in known && Link(g, cur, n) && InBounds(g, n) && exists k :: 0 <= k < |ds| && n == Move(cur, ds[k])
    decreases |ds|
  {
    if ds != [] {
      var d, front := ds[|ds| - 1], ds[..|ds| - 1];
      FreshFromSound(g, cur, known, front);
      var ns := FreshFrom(g, cur, known, front);
      forall n | n in FreshFrom(g, cur, known, ds)
        ensures n !in known && Link(g, cur, n) && InBounds(g, n) && exists k :: 0 <= k < |ds| && n == Move(cur, ds[k])
      {
        if n in ns {
          var k :| 0 <= k < |front| && n == Move(cur, front[k]);
          assert ds[k] == front[k];
        } else {
          assert n == Move(cur, ds[|ds| - 1]);
          LinkIff(g, cur, d);
        }
      }
    }
  }

  /** Every legal move behind one of `ds` to a cell that is not known is discovered. */
  lemma {:induction false} FreshFromComplete(g: Grid, cur: Coord, known: set<Coord>, ds: seq<Dir>)
    ensures forall k :: 0 <= k < |ds| && Passable(g, cur, ds[k]) && Move(cur, ds[k]) !in known ==>
      Move(cur, ds[k]) in FreshFrom(g, cur, known, ds)
    decreases |ds|
  {
    if ds != [] {
      var d, front := ds[|ds| - 1], ds[..|ds| - 1];
      FreshFromComplete(g, cur, known, front);
      var ns := FreshFrom(g, cur, known, front);
      var last := if Passable(g, cur, d) && Move(cur, d) !in known then [Move(cur, d)] else [];
      assert FreshFrom(g, cur, known, ds) == ns + last;
      forall k | 0 <= k < |ds| && Passable(g, cur, ds[k]) && Move(cur, ds[k]) !in known
        ensures Move(cur, ds[k]) in ns + last
      {
        if k < |front| {
          assert ds[k] == front[k];
          assert Move(cur, ds[k]) in ns;
        } else {
          assert last == [Move(cur, ds[k])];
        }
      }
    }
  }

  /** Scanning distinct directions discovers nothing twice. */
  lemma {:induction false} FreshFromDistinct(g: Grid, cur: Coord, known: set<Coord>, ds: seq<Dir>)
    requires Distinct(ds)
    ensures Distinct(FreshFrom(g, cur, known, ds))
    decreases |ds|
  {
    if ds != [] {
      var d, front := ds[|ds| - 1], ds[..|ds| - 1];
      assert Distinct(front);
      FreshFromDistinct(g, cur, known, front);
      FreshFromSound(g, cur, known, front);
      var ns := FreshFrom(g, cur, known, front);
      if Passable(g, cur, d) && Move(cur, d) !in known {
        forall n | n in ns
          ensures n != Move(cur, d)
        {
          var k :| 0 <= k < |front| && n == Move(cur, front[k]);
          MoveInjective(cur, front[k], d);
          assert front[k] == ds[k] != ds[|ds| - 1];
        }
      }
    }
  }

  /**
   * The neighbours discovered from `cur` are exactly its unknown neighbours
   * one legal move away, each once.
   */
  lemma FreshFacts(g: Grid, cur: Coord, known: set<Coord>)
    ensures forall n :: n in Fresh(g, cur, known) ==> n !in known && Link(g, cur, n) && InBounds(g, n)
    ensures forall n :: Link(g, cur, n) && n !in known ==> n in Fresh(g, cur, known)
    ensures Distinct(Fresh(g, cur, known))
  {
    SearchOrderFacts();
    FreshFromSound(g, cur, known, SearchOrder);
    FreshFromComplete(g, cur, known, SearchOrder);
    FreshFromDistinct(g, cur, known, SearchOrder);
    forall n | Link(g, cur, n) && n !in known
      ensures n in Fresh(g, cur, known)
    {
      var d :| Passable(g, cur, d) && n == Move(cur, d);
      var k := if d == Top then 0 else if d == Bottom then 1 else if d == Left then 2 else 3;
      assert SearchOrder[k] == d;
    }
  }

  /** Appending distinct cells that are not yet known to a list of known cells keeps it free of repeats. */
  lemma AppendFreshDistinct(s: seq<Coord>, fr: seq<Coord>, depth: map<Coord, nat>)
    requires Distinct(s) && Distinct(fr)
    requires forall c :: c in s ==> c in depth
    requires forall n :: n in fr ==> n !in depth
    ensures Distinct(s + fr)
  {
    var t := s + fr;
    forall i, j | 0 <= i < j < |t|
      ensures t[i] != t[j]
    {
      if j >= |s| {
        assert t[j] == fr[j - |s|];
        if i < |s| {
          assert t[i] == s[i] && s[i] in s;
        } else {
          assert t[i] == fr[i - |s|];
        }
      }
    }
  }

  /** The `visited` array marks exactly the cells of `known`. */
  ghost predicate SeenIs(seen: array2<bool>, known: set<Coord>)
    reads seen
  {
    forall r, c :: 0 <= r < seen.Length0 && 0 <= c < seen.Length1 ==> (seen[r, c] <==> Coord(r, c) in known)
  }

  /** The `prev` array holds exactly the links of `parent`, and `null` elsewhere. */
  ghost predicate PrevIs(prev: array2<Option<Coord>>, parent: map<Coord, Coord>)
    reads prev
  {
    forall r, c :: 0 <= r < prev.Length0 && 0 <= c < prev.Length1 ==>
      prev[r, c] == if Coord(r, c) in parent then Some(parent[Coord(r, c)]) else None
  }

  /** `a < b` on distances, where `None` stands for `Infinity`. */
  predicate Less(a: Option<nat>, b: Option<nat>)
  {
    a.Some? && (b.None? || a.value < b.value)
  }

  /** A fresh `visited` matrix with no cell marked. */
  method NewSeen(rows: nat, cols: nat) returns (seen: array2<bool>)
    ensures fresh(seen) && seen.Length0 == rows && seen.Length1 == cols && SeenIs(seen, {})
  {
    seen := new bool[rows, cols]((r, c) => false);
  }

  /** Sets the flag of `c`, adding it to the marked cells. */
  method MarkSeen(seen: array2<bool>, c: Coord, ghost known: set<Coord>)
    requires 0 <= c.row < seen.Length0 && 0 <= c.col < seen.Length1
    requires SeenIs(seen, known)
    modifies seen
    ensures SeenIs(seen, known + {c})
  {
    seen[c.row, c.col] := true;
  }

  /** A fresh `prev` matrix holding `null` everywhere. */
  method NewPrev(rows: nat, cols: nat) returns (prev: array2<Option<Coord>>)
    ensures fresh(prev) && prev.Length0 == rows && prev.Length1 == cols && PrevIs(prev, map[])
  {
    prev := new Option<Coord>[rows, cols]((r, c) => None);
  }

  /** The cells of `s`. */
  function Elems(s: seq<Coord>): set<Coord>
  {
    set x | x in s
  }

  /** `parent` with every cell of `ns` linked back to `p`. */
  ghost function Adopt(parent: map<Coord, Coord>, ns: seq<Coord>, p: Coord): (m: map<Coord, Coord>)
    ensures forall c :: c in m <==> c in parent || c in ns
    ensures forall c :: c in m ==> m[c] == if c in ns then p else parent[c]
  {
    parent + map n | n in ns :: p
  }

  /** Scanning one more direction appends at most its neighbour, which no earlier direction produced. */
  lemma FreshStep(g: Grid, cur: Coord, known: set<Coord>, k: nat)
    requires k < 4
    ensures FreshFrom(g, cur, known, SearchOrder[..k + 1]) ==
      FreshFrom(g, cur, known, SearchOrder[..k]) +
        (if Passable(g, cur, SearchOrder[k]) && Move(cur, SearchOrder[k]) !in known
         then [Move(cur, SearchOrder[k])] else [])
    ensures Move(cur, SearchOrder[k]) !in FreshFrom(g, cur, known, SearchOrder[..k])
  {
    SearchOrderFacts();
    assert SearchOrder[..k + 1][..k] == SearchOrder[..k];
    var before := FreshFrom(g, cur, known, SearchOrder[..k]);
    FreshFromSound(g, cur, known, SearchOrder[..k]);
    forall m | m in before
      ensures m != Move(cur, SearchOrder[k])
    {
      var j :| 0 <= j < k && m == Move(cur, SearchOrder[..k][j]);
      MoveInjective(cur, SearchOrder[j], SearchOrder[k]);
    }
  }

  lemma AppendAssoc<T>(a: seq<T>, b: seq<T>, x: T)
    ensures (a + b) + [x] == a + (b + [x])
  {
  }

  lemma GrowOne(known: set<Coord>, parent: map<Coord, Coord>, fr: seq<Coord>, n: Coord, p: Coord)
    ensures (known + Elems(fr)) + {n} == known + Elems(fr + [n])
    ensures Adopt(parent, fr, p)[n := p] == Adopt(parent, fr + [n], p)
  {
  }

  /** Marks `n` as seen with `p` as its `prev`. */
  method Mark(seen: array2<bool>, prev: array2<Option<Coord>>, n: Coord, p: Coord,
              ghost known: set<Coord>, ghost parent: map<Coord, Coord>)
    requires 0 <= n.row < seen.Length0 && 0 <= n.col < seen.Length1
    requires 0 <= n.row < prev.Length0 && 0 <= n.col < prev.Length1
    requires SeenIs(seen, known) && PrevIs(prev, parent)
    modifies seen, prev
    ensures SeenIs(seen, known + {n}) && PrevIs(prev, parent[n := p])
  {
    seen[n.row, n.col] := true;
    prev[n.row, n.col] := Some(p);
  }

  /** One pass of the direction loop: the neighbour behind `SearchOrder[k]`, if fresh, is queued and marked. */
  method TryDirection(g: Grid, seen: array2<bool>, prev: array2<Option<Coord>>, cur: Coord, k: nat,
                      ghost pending: seq<Coord>, grown: seq<Coord>,
                      ghost fr: seq<Coord>, ghost known: set<Coord>, ghost parent: map<Coord, Coord>)
    returns (grown': seq<Coord>, ghost fr': seq<Coord>)
    requires Wf(g) && InBounds(g, cur) && k < 4
    requires seen.Length0 == Rows(g) && seen.Length1 == Cols(g)
    requires prev.Length0 == Rows(g) && prev.Length1 == Cols(g)
    requires fr == FreshFrom(g, cur, known, SearchOrder[..k]) && grown == pending + fr
    requires SeenIs(seen, known + Elems(fr)) && PrevIs(prev, Adopt(parent, fr, cur))
    modifies seen, prev
    ensures fr' == FreshFrom(g, cur, known, SearchOrder[..k + 1]) && grown' == pending + fr'
    ensures SeenIs(seen, known + Elems(fr')) && PrevIs(prev, Adopt(parent, fr', cur))
  {
    var d := SearchOrder[k];
    var n := Move(cur, d);
    FreshStep(g, cur, known, k);
    grown', fr' := grown, fr;
    if 0 <= n.row < |g| && 0 <= n.col < |g[0]| && !g[cur.row][cur.col].walls.Has(d) && !seen[n.row, n.col] {
      assert Passable(g, cur, d);
      assert n !in known + Elems(fr);
      Mark(seen, prev, n, cur, known + Elems(fr), Adopt(parent, fr, cur));
      GrowOne(known, parent, fr, n, cur);
      AppendAssoc(pending, fr, n);
      grown' := grown + [n];
      fr' := fr + [n];
    } else {
      assert !(Passable(g, cur, d) && n !in known);
    }
  }

  /**
   * The direction loop of BFS and DFS: every neighbour of `cur` that is in
   * bounds, behind a side without a wall, and not yet marked is appended to
   * `pending`, marked, and given `cur` as its `prev`.
   */
  method Expand(g: Grid, seen: array2<bool>, prev: array2<Option<Coord>>, cur: Coord, pending: seq<Coord>,
                ghost known: set<Coord>, ghost parent: map<Coord, Coord>)
    returns (grown: seq<Coord>)
    requires Wf(g) && InBounds(g, cur)
    requires seen.Length0 == Rows(g) && seen.Length1 == Cols(g)
    requires prev.Length0 == Rows(g) && prev.Length1 == Cols(g)
    requires SeenIs(seen, known) && PrevIs(prev, parent)
    modifies seen, prev
    ensures grown == pending + Fresh(g, cur, known)
    ensures SeenIs(seen, known + Elems(Fresh(g, cur, known)))
    ensures PrevIs(prev, Adopt(parent, Fresh(g, cur, known), cur))
  {
    grown := pending;
    ghost var fr: seq<Coord> := [];
    assert SearchOrder[..0] == [];
    assert known + Elems(fr) == known;
    assert Adopt(parent, fr, cur) == parent;
    for k := 0 to 4
      invariant fr == FreshFrom(g, cur, known, SearchOrder[..k])
      invariant grown == pending + fr
      invariant SeenIs(seen, known + Elems(fr))
      invariant PrevIs(prev, Adopt(parent, fr, cur))
    {
      grown, fr := TryDirection(g, seen, prev, cur, k, pending, grown, fr, known, parent);
    }
    assert SearchOrder[..4] == SearchOrder;
  }

  /**
   * `depth` with every cell of `ns` placed at level `v`. It has the shape of
   * `Adopt` but stands for the other matrix a turn writes (`dist` rather than
   * `prev`), and the two are kept apart so that each invariant names the
   * matrix it describes.
   */
  ghost function Deepen(depth: map<Coord, nat>, ns: seq<Coord>, v: nat): (m: map<Coord, nat>)
    ensures forall c :: c in m <==> c in depth || c in ns
    ensures forall c :: c in m ==> m[c] == if c in ns then v else depth[c]
  {
    depth + map n | n in ns :: v
  }

  /**
   * The tree recorded in `prev` / `cameFrom`: `start` at depth 0 with no
   * parent, every other cell of `depth` with a parent one legal move before
   * it and exactly one level shallower.
   */
  ghost predicate Tree(g: Grid, start: Coord, depth: map<Coord, nat>, parent: map<Coord, Coord>)
  {
    Wf(g) && start in depth && depth[start] == 0 && start !in parent &&
    (forall c :: c in depth ==> InBounds(g, c)) &&
    (forall c :: c in depth && c != start ==> c in parent) &&
    (forall c {:trigger parent[c]} :: c in parent ==>
      c in depth && parent[c] in depth && Link(g, parent[c], c) && depth[c] == depth[parent[c]] + 1)
  }

  /** Hanging fresh cells one move from a known `cur` under it keeps the tree. */
  lemma TreeGrow(g: Grid, start: Coord, depth: map<Coord, nat>, parent: map<Coord, Coord>,
                 cur: Coord, fr: seq<Coord>)
    requires Tree(g, start, depth, parent) && cur in depth
    requires forall n :: n in fr ==> n !in depth && Link(g, cur, n) && InBounds(g, n)
    ensures Tree(g, start, Deepen(depth, fr, depth[cur] + 1), Adopt(parent, fr, cur))
  {
  }

  /** Walking the parent links back from `c` gives a route from the root with one cell per level. */
  lemma {:induction false} TreeRoute(g: Grid, start: Coord, depth: map<Coord, nat>, parent: map<Coord, Coord>,
                                     c: Coord) returns (q: seq<Coord>)
    requires Tree(g, start, depth, parent) && c in depth
    ensures RouteBetween(g, q, start, c) && |q| == depth[c] + 1
    decreases depth[c]
  {
    if c == start {
      q := [start];
    } else {
      var p := parent[c];
      var front := TreeRoute(g, start, depth, parent, p);
      RouteExtend(g, front, c);
      q := front + [c];
    }
  }

  /** Every cell of the tree is reachable from its root. */
  lemma TreeReachable(g: Grid, start: Coord, depth: map<Coord, nat>, parent: map<Coord, Coord>, c: Coord)
    requires Tree(g, start, depth, parent) && c in depth
    ensures Reachable(g, start, c)
  {
    var q := TreeRoute(g, start, depth, parent, c);
  }

  /**
   * What every solver's `visitedSteps` is: it opens with `start`, is tagged
   * as explored, stays in the grid and never repeats a cell, so it has at
   * most `rows * cols` entries.
   */
  ghost predicate Explored(g: Grid, start: Coord, visited: seq<Step>)
  {
    |visited| > 0 && visited[0].coord == start && AllTagged(visited, false) &&
    Distinct(Coords(visited)) && (forall i :: 0 <= i < |visited| ==> InBounds(g, visited[i].coord)) &&
    |visited| <= Rows(g) * Cols(g)
  }

  /** `path` is a route from `start` to `end` no longer than any other. */
  ghost predicate Shortest(g: Grid, path: seq<Step>, start: Coord, end: Coord)
  {
    RouteBetween(g, Coords(path), start, end) &&
    forall q :: RouteBetween(g, q, start, end) ==> |path| <= |q|
  }

  /**
   * What a shortest-path solver has established once it stops: `visitedSteps`
   * is a proper exploration, it contains `end` exactly when `end` is
   * reachable and then ends with it, and the score of a reachable `end` is
   * its distance.
   */
  ghost predicate Solved(g: Grid, start: Coord, end: Coord, depth: map<Coord, nat>, visited: seq<Step>)
  {
    Explored(g, start, visited) &&
    (end in Coords(visited) <==> Reachable(g, start, end)) &&
    (end in Coords(visited) ==> visited[|visited| - 1].coord == end) &&
    (Reachable(g, start, end) ==> end in depth && forall q :: RouteBetween(g, q, start, end) ==> depth[end] + 1 <= |q|) &&
    (!Reachable(g, start, end) ==> end !in depth)
  }

  /**
   * A solved exploration together with the walk back through the tree
   * gives the solver's answer: a shortest route when `end` is reachable,
   * and `[end]` alone when it is not.
   */
  lemma SolvedAnswer(g: Grid, start: Coord, end: Coord, depth: map<Coord, nat>, visited: seq<Step>, path: seq<Step>)
    requires Solved(g, start, end, depth, visited)
    requires end !in depth ==> path == [Step(end, true)]
    requires end in depth ==> RouteBetween(g, Coords(path), start, end) && |path| == depth[end] + 1
    ensures Reachable(g, start, end) ==> Shortest(g, path, start, end)
    ensures !Reachable(g, start, end) ==> path == [Step(end, true)]
  {
  }

  /** How far the walk back from `curr` still has to go. */
  ghost function Rank(curr: Option<Coord>, depth: map<Coord, nat>): nat
  {
    match curr
    case None => 0
    case Some(c) => if c in depth then depth[c] + 2 else 1
  }

  lemma CoordsAppend(ss: seq<Step>, s: Step)
    ensures Coords(ss + [s]) == Coords(ss) + [s.coord]
  {
  }

  lemma {:induction false} ReverseAppend<T>(s: seq<T>, x: T)
    ensures Reverse(s + [x]) == [x] + Reverse(s)
    decreases |s|
  {
    if s == [] {
      assert s + [x] == [x];
    } else {
      assert (s + [x])[1..] == s[1..] + [x];
      ReverseAppend(s[1..], x);
    }
  }

  lemma CoordsReverse(ss: seq<Step>)
    ensures Coords(Reverse(ss)) == Reverse(Coords(ss))
  {
    ReverseIndex(ss);
    ReverseIndex(Coords(ss));
  }

  lemma ReverseTagged(ss: seq<Step>, isPath: bool)
    requires AllTagged(ss, isPath)
    ensures AllTagged(Reverse(ss), isPath)
  {
    ReverseIndex(ss);
  }

  /**
   * The state of the walk back from `end`: `back` holds the cells walked so
   * far, newest last, and `curr` the next one. Read backwards, the walk
   * followed by `curr` is a route into `end`, as long as the depth still to go
   * allows.
   */
  ghost predicate Walked(g: Grid, start: Coord, end: Coord, depth: map<Coord, nat>, parent: map<Coord, Coord>,
                         back: seq<Step>, curr: Option<Coord>)
  {
    AllTagged(back, true) &&
    (curr.Some? ==> InBounds(g, curr.value)) &&
    (curr.None? ==> end !in depth && back == [Step(end, true)]) &&
    (curr.Some? && curr.value !in depth ==> curr.value == end && back == []) &&
    (curr.Some? && curr.value in depth ==>
      end in depth && |back| + depth[curr.value] == depth[end] &&
      (back == [] ==> curr.value == end) && (back != [] ==> back[0].coord == end) &&
      IsRoute(g, [curr.value] + Reverse(Coords(back))))
  }

  /** One step back along `parent` keeps the walk consistent and brings it closer to its end. */
  lemma WalkStep(g: Grid, start: Coord, end: Coord, depth: map<Coord, nat>, parent: map<Coord, Coord>,
                 back: seq<Step>, c: Coord)
    requires Tree(g, start, depth, parent) && Walked(g, start, end, depth, parent, back, Some(c)) && c != start
    ensures var next := if c in parent then Some(parent[c]) else None;
      Walked(g, start, end, depth, parent, back + [Step(c, true)], next) &&
      Rank(next, depth) < Rank(Some(c), depth)
  {
    var back' := back + [Step(c, true)];
    var route := [c] + Reverse(Coords(back));
    CoordsAppend(back, Step(c, true));
    ReverseAppend(Coords(back), c);
    assert Reverse(Coords(back')) == route;
    if c in parent {
      var p := parent[c];
      assert [p] + Reverse(Coords(back')) == [p] + route;
      ReachablePrefix(g, p, route);
    }
  }

  /** What is left when the walk stops, read forwards. */
  ghost function Finished(back: seq<Step>, curr: Option<Coord>): seq<Step>
  {
    Reverse(if curr.Some? then back + [Step(curr.value, true)] else back)
  }

  /** A walk that stopped at `start` read forwards is a route; one that stopped at a missing link is `[end]`. */
  lemma WalkEnd(g: Grid, start: Coord, end: Coord, depth: map<Coord, nat>, parent: map<Coord, Coord>,
                back: seq<Step>, curr: Option<Coord>)
    requires Tree(g, start, depth, parent) && InBounds(g, end) && Walked(g, start, end, depth, parent, back, curr)
    requires !(curr.Some? && curr.value != start)
    ensures AllTagged(Finished(back, curr), true)
    ensures end !in depth ==> Finished(back, curr) == [Step(end, true)]
    ensures end in depth ==>
      RouteBetween(g, Coords(Finished(back, curr)), start, end) && |Finished(back, curr)| == depth[end] + 1
  {
    var full := if curr.Some? then back + [Step(curr.value, true)] else back;
    if curr.Some? {
      CoordsAppend(back, Step(start, true));
      ReverseAppend(Coords(back), start);
      ReverseIndex(Coords(back));
    }
    CoordsReverse(full);
    ReverseTagged(full, true);
  }

  /**
   * The reconstruction shared by BFS, DFS and A*: walk `prev` back from `end`
   * until `start` or a missing link, then reverse. Reached cells give a route
   * from `start` to `end` one longer than the depth of `end`; any other `end`
   * gives the single step `[end]`.
   */
  method TracePath(prev: array2<Option<Coord>>, start: Coord, end: Coord,
                   ghost g: Grid, ghost depth: map<Coord, nat>, ghost parent: map<Coord, Coord>,
                   ghost known: set<Coord>)
    returns (path: seq<Step>)
    requires Tree(g, start, depth, parent) && InBounds(g, end)
    requires prev.Length0 == Rows(g) && prev.Length1 == Cols(g) && PrevIs(prev, parent)
    requires LinksWithin(parent, known)
    ensures AllTagged(path, true)
    ensures end !in depth ==> path == [Step(end, true)]
    ensures end in depth ==> RouteBetween(g, Coords(path), start, end) && |path| == depth[end] + 1
    ensures forall i :: 0 <= i < |path| ==> path[i].coord == end || path[i].coord in known
  {
    var back, curr := WalkBack(prev, start, end, g, depth, parent, known);
    WalkEnd(g, start, end, depth, parent, back, curr);
    WithinEnd(end, known, back, curr);
    if curr.Some? {
      back := back + [Step(curr.value, true)];
    }
    path := Reverse(back);
  }

  /**
   * The loop of the reconstruction: from `end`, push each cell and follow its
   * `prev` link, until `start` or a cell without one.
   */
  method WalkBack(prev: array2<Option<Coord>>, start: Coord, end: Coord,
                  ghost g: Grid, ghost depth: map<Coord, nat>, ghost parent: map<Coord, Coord>,
                  ghost known: set<Coord>)
    returns (back: seq<Step>, curr: Option<Coord>)
    requires Tree(g, start, depth, parent) && InBounds(g, end)
    requires prev.Length0 == Rows(g) && prev.Length1 == Cols(g) && PrevIs(prev, parent)
    requires LinksWithin(parent, known)
    ensures Walked(g, start, end, depth, parent, back, curr) && Within(end, known, back, curr)
    ensures !(curr.Some? && curr.value != start)
  {
    back := [];
    curr := Some(end);
    while curr.Some? && curr.value != start
      invariant Walked(g, start, end, depth, parent, back, curr)
      invariant Within(end, known, back, curr)
      decreases Rank(curr, depth)
    {
      var c := curr.value;
      BackStep(g, start, end, depth, parent, known, back, c);
      back := back + [Step(c, true)];
      curr := prev[c.row, c.col];
    }
  }

  /** One step of `WalkBack` keeps both of its invariants and brings it closer to `start`. */
  lemma BackStep(g: Grid, start: Coord, end: Coord, depth: map<Coord, nat>, parent: map<Coord, Coord>,
                 known: set<Coord>, back: seq<Step>, c: Coord)
    requires Tree(g, start, depth, parent) && Walked(g, start, end, depth, parent, back, Some(c)) && c != start
    requires LinksWithin(parent, known) && Within(end, known, back, Some(c))
    ensures var next := if c in parent then Some(parent[c]) else None;
      Walked(g, start, end, depth, parent, back + [Step(c, true)], next) &&
      Within(end, known, back + [Step(c, true)], next) &&
      Rank(next, depth) < Rank(Some(c), depth)
  {
    WalkStep(g, start, end, depth, parent, back, c);
    WithinStep(end, parent, known, back, c);
  }

  /** Every `prev` link points into `known`. */
  ghost predicate LinksWithin(parent: map<Coord, Coord>, known: set<Coord>)
  {
    forall c :: c in parent ==> parent[c] in known
  }

  /** Every cell of the walk back so far, and the next one, is `end` or in `known`. */
  ghost predicate Within(end: Coord, known: set<Coord>, back: seq<Step>, curr: Option<Coord>)
  {
    AllWithin(end, known, back) && (curr.Some? ==> curr.value == end || curr.value in known)
  }

  /** Every cell of `s` is `end` or in `known`, checked from the last one down. */
  ghost predicate AllWithin(end: Coord, known: set<Coord>, s: seq<Step>)
  {
    |s| > 0 ==> AllWithin(end, known, s[..|s| - 1]) && (s[|s| - 1].coord == end || s[|s| - 1].coord in known)
  }

  lemma WithinStep(end: Coord, parent: map<Coord, Coord>, known: set<Coord>, back: seq<Step>, c: Coord)
    requires LinksWithin(parent, known) && Within(end, known, back, Some(c))
    ensures Within(end, known, back + [Step(c, true)], if c in parent then Some(parent[c]) else None)
  {
    assert (back + [Step(c, true)])[..|back|] == back;
  }

  lemma {:induction false} AllWithinIndex(end: Coord, known: set<Coord>, s: seq<Step>)
    requires AllWithin(end, known, s)
    ensures forall i :: 0 <= i < |s| ==> s[i].coord == end || s[i].coord in known
  {
    if |s| > 0 {
      AllWithinIndex(end, known, s[..|s| - 1]);
    }
  }

  lemma WithinEnd(end: Coord, known: set<Coord>, back: seq<Step>, curr: Option<Coord>)
    requires Within(end, known, back, curr)
    ensures forall i :: 0 <= i < |Finished(back, curr)| ==>
      Finished(back, curr)[i].coord == end || Finished(back, curr)[i].coord in known
  {
    AllWithinIndex(end, known, back);
    var full := if curr.Some? then back + [Step(curr.value, true)] else back;
    ReverseIndex(full);
  }

  /** Every `prev` link points at a cell already in the visited trace. */
  ghost predicate LinksExplored(parent: map<Coord, Coord>, visited: seq<Step>)
  {
    LinksWithin(parent, Elems(Coords(visited)))
  }

  /**
   * Exploring `cur` and linking cells back to it keeps every link pointing
   * at an explored cell.
   */
  lemma LinksExploredStep(parent: map<Coord, Coord>, visited: seq<Step>, fr: seq<Coord>, cur: Coord)
    requires LinksExplored(parent, visited)
    ensures LinksExplored(parent, visited + [Step(cur, false)])
    ensures LinksExplored(Adopt(parent, fr, cur), visited + [Step(cur, false)])
  {
    CoordsAppend(visited, Step(cur, false));
  }

  /** A route with one more cell before its first cell. */
  lemma ReachablePrefix(g: Grid, p: Coord, route: seq<Coord>)
    requires IsRoute(g, route) && Link(g, p, route[0])
    ensures IsRoute(g, [p] + route)
  {
    var q := [p] + route;
    forall i | 0 <= i < |q| - 1
      ensures Link(g, q[i], q[i + 1])
    {
      if i > 0 {
        assert q[i] == route[i - 1] && q[i + 1] == route[i];
      }
    }
  }

  /** `x` is known, and every neighbour of `x` is known at most one level deeper. */
  ghost predicate Expanded(g: Grid, depth: map<Coord, nat>, x: Coord)
  {
    x in depth && forall n :: Link(g, x, n) ==> n in depth && depth[n] <= depth[x] + 1
  }

  /**
   * Breadth-first layering: if `start` is at depth 0, every cell of `done`
   * has had its neighbours recorded at most one level deeper, and every cell
   * shallower than `m` is in `done`, then a route from `start` of at most `m`
   * moves ends at a recorded cell no deeper than the route is long.
   */
  lemma {:induction false} LayerBound(g: Grid, start: Coord, depth: map<Coord, nat>, done: set<Coord>,
                                      m: nat, q: seq<Coord>)
    requires start in depth && depth[start] == 0
    requires forall x :: x in done ==> Expanded(g, depth, x)
    requires forall x :: x in depth && depth[x] < m ==> x in done
    requires IsRoute(g, q) && q[0] == start && |q| - 1 <= m
    ensures q[|q| - 1] in depth && depth[q[|q| - 1]] <= |q| - 1
    decreases |q|
  {
    if |q| > 1 {
      var front := q[..|q| - 1];
      assert IsRoute(g, front) by {
        forall i | 0 <= i < |front| - 1
          ensures Link(g, front[i], front[i + 1])
        {
          assert front[i] == q[i] && front[i + 1] == q[i + 1];
        }
      }
      LayerBound(g, start, depth, done, m, front);
      var x := q[|q| - 2];
      assert front[|front| - 1] == x;
      assert Link(g, x, q[|q| - 1]);
    }
  }

  /** A set holding `start` that no legal move leaves holds every cell reachable from `start`. */
  lemma ClosedHoldsReachable(g: Grid, start: Coord, s: set<Coord>, target: Coord)
    requires start in s
    requires forall x, n :: x in s && Link(g, x, n) ==> n in s
    requires Reachable(g, start, target)
    ensures target in s
  {
    var p :| RouteBetween(g, p, start, target);
    ClosedHoldsRoute(g, s, p);
  }

  lemma {:induction false} ClosedHoldsRoute(g: Grid, s: set<Coord>, p: seq<Coord>)
    requires IsRoute(g, p) && p[0] in s
    requires forall x, n :: x in s && Link(g, x, n) ==> n in s
    ensures forall i :: 0 <= i < |p| ==> p[i] in s
    decreases |p|
  {
    if |p| > 1 {
      var front := p[..|p| - 1];
      assert IsRoute(g, front) by {
        forall i | 0 <= i < |front| - 1
          ensures Link(g, front[i], front[i + 1])
        {
          assert front[i] == p[i] && front[i + 1] == p[i + 1];
        }
      }
      ClosedHoldsRoute(g, s, front);
      assert p[|p| - 2] == front[|front| - 1];
      assert Link(g, p[|p| - 2], p[|p| - 1]);
      forall i | 0 <= i < |p|
        ensures p[i] in s
      {
        if i < |p| - 1 {
          assert p[i] == front[i];
        }
      }
    }
  }
}
