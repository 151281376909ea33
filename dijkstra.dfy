/**
 * Dijkstra's solver: a queue of `{coord, dist}` entries sorted by distance
 * before every pop, a `dist` matrix (`Infinity` is `None`), a `prev` matrix,
 * an `inQueue` matrix, and a stop as soon as `end` is popped. With unit
 * edge weights every relaxation that succeeds discovers a new cell, so the
 * queue evolves exactly like the breadth-first queue and the proof reuses
 * its invariant.
 */
module Dijkstra {
  import opened Maze
  import opened Search
  import opened Bfs

  /** A queue entry: a cell and the distance it was queued with. */
  datatype Entry = Entry(coord: Coord, dist: nat)

  /**
   * The cells of a queue, in queue order: the counterpart of `Coords` for
   * `{coord, dist}` entries rather than steps, so that the breadth-first
   * invariant over cells applies to this queue.
   */
  function Cells(q: seq<Entry>): (cs: seq<Coord>)
    ensures |cs| == |q|
    ensures forall i :: 0 <= i < |q| ==> cs[i] == q[i].coord
  {
    seq(|q|, i requires 0 <= i < |q| => q[i].coord)
  }

  /** The entries queued for the cells `ns`, all at distance `v`. */
  function Tagged(ns: seq<Coord>, v: nat): (es: seq<Entry>)
    ensures Cells(es) == ns
    ensures forall i :: 0 <= i < |es| ==> es[i].dist == v
  {
    var es := seq(|ns|, i requires 0 <= i < |ns| => Entry(ns[i], v));
    assert Cells(es) == ns;
    es
  }

  lemma CellsAppend(a: seq<Entry>, b: seq<Entry>)
    ensures Cells(a + b) == Cells(a) + Cells(b)
  {
  }

  lemma TaggedAppend(ns: seq<Coord>, n: Coord, v: nat)
    ensures Tagged(ns + [n], v) == Tagged(ns, v) + [Entry(n, v)]
  {
  }

  // ---------------------------------------------------------------------
  // queue.sort((a, b) => a.dist - b.dist)
  // ---------------------------------------------------------------------

  predicate SortedByDist(q: seq<Entry>)
  {
    forall i, j :: 0 <= i < j < |q| ==> q[i].dist <= q[j].dist
  }

  /** Places `e` in front of the first entry of `s` whose distance is not smaller. */
  function Insert(e: Entry, s: seq<Entry>): (r: seq<Entry>)
    ensures multiset(r) == multiset(s) + multiset{e}
  {
    if s == [] || e.dist <= s[0].dist then [e] + s
    else
      assert s == [s[0]] + s[1..];
      [s[0]] + Insert(e, s[1..])
  }

  /**
   * The comparator sort the queue goes through: a stable sort by `dist`
   * (an insertion sort; entries of equal distance keep their order).
   */
  function SortByDist(q: seq<Entry>): (r: seq<Entry>)
    ensures multiset(r) == multiset(q)
  {
    if q == [] then []
    else
      assert q == [q[0]] + q[1..];
      Insert(q[0], SortByDist(q[1..]))
  }

  /** An entry no farther than every entry of a sorted queue can go in front of it. */
  lemma ConsSorted(x: Entry, r: seq<Entry>)
    requires SortedByDist(r)
    requires forall k :: 0 <= k < |r| ==> x.dist <= r[k].dist
    ensures SortedByDist([x] + r)
  {
    var full := [x] + r;
    forall i, j | 0 <= i < j < |full|
      ensures full[i].dist <= full[j].dist
    {
      if i > 0 {
        assert full[i] == r[i - 1] && full[j] == r[j - 1];
      }
    }
  }

  /** Inserting keeps a lower bound shared by `e` and every entry of `t`. */
  lemma InsertAbove(e: Entry, t: seq<Entry>, b: nat)
    requires b <= e.dist && forall i :: 0 <= i < |t| ==> b <= t[i].dist
    ensures forall k :: 0 <= k < |Insert(e, t)| ==> b <= Insert(e, t)[k].dist
  {
    var r := Insert(e, t);
    forall k | 0 <= k < |r|
      ensures b <= r[k].dist
    {
      assert r[k] in multiset(r);
      if r[k] != e {
        assert r[k] in multiset(t);
      }
    }
  }

  lemma {:induction false} InsertSorted(e: Entry, s: seq<Entry>)
    requires SortedByDist(s)
    ensures SortedByDist(Insert(e, s))
  {
    if s == [] || e.dist <= s[0].dist {
      ConsSorted(e, s);
    } else {
      var t := s[1..];
      assert SortedByDist(t) by {
        forall i, j | 0 <= i < j < |t|
          ensures t[i].dist <= t[j].dist
        {
          assert t[i] == s[i + 1] && t[j] == s[j + 1];
        }
      }
      InsertSorted(e, t);
      assert forall i :: 0 <= i < |t| ==> s[0].dist <= t[i].dist by {
        forall i | 0 <= i < |t|
          ensures s[0].dist <= t[i].dist
        {
          assert t[i] == s[i + 1];
        }
      }
      InsertAbove(e, t, s[0].dist);
      ConsSorted(s[0], Insert(e, t));
    }
  }

  /** The sort leaves the queue sorted by distance and holding the same entries. */
  lemma {:induction false} SortByDistSorts(q: seq<Entry>)
    ensures SortedByDist(SortByDist(q))
    ensures multiset(SortByDist(q)) == multiset(q)
  {
    if q != [] {
      SortByDistSorts(q[1..]);
      InsertSorted(q[0], SortByDist(q[1..]));
    }
  }

  /** The entries of `q` at distance `d`, in order. */
  function AtDist(q: seq<Entry>, d: nat): (r: seq<Entry>)
    ensures forall i :: 0 <= i < |r| ==> r[i].dist == d && r[i] in q
  {
    if q == [] then []
    else (if q[0].dist == d then [q[0]] else []) + AtDist(q[1..], d)
  }

  lemma {:induction false} InsertStable(e: Entry, s: seq<Entry>, d: nat)
    requires SortedByDist(s)
    ensures AtDist(Insert(e, s), d) == (if e.dist == d then [e] else []) + AtDist(s, d)
  {
    if s != [] && e.dist > s[0].dist {
      var t := s[1..];
      InsertStable(e, t, d);
      assert Insert(e, s) == [s[0]] + Insert(e, t);
      assert ([s[0]] + Insert(e, t))[1..] == Insert(e, t);
      if s[0].dist == d {
        // every later entry is at least as far as `s[0]`, so `e` lies beyond `d`
        assert e.dist != d;
      }
    } else if s == [] {
      assert AtDist([e], d) == (if e.dist == d then [e] else []) + AtDist([], d);
    } else {
      assert ([e] + s)[1..] == s;
    }
  }

  /** Stability: among entries of equal distance the sort keeps the original order. */
  lemma {:induction false} SortByDistStable(q: seq<Entry>, d: nat)
    ensures AtDist(SortByDist(q), d) == AtDist(q, d)
  {
    if q != [] {
      SortByDistStable(q[1..], d);
      SortByDistSorts(q[1..]);
      InsertStable(q[0], SortByDist(q[1..]), d);
    }
  }

  /** A queue already sorted by distance comes out of the sort unchanged. */
  lemma {:induction false} SortedFixed(q: seq<Entry>)
    requires SortedByDist(q)
    ensures SortByDist(q) == q
  {
    if q != [] {
      var t := q[1..];
      assert SortedByDist(t) by {
        forall i, j | 0 <= i < j < |t|
          ensures t[i].dist <= t[j].dist
        {
          assert t[i] == q[i + 1] && t[j] == q[j + 1];
        }
      }
      SortedFixed(t);
      if t != [] {
        assert q[0].dist <= t[0].dist;
      }
      assert [q[0]] + t == q;
    }
  }

  // ---------------------------------------------------------------------
  // The matrices
  // ---------------------------------------------------------------------

  /** The `dist` matrix holds `depth` on known cells and `Infinity` elsewhere. */
  ghost predicate DistIs(dist: array2<Option<nat>>, depth: map<Coord, nat>)
    reads dist
  {
    forall r, c :: 0 <= r < dist.Length0 && 0 <= c < dist.Length1 ==>
      dist[r, c] == if Coord(r, c) in depth then Some(depth[Coord(r, c)]) else None
  }

  /** A fresh `dist` matrix: `Infinity` everywhere except `0` at `start`. */
  method NewDist(rows: nat, cols: nat, start: Coord) returns (dist: array2<Option<nat>>)
    requires 0 <= start.row < rows && 0 <= start.col < cols
    ensures fresh(dist) && dist.Length0 == rows && dist.Length1 == cols
    ensures DistIs(dist, map[start := 0])
  {
    dist := new Option<nat>[rows, cols]((r, c) => None);
    dist[start.row, start.col] := Some(0);
  }

  /** Records `alt` as the distance of `n` and `p` as its `prev`. */
  method Record(dist: array2<Option<nat>>, prev: array2<Option<Coord>>, n: Coord, alt: nat, p: Coord,
                ghost depth: map<Coord, nat>, ghost parent: map<Coord, Coord>)
    requires 0 <= n.row < dist.Length0 && 0 <= n.col < dist.Length1
    requires 0 <= n.row < prev.Length0 && 0 <= n.col < prev.Length1
    requires DistIs(dist, depth) && PrevIs(prev, parent)
    modifies dist, prev
    ensures DistIs(dist, depth[n := alt]) && PrevIs(prev, parent[n := p])
  {
    dist[n.row, n.col] := Some(alt);
    prev[n.row, n.col] := Some(p);
  }

  /** Clears the `inQueue` flag of `c`. */
  method Unqueue(inQueue: array2<bool>, c: Coord, ghost queued: set<Coord>)
    requires 0 <= c.row < inQueue.Length0 && 0 <= c.col < inQueue.Length1
    requires SeenIs(inQueue, queued)
    modifies inQueue
    ensures SeenIs(inQueue, queued - {c})
  {
    inQueue[c.row, c.col] := false;
  }

  // ---------------------------------------------------------------------
  // The invariant
  // ---------------------------------------------------------------------

  /** The breadth-first invariant over the queued cells, each entry carrying its cell's distance. */
  ghost predicate DijkstraState(g: Grid, start: Coord, end: Coord, depth: map<Coord, nat>, parent: map<Coord, Coord>,
                                queue: seq<Entry>, visited: seq<Step>)
  {
    BfsState(g, start, end, depth, parent, Cells(queue), visited) && Carried(depth, queue)
  }

  /** Every entry carries the distance of its cell. */
  ghost predicate Carried(depth: map<Coord, nat>, queue: seq<Entry>)
  {
    forall i :: 0 <= i < |queue| ==> queue[i].coord in depth && queue[i].dist == depth[queue[i].coord]
  }

  lemma Combine(g: Grid, start: Coord, end: Coord, depth: map<Coord, nat>, parent: map<Coord, Coord>,
                queue: seq<Entry>, visited: seq<Step>)
    requires BfsState(g, start, end, depth, parent, Cells(queue), visited) && Carried(depth, queue)
    ensures DijkstraState(g, start, end, depth, parent, queue, visited)
  {
  }

  /** The queue is always sorted already, so the sort never reorders it. */
  lemma QueueSorted(g: Grid, start: Coord, end: Coord, depth: map<Coord, nat>, parent: map<Coord, Coord>,
                    queue: seq<Entry>, visited: seq<Step>)
    requires DijkstraState(g, start, end, depth, parent, queue, visited)
    ensures SortedByDist(queue) && SortByDist(queue) == queue
  {
    var cs := Cells(queue);
    forall i, j | 0 <= i < j < |queue|
      ensures queue[i].dist <= queue[j].dist
    {
      assert depth[cs[i]] <= depth[cs[j]];
    }
    SortedFixed(queue);
  }

  /** No known cell is more than one level below the head of the queue. */
  lemma KnownNear(depth: map<Coord, nat>, done: seq<Coord>, queue: seq<Coord>)
    requires Layered(depth, done, queue) && |queue| > 0
    requires forall c :: c in depth <==> c in done || c in queue
    ensures forall c :: c in depth ==> depth[c] <= depth[queue[0]] + 1
  {
    forall c | c in depth
      ensures depth[c] <= depth[queue[0]] + 1
    {
      if c in queue {
        var j :| 0 <= j < |queue| && queue[j] == c;
        if j < |queue| - 1 {
          assert depth[queue[j]] <= depth[queue[|queue| - 1]];
        }
      } else {
        var j :| 0 <= j < |done| && done[j] == c;
      }
    }
  }

  /** Dropping the head of a queue whose cells are all distinct removes exactly that cell. */
  lemma PopElems(done: seq<Coord>, q: seq<Coord>)
    requires Distinct(done + q) && |q| > 0
    ensures Elems(q[1..]) == Elems(q) - {q[0]}
  {
    forall x | x in q[1..]
      ensures x != q[0]
    {
      var j :| 0 <= j < |q[1..]| && q[1..][j] == x;
      assert (done + q)[|done|] == q[0] && (done + q)[|done| + 1 + j] == x;
    }
  }

  lemma DijkstraStep(g: Grid, start: Coord, end: Coord, depth: map<Coord, nat>,
                     parent: map<Coord, Coord>, queue: seq<Entry>, visited: seq<Step>, cur: Coord, fr: seq<Coord>,
                     depth': map<Coord, nat>, parent': map<Coord, Coord>, queue': seq<Entry>, visited': seq<Step>)
    requires DijkstraState(g, start, end, depth, parent, queue, visited)
    requires |queue| > 0 && cur == queue[0].coord && cur != end && fr == Fresh(g, cur, depth.Keys)
    requires depth' == Deepen(depth, fr, depth[cur] + 1) && parent' == Adopt(parent, fr, cur)
    requires queue' == queue[1..] + Tagged(fr, depth[cur] + 1) && visited' == visited + [Step(cur, false)]
    ensures BfsState(g, start, end, depth', parent', Cells(queue'), visited')
    ensures Elems(Cells(queue')) == (Elems(Cells(queue)) - {cur}) + Elems(fr)
    ensures |visited'| <= Rows(g) * Cols(g)
  {
    var v := depth[cur] + 1;
    var cs := Cells(queue);
    CellsStep(queue, fr, v);
    BfsStep(g, start, end, depth, parent, cs, visited, cur, fr, depth', parent', Cells(queue'), visited');
    QueuedStep(Coords(visited), cs, fr);
  }

  /** The entries after a turn still carry their cells' distances. */
  lemma CarriedStep(g: Grid, cur: Coord, depth: map<Coord, nat>, queue: seq<Entry>, fr: seq<Coord>)
    requires |queue| > 0 && Carried(depth, queue) && cur in depth && fr == Fresh(g, cur, depth.Keys)
    ensures Carried(Deepen(depth, fr, depth[cur] + 1), queue[1..] + Tagged(fr, depth[cur] + 1))
  {
    FreshUnknown(g, cur, depth.Keys, SearchOrder);
    EntriesStep(depth, queue, fr, depth[cur] + 1);
  }

  lemma CellsStep(queue: seq<Entry>, fr: seq<Coord>, v: nat)
    requires |queue| > 0
    ensures Cells(queue[1..] + Tagged(fr, v)) == Cells(queue)[1..] + fr
  {
    CellsAppend(queue[1..], Tagged(fr, v));
    assert Cells(queue[1..]) == Cells(queue)[1..];
  }

  /** The cells flagged `inQueue` after a pop and the new entries. */
  lemma QueuedStep(done: seq<Coord>, cs: seq<Coord>, fr: seq<Coord>)
    requires Distinct(done + cs) && |cs| > 0
    ensures Elems(cs[1..] + fr) == (Elems(cs) - {cs[0]}) + Elems(fr)
  {
    PopElems(done, cs);
  }

  /** Entries carry their cell's distance after the pop and the new entries, as before. */
  lemma EntriesStep(depth: map<Coord, nat>, queue: seq<Entry>, fr: seq<Coord>, v: nat)
    requires |queue| > 0 && Carried(depth, queue)
    requires forall n :: n in fr ==> n !in depth
    ensures Carried(Deepen(depth, fr, v), queue[1..] + Tagged(fr, v))
  {
    var depth' := Deepen(depth, fr, v);
    var tail: seq<Entry> := queue[1..];
    var es: seq<Entry> := Tagged(fr, v);
    var q' := tail + es;
    forall i | 0 <= i < |q'|
      ensures q'[i].coord in depth' && q'[i].dist == depth'[q'[i].coord]
    {
      if i < |tail| {
        assert q'[i] == queue[i + 1];
      } else {
        var j := i - |tail|;
        assert q'[i] == es[j];
        assert Cells(es)[j] == fr[j];
      }
    }
  }

  // ---------------------------------------------------------------------
  // The relaxation loop
  // ---------------------------------------------------------------------

  /**
   * `alt < dist[n]`, with `alt = dist[cur] + 1`, holds exactly when `n` is
   * not known yet: every known cell is at most one level below `cur`.
   */
  lemma RelaxIff(dist: array2<Option<nat>>, depth: map<Coord, nat>, fr: seq<Coord>, cur: Coord, n: Coord)
    requires 0 <= cur.row < dist.Length0 && 0 <= cur.col < dist.Length1
    requires 0 <= n.row < dist.Length0 && 0 <= n.col < dist.Length1
    requires cur in depth && forall c :: c in depth ==> depth[c] <= depth[cur] + 1
    requires forall c :: c in fr ==> c !in depth
    requires DistIs(dist, Deepen(depth, fr, depth[cur] + 1))
    ensures dist[cur.row, cur.col] == Some(depth[cur])
    ensures Less(Some(depth[cur] + 1), dist[n.row, n.col]) <==> n !in depth && n !in fr
  {
    assert Coord(cur.row, cur.col) == cur && Coord(n.row, n.col) == n;
  }

  /** A relaxation that succeeds: `n` gets its distance and `prev`, and is queued (it never is already). */
  method Discover(dist: array2<Option<nat>>, prev: array2<Option<Coord>>, inQueue: array2<bool>,
                  cur: Coord, n: Coord, alt: nat, ghost pending: seq<Entry>, grown: seq<Entry>,
                  ghost fr: seq<Coord>, ghost depth: map<Coord, nat>, ghost parent: map<Coord, Coord>,
                  ghost queued: set<Coord>)
    returns (grown': seq<Entry>, ghost fr': seq<Coord>)
    requires 0 <= n.row < dist.Length0 && 0 <= n.col < dist.Length1
    requires 0 <= n.row < prev.Length0 && 0 <= n.col < prev.Length1
    requires 0 <= n.row < inQueue.Length0 && 0 <= n.col < inQueue.Length1
    requires n !in depth && n !in fr && queued <= depth.Keys
    requires grown == pending + Tagged(fr, alt)
    requires DistIs(dist, Deepen(depth, fr, alt)) && PrevIs(prev, Adopt(parent, fr, cur))
    requires SeenIs(inQueue, queued + Elems(fr))
    modifies dist, prev, inQueue
    ensures fr' == fr + [n] && grown' == pending + Tagged(fr', alt)
    ensures DistIs(dist, Deepen(depth, fr', alt)) && PrevIs(prev, Adopt(parent, fr', cur))
    ensures SeenIs(inQueue, queued + Elems(fr'))
  {
    fr' := fr + [n];
    Record(dist, prev, n, alt, cur, Deepen(depth, fr, alt), Adopt(parent, fr, cur));
    GrowOne(queued, parent, fr, n, cur);
    DeepenOne(depth, fr, n, alt);
    grown' := grown;
    if !inQueue[n.row, n.col] {
      grown' := grown + [Entry(n, alt)];
      MarkSeen(inQueue, n, queued + Elems(fr));
    }
    TaggedAppend(fr, n, alt);
    AppendAssoc(pending, Tagged(fr, alt), Entry(n, alt));
  }

  lemma DeepenOne(depth: map<Coord, nat>, fr: seq<Coord>, n: Coord, v: nat)
    ensures Deepen(depth, fr, v)[n := v] == Deepen(depth, fr + [n], v)
  {
  }

  lemma FreshUnknown(g: Grid, cur: Coord, known: set<Coord>, ds: seq<Dir>)
    ensures forall n :: n in FreshFrom(g, cur, known, ds) ==> n !in known
  {
    FreshFromSound(g, cur, known, ds);
  }

  /**
   * The test of the direction loop for `SearchOrder[k]`: the neighbour is in
   * bounds, no wall is in the way, and `alt = dist[cur] + 1 < dist[n]`.
   * It passes exactly for an open neighbour not known yet.
   */
  method Probe(g: Grid, dist: array2<Option<nat>>, cur: Coord, k: nat,
               ghost depth: map<Coord, nat>, ghost fr: seq<Coord>)
    returns (n: Coord, relax: bool, alt: nat)
    requires Wf(g) && InBounds(g, cur) && k < 4 && cur in depth
    requires dist.Length0 == Rows(g) && dist.Length1 == Cols(g)
    requires forall c :: c in depth ==> depth[c] <= depth[cur] + 1
    requires forall c :: c in fr ==> c !in depth
    requires DistIs(dist, Deepen(depth, fr, depth[cur] + 1))
    ensures n == Move(cur, SearchOrder[k]) && (relax ==> alt == depth[cur] + 1)
    ensures relax <==> Passable(g, cur, SearchOrder[k]) && n !in depth && n !in fr
  {
    var d := SearchOrder[k];
    n := Move(cur, d);
    alt, relax := 0, false;
    if 0 <= n.row < |g| && 0 <= n.col < |g[0]| && !g[cur.row][cur.col].walls.Has(d) {
      assert Passable(g, cur, d);
      RelaxIff(dist, depth, fr, cur, n);
      alt := dist[cur.row, cur.col].value + 1;
      relax := Less(Some(alt), dist[n.row, n.col]);
    }
  }

  /** One pass of the direction loop: the neighbour behind `SearchOrder[k]` is relaxed if it is open and closer. */
  method RelaxDirection(g: Grid, dist: array2<Option<nat>>, prev: array2<Option<Coord>>, inQueue: array2<bool>,
                        cur: Coord, k: nat, ghost pending: seq<Entry>, grown: seq<Entry>,
                        ghost fr: seq<Coord>, ghost depth: map<Coord, nat>, ghost parent: map<Coord, Coord>,
                        ghost queued: set<Coord>)
    returns (grown': seq<Entry>, ghost fr': seq<Coord>)
    requires Wf(g) && InBounds(g, cur) && k < 4 && cur in depth
    requires dist.Length0 == Rows(g) && dist.Length1 == Cols(g)
    requires prev.Length0 == Rows(g) && prev.Length1 == Cols(g)
    requires inQueue.Length0 == Rows(g) && inQueue.Length1 == Cols(g)
    requires forall c :: c in depth ==> depth[c] <= depth[cur] + 1
    requires queued <= depth.Keys
    requires fr == FreshFrom(g, cur, depth.Keys, SearchOrder[..k]) && grown == pending + Tagged(fr, depth[cur] + 1)
    requires DistIs(dist, Deepen(depth, fr, depth[cur] + 1)) && PrevIs(prev, Adopt(parent, fr, cur))
    requires SeenIs(inQueue, queued + Elems(fr))
    modifies dist, prev, inQueue
    ensures fr' == FreshFrom(g, cur, depth.Keys, SearchOrder[..k + 1])
    ensures grown' == pending + Tagged(fr', depth[cur] + 1)
    ensures DistIs(dist, Deepen(depth, fr', depth[cur] + 1)) && PrevIs(prev, Adopt(parent, fr', cur))
    ensures SeenIs(inQueue, queued + Elems(fr'))
  {
    FreshStep(g, cur, depth.Keys, k);
    FreshUnknown(g, cur, depth.Keys, SearchOrder[..k]);
    var n, relax, alt := Probe(g, dist, cur, k, depth, fr);
    if relax {
      grown', fr' := Discover(dist, prev, inQueue, cur, n, alt, pending, grown, fr, depth, parent, queued);
    } else {
      grown', fr' := grown, fr;
    }
  }

  /** The direction loop: every unknown open neighbour of `cur` is given `cur` as `prev`, its distance, and a queue entry. */
  method RelaxAll(g: Grid, dist: array2<Option<nat>>, prev: array2<Option<Coord>>, inQueue: array2<bool>,
                  cur: Coord, pending: seq<Entry>,
                  ghost depth: map<Coord, nat>, ghost parent: map<Coord, Coord>, ghost queued: set<Coord>)
    returns (grown: seq<Entry>)
    requires Wf(g) && InBounds(g, cur) && cur in depth
    requires dist.Length0 == Rows(g) && dist.Length1 == Cols(g)
    requires prev.Length0 == Rows(g) && prev.Length1 == Cols(g)
    requires inQueue.Length0 == Rows(g) && inQueue.Length1 == Cols(g)
    requires forall c :: c in depth ==> depth[c] <= depth[cur] + 1
    requires queued <= depth.Keys
    requires DistIs(dist, depth) && PrevIs(prev, parent) && SeenIs(inQueue, queued)
    modifies dist, prev, inQueue
    ensures grown == pending + Tagged(Fresh(g, cur, depth.Keys), depth[cur] + 1)
    ensures DistIs(dist, Deepen(depth, Fresh(g, cur, depth.Keys), depth[cur] + 1))
    ensures PrevIs(prev, Adopt(parent, Fresh(g, cur, depth.Keys), cur))
    ensures SeenIs(inQueue, queued + Elems(Fresh(g, cur, depth.Keys)))
  {
    grown := pending;
    ghost var fr: seq<Coord> := [];
    assert SearchOrder[..0] == [];
    assert queued + Elems(fr) == queued;
    assert Adopt(parent, fr, cur) == parent;
    assert Deepen(depth, fr, depth[cur] + 1) == depth;
    assert pending + Tagged(fr, depth[cur] + 1) == pending;
    for k := 0 to 4
      invariant fr == FreshFrom(g, cur, depth.Keys, SearchOrder[..k])
      invariant grown == pending + Tagged(fr, depth[cur] + 1)
      invariant DistIs(dist, Deepen(depth, fr, depth[cur] + 1)) && PrevIs(prev, Adopt(parent, fr, cur))
      invariant SeenIs(inQueue, queued + Elems(fr))
    {
      grown, fr := RelaxDirection(g, dist, prev, inQueue, cur, k, pending, grown, fr, depth, parent, queued);
    }
    assert SearchOrder[..4] == SearchOrder;
  }

  // ---------------------------------------------------------------------
  // The solver
  // ---------------------------------------------------------------------

  /** One turn of the main loop: sort, pop, record, then stop at `end` or relax the neighbours. */
  method Visit(g: Grid, dist: array2<Option<nat>>, prev: array2<Option<Coord>>, inQueue: array2<bool>,
               start: Coord, end: Coord, queue: seq<Entry>, visited: seq<Step>,
               ghost depth: map<Coord, nat>, ghost parent: map<Coord, Coord>)
    returns (cur: Coord, queue': seq<Entry>, visited': seq<Step>, stop: bool,
             ghost depth': map<Coord, nat>, ghost parent': map<Coord, Coord>)
    requires dist.Length0 == Rows(g) && dist.Length1 == Cols(g)
    requires prev.Length0 == Rows(g) && prev.Length1 == Cols(g)
    requires inQueue.Length0 == Rows(g) && inQueue.Length1 == Cols(g)
    requires DistIs(dist, depth) && PrevIs(prev, parent) && SeenIs(inQueue, Elems(Cells(queue)))
    requires DijkstraState(g, start, end, depth, parent, queue, visited) && |queue| > 0
    modifies dist, prev, inQueue
    ensures cur == queue[0].coord && visited' == visited + [Step(cur, false)]
    ensures stop <==> cur == end
    ensures stop ==> depth' == depth && parent' == parent
    ensures !stop ==> queue' == queue[1..] + Tagged(Fresh(g, cur, depth.Keys), depth[cur] + 1)
    ensures !stop ==> parent' == Adopt(parent, Fresh(g, cur, depth.Keys), cur)
    ensures DistIs(dist, depth') && PrevIs(prev, parent') && SeenIs(inQueue, Elems(Cells(queue')))
    ensures Tree(g, start, depth', parent')
    ensures stop ==> Solved(g, start, end, depth', visited')
    ensures !stop ==> DijkstraState(g, start, end, depth', parent', queue', visited')
    ensures |visited'| == |visited| + 1 <= Rows(g) * Cols(g)
  {
    var rest;
    cur, rest := SortAndPop(queue, g, start, end, depth, parent, visited);
    PopCells(Coords(visited), queue);
    Unqueue(inQueue, cur, Elems(Cells(queue)));
    visited' := visited + [Step(cur, false)];
    if cur == end {
      BfsFound(g, start, end, depth, parent, Cells(queue), visited, visited');
      queue', depth', parent' := rest, depth, parent;
      stop := true;
      return;
    }
    stop := false;
    queue', depth', parent' := Advance(g, dist, prev, inQueue, start, end, cur, queue, rest, visited, depth, parent);
  }

  /**
   * `queue.sort((a, b) => a.dist - b.dist)` followed by `queue.shift()`:
   * the queue is sorted already, so the head comes off unchanged.
   */
  method SortAndPop(queue: seq<Entry>, ghost g: Grid, ghost start: Coord, ghost end: Coord,
                    ghost depth: map<Coord, nat>, ghost parent: map<Coord, Coord>, ghost visited: seq<Step>)
    returns (cur: Coord, rest: seq<Entry>)
    requires DijkstraState(g, start, end, depth, parent, queue, visited) && |queue| > 0
    ensures SortByDist(queue) == queue
    ensures cur == queue[0].coord && rest == queue[1..]
  {
    QueueSorted(g, start, end, depth, parent, queue, visited);
    var sorted := SortByDist(queue);
    cur, rest := sorted[0].coord, sorted[1..];
  }

  /** Popping the head clears exactly its cell from the queued cells. */
  lemma PopCells(done: seq<Coord>, queue: seq<Entry>)
    requires Distinct(done + Cells(queue)) && |queue| > 0
    ensures Elems(Cells(queue[1..])) == Elems(Cells(queue)) - {queue[0].coord}
  {
    PopElems(done, Cells(queue));
    assert Cells(queue[1..]) == Cells(queue)[1..];
  }

  /** The relaxation half of a turn: the neighbours of the popped cell join the rest of the queue. */
  method Advance(g: Grid, dist: array2<Option<nat>>, prev: array2<Option<Coord>>, inQueue: array2<bool>,
                 start: Coord, end: Coord, cur: Coord, ghost queue: seq<Entry>, rest: seq<Entry>, ghost visited: seq<Step>,
                 ghost depth: map<Coord, nat>, ghost parent: map<Coord, Coord>)
    returns (queue': seq<Entry>, ghost depth': map<Coord, nat>, ghost parent': map<Coord, Coord>)
    requires dist.Length0 == Rows(g) && dist.Length1 == Cols(g)
    requires prev.Length0 == Rows(g) && prev.Length1 == Cols(g)
    requires inQueue.Length0 == Rows(g) && inQueue.Length1 == Cols(g)
    requires DijkstraState(g, start, end, depth, parent, queue, visited)
    requires |queue| > 0 && cur == queue[0].coord && rest == queue[1..] && cur != end
    requires DistIs(dist, depth) && PrevIs(prev, parent) && SeenIs(inQueue, Elems(Cells(rest)))
    modifies dist, prev, inQueue
    ensures DistIs(dist, depth') && PrevIs(prev, parent') && SeenIs(inQueue, Elems(Cells(queue')))
    ensures queue' == rest + Tagged(Fresh(g, cur, depth.Keys), depth[cur] + 1)
    ensures parent' == Adopt(parent, Fresh(g, cur, depth.Keys), cur)
    ensures DijkstraState(g, start, end, depth', parent', queue', visited + [Step(cur, false)])
    ensures |visited| + 1 <= Rows(g) * Cols(g)
  {
    ghost var fr := Fresh(g, cur, depth.Keys);
    PopCells(Coords(visited), queue);
    KnownNear(depth, Coords(visited), Cells(queue));
    queue' := RelaxAll(g, dist, prev, inQueue, cur, rest, depth, parent, Elems(Cells(rest)));
    depth', parent' := Deepen(depth, fr, depth[cur] + 1), Adopt(parent, fr, cur);
    DijkstraStep(g, start, end, depth, parent, queue, visited, cur, fr, depth', parent', queue',
                 visited + [Step(cur, false)]);
    CarriedStep(g, cur, depth, queue, fr);
    Combine(g, start, end, depth', parent', queue', visited + [Step(cur, false)]);
  }

  /** The main loop of `Dijkstra`: runs `Visit` until the queue empties or `end` is popped. */
  method Explore(g: Grid, start: Coord, end: Coord)
    returns (visited: seq<Step>, prev: array2<Option<Coord>>, ghost depth: map<Coord, nat>, ghost parent: map<Coord, Coord>)
    requires Wf(g) && InBounds(g, start) && InBounds(g, end)
    ensures prev.Length0 == Rows(g) && prev.Length1 == Cols(g) && PrevIs(prev, parent)
    ensures Tree(g, start, depth, parent) && Solved(g, start, end, depth, visited)
    ensures LinksExplored(parent, visited)
  {
    var rows, cols := |g|, |g[0]|;
    var dist := NewDist(rows, cols, start);
    prev := NewPrev(rows, cols);
    var inQueue := NewSeen(rows, cols);
    MarkSeen(inQueue, start, {});
    var queue := [Entry(start, 0)];
    visited := [];
    depth, parent := map[start := 0], map[];
    var stop := false;
    BfsInit(g, start, end);
    assert Cells(queue) == [start];
    assert Elems([start]) == {} + {start};
    while |queue| > 0
      invariant dist.Length0 == rows && dist.Length1 == cols && prev.Length0 == rows && prev.Length1 == cols
      invariant inQueue.Length0 == rows && inQueue.Length1 == cols
      invariant DistIs(dist, depth) && PrevIs(prev, parent) && SeenIs(inQueue, Elems(Cells(queue)))
      invariant DijkstraState(g, start, end, depth, parent, queue, visited)
      invariant LinksExplored(parent, visited)
      invariant !stop
      decreases rows * cols - |visited|
    {
      ghost var depth0, parent0, visited0 := depth, parent, visited;
      var cur;
      cur, queue, visited, stop, depth, parent := Visit(g, dist, prev, inQueue, start, end, queue, visited, depth, parent);
      LinksExploredStep(parent0, visited0, Fresh(g, cur, depth0.Keys), cur);
      if stop {
        break;
      }
    }
    if !stop {
      assert Cells(queue) == [];
      BfsExhausted(g, start, end, depth, parent, visited);
    }
  }

  /**
   * The reconstruction of Dijkstra's solver: from `end`, prepend each cell
   * that has a `prev` and move to it; finally prepend the cell reached if it
   * is `start`. A reached `end` gives a route from `start` one longer than
   * its depth; an unreached one gives the empty path.
   */
  method Unwind(prev: array2<Option<Coord>>, start: Coord, end: Coord,
                ghost g: Grid, ghost depth: map<Coord, nat>, ghost parent: map<Coord, Coord>,
                ghost known: set<Coord>)
    returns (path: seq<Step>)
    requires Tree(g, start, depth, parent) && InBounds(g, end)
    requires prev.Length0 == Rows(g) && prev.Length1 == Cols(g) && PrevIs(prev, parent)
    requires LinksWithin(parent, known)
    ensures AllTagged(path, true)
    ensures end !in depth ==> path == []
    ensures end in depth ==> RouteBetween(g, Coords(path), start, end) && |path| == depth[end] + 1
    ensures StepsWithin(path, end, known)
  {
    var curr := end;
    path := [];
    while prev[curr.row, curr.col].Some?
      invariant InBounds(g, curr) && AllTagged(path, true)
      invariant curr == end || curr in known
      invariant StepsWithin(path, end, known)
      invariant curr !in depth ==> curr == end && path == []
      invariant curr in depth ==>
        end in depth && |path| + depth[curr] == depth[end] && RouteBetween(g, [curr] + Coords(path), curr, end)
      decreases if curr in depth then depth[curr] else 0
    {
      var p := prev[curr.row, curr.col].value;
      assert curr in parent && p == parent[curr];
      UnwindStep(g, p, curr, path, end);
      TaggedCons(Step(curr, true), path);
      WithinCons(Step(curr, true), path, end, known);
      path := [Step(curr, true)] + path;
      curr := p;
    }
    if curr == start {
      CoordsCons(Step(curr, true), path);
      TaggedCons(Step(curr, true), path);
      WithinCons(Step(curr, true), path, end, known);
      path := [Step(curr, true)] + path;
    }
  }

  /** Every step of `path` is at `end` or at a cell of `known`. */
  ghost predicate StepsWithin(path: seq<Step>, end: Coord, known: set<Coord>)
  {
    forall i :: 0 <= i < |path| ==> path[i].coord == end || path[i].coord in known
  }

  lemma WithinCons(s: Step, path: seq<Step>, end: Coord, known: set<Coord>)
    requires StepsWithin(path, end, known) && (s.coord == end || s.coord in known)
    ensures StepsWithin([s] + path, end, known)
  {
    assert forall i :: 0 < i < |path| + 1 ==> ([s] + path)[i] == path[i - 1];
  }

  lemma CoordsCons(s: Step, ss: seq<Step>)
    ensures Coords([s] + ss) == [s.coord] + Coords(ss)
  {
  }

  lemma TaggedCons(s: Step, ss: seq<Step>)
    requires s.isPath && AllTagged(ss, true)
    ensures AllTagged([s] + ss, true)
  {
    assert forall i :: 0 < i < |ss| + 1 ==> ([s] + ss)[i] == ss[i - 1];
  }

  /** Prepending the parent of the first cell keeps a route to `end`. */
  lemma UnwindStep(g: Grid, p: Coord, curr: Coord, path: seq<Step>, end: Coord)
    requires RouteBetween(g, [curr] + Coords(path), curr, end) && Link(g, p, curr)
    ensures RouteBetween(g, [p] + Coords([Step(curr, true)] + path), p, end)
  {
    ReachablePrefix(g, p, [curr] + Coords(path));
    CoordsCons(Step(curr, true), path);
  }

  /**
   * Dijkstra's algorithm from `start` to `end`. `visitedSteps` lists cells in
   * the order they are popped; it holds `end` (as its last entry) exactly
   * when `end` is reachable, and then the returned path is a shortest route
   * from `start` to `end`; otherwise the path is empty.
   */
  method Dijkstra(g: Grid, start: Coord, end: Coord) returns (visited: seq<Step>, path: seq<Step>)
    requires Wf(g) && InBounds(g, start) && InBounds(g, end)
    ensures Explored(g, start, visited)
    ensures end in Coords(visited) <==> Reachable(g, start, end)
    ensures end in Coords(visited) ==> visited[|visited| - 1].coord == end
    ensures AllTagged(path, true)
    ensures Reachable(g, start, end) ==> Shortest(g, path, start, end)
    ensures Reachable(g, start, end) ==> forall i :: 0 <= i < |path| ==> path[i].coord in Coords(visited)
    ensures !Reachable(g, start, end) ==> path == []
  {
    var prev;
    ghost var depth, parent;
    visited, prev, depth, parent := Explore(g, start, end);
    path := Unwind(prev, start, end, g, depth, parent, Elems(Coords(visited)));
  }
}
