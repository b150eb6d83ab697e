/**
 * Facts shared by the frontier-based solvers (breadth-first and iterative depth-first, in both
 * source trees): the parent links they record, the cells they have finished expanding, and
 * what those two together say about routes through the grid.
 */
module Search {
  import opened Grid
  import opened SolveResults

  /**
   * Parent links as the solvers keep them: the root maps to `None`, every other discovered
   * cell to the cell whose expansion discovered it. `depth` is a ghost counter of link steps.
   */
  ghost predicate Shaped(links: map<Pos, Option<Pos>>, depth: map<Pos, nat>) {
    && depth.Keys == links.Keys
    && forall v {:trigger links[v]} :: v in links && links[v].Some? ==>
         links[v].value in links && depth[v] == depth[links[v].value] + 1
  }

  ghost predicate Tree(b: Board, start: Pos, links: map<Pos, Option<Pos>>, depth: map<Pos, nat>)
  {
    && Shaped(links, depth)
    && start in links && links[start] == None && depth[start] == 0
    && forall v {:trigger links[v]} :: v in links && v != start ==>
         links[v].Some? && Adjacent(links[v].value, v) && Open(b, v)
  }

  /** The cells met when following the links back from `v`, root first. */
  ghost function Chain(links: map<Pos, Option<Pos>>, depth: map<Pos, nat>, v: Pos): seq<Pos>
    requires Shaped(links, depth) && v in links
    decreases depth[v]
  {
    match links[v]
    case None => [v]
    case Some(u) => Chain(links, depth, u) + [v]
  }

  /**
   * The state of a frontier search between two expansions: `done` holds the cells already
   * taken off the frontier, in order, `pending` the frontier itself; together they are exactly
   * the discovered cells, each appearing once, and every parent is a finished cell.
   */
  ghost predicate Frontier(b: Board, start: Pos, done: seq<Pos>, pending: seq<Pos>,
                           links: map<Pos, Option<Pos>>, depth: map<Pos, nat>)
  {
    && Tree(b, start, links, depth)
    && (forall v :: v in links <==> v in done || v in pending)
    && Distinct(done) && Distinct(pending)
    && (forall v :: v in done ==> v !in pending)
    && (done == [] ==> pending == [start])
    && (done != [] ==> done[0] == start)
    && (forall v {:trigger links[v]} :: v in links && links[v].Some? ==> links[v].value in done)
  }

  /** Finished cells are distinct cells of the grid, so there are never more of them than cells. */
  lemma FrontierBound(b: Board, start: Pos, done: seq<Pos>, pending: seq<Pos>,
                      links: map<Pos, Option<Pos>>, depth: map<Pos, nat>)
    requires Frontier(b, start, done, pending, links, depth)
    ensures |done| <= |Cells(b) + {start}|
  {
    forall i | 0 <= i < |done| ensures done[i] in Cells(b) + {start} {
      assert done[i] in links;
    }
    DistinctBound(done, Cells(b) + {start});
  }

  /** Neighbour offsets of the four frontier solvers, tried in the order up, down, left, right. */
  const DR: seq<int> := [-1, 1, 0, 0]
  const DC: seq<int> := [0, 0, -1, 1]

  /** The neighbour tried in direction `i`. */
  function Move(p: Pos, i: nat): (q: Pos)
    requires i < 4
    ensures Adjacent(p, q)
  {
    Shift(p, DR[i], DC[i])
  }

  /** The four neighbours in the order they are tried. */
  function Moves(p: Pos): (ms: seq<Pos>)
    ensures |ms| == 4
  {
    [Move(p, 0), Move(p, 1), Move(p, 2), Move(p, 3)]
  }

  /** The four moves are all the cells adjacent to `p`, each once. */
  lemma MovesCells(p: Pos)
    ensures Distinct(Moves(p))
    ensures forall w :: Adjacent(p, w) <==> w in Moves(p)
  {
    var ms := Moves(p);
    forall w | Adjacent(p, w) ensures w in ms {
      AdjacentCases(p, w);
    }
  }

  /** The cells of `ms`, in order, that are open and not in `known`. */
  ghost function Fresh(b: Board, known: set<Pos>, ms: seq<Pos>): seq<Pos>
  {
    if ms == [] then []
    else
      var m := ms[|ms| - 1];
      Fresh(b, known, ms[..|ms| - 1]) + (if Open(b, m) && m !in known then [m] else [])
  }

  /** `Fresh` keeps exactly the open unknown cells, and repeats none when `ms` repeats none. */
  lemma {:induction false} FreshCells(b: Board, known: set<Pos>, ms: seq<Pos>)
    ensures forall w :: w in Fresh(b, known, ms) <==> w in ms && Open(b, w) && w !in known
    ensures Distinct(ms) ==> Distinct(Fresh(b, known, ms))
  {
    if ms != [] {
      var init := ms[..|ms| - 1];
      FreshCells(b, known, init);
      assert forall w :: w in ms <==> w in init || w == ms[|ms| - 1];
      assert Distinct(ms) ==> Distinct(init) && ms[|ms| - 1] !in init;
    }
  }

  /** `m` with every cell of `ks` mapped to `val`, later cells last. */
  function Assign<V>(m: map<Pos, V>, ks: seq<Pos>, val: V): map<Pos, V>
  {
    if ks == [] then m else Assign(m, ks[..|ks| - 1], val)[ks[|ks| - 1] := val]
  }

  lemma {:induction false} AssignEntries<V>(m: map<Pos, V>, ks: seq<Pos>, val: V)
    ensures forall k :: k in Assign(m, ks, val) <==> k in m || k in ks
    ensures forall k :: k in Assign(m, ks, val) ==> Assign(m, ks, val)[k] == if k in ks then val else m[k]
  {
    if ks != [] {
      AssignEntries(m, ks[..|ks| - 1], val);
      assert forall k :: k in ks <==> k in ks[..|ks| - 1] || k == ks[|ks| - 1];
    }
  }

  /**
   * The neighbour test of the current-tree breadth- and depth-first solvers: inside the grid,
   * not a wall, and not yet in the parent map.
   */
  function IsValid(g: array2<CellState>, links: map<Pos, Option<Pos>>, row: int, col: int): (ok: bool)
    reads g
    ensures ok <==> Open(Snapshot(g), Pos(row, col)) && Pos(row, col) !in links
  {
    if row < 0 || row >= g.Length0 || col < 0 || col >= g.Length1 then false
    else if g[row, col] == Wall then false
    else Pos(row, col) !in links
  }

  lemma MoveAt(p: Pos, i: nat)
    requires i < 4
    ensures Moves(p)[i] == Pos(p.row + DR[i], p.col + DC[i])
  {
  }

  /**
   * Trying neighbour `n`, the `i`-th, after the first `i`: it is fresh against the links built
   * so far exactly when it is fresh against the links the expansion started from, and
   * accepting it extends both the fresh cells and the assignment by that one cell.
   */
  lemma ExpandNext(b: Board, links: map<Pos, Option<Pos>>, ms: seq<Pos>, i: nat, n: Pos,
                   fr: seq<Pos>, cur: Pos, links': map<Pos, Option<Pos>>)
    requires i < |ms| && Distinct(ms) && n == ms[i]
    requires fr == Fresh(b, links.Keys, ms[..i]) && links' == Assign(links, fr, Some(cur))
    ensures n in links' <==> n in links
    ensures Open(b, n) && n !in links ==> Fresh(b, links.Keys, ms[..i + 1]) == fr + [n]
    ensures !(Open(b, n) && n !in links) ==> Fresh(b, links.Keys, ms[..i + 1]) == fr
    ensures Assign(links, fr + [n], Some(cur)) == links'[n := Some(cur)]
  {
    FreshCells(b, links.Keys, ms[..i]);
    AssignEntries(links, fr, Some(cur));
    assert ms[i] !in ms[..i];
    FreshNext(b, links.Keys, ms, i);
    AssignNext(links, fr, n, Some(cur));
  }

  /** `Fresh` over one more candidate keeps that candidate exactly when it is open and unknown. */
  lemma FreshNext(b: Board, known: set<Pos>, ms: seq<Pos>, i: nat)
    requires i < |ms|
    ensures Fresh(b, known, ms[..i + 1]) ==
      Fresh(b, known, ms[..i]) + (if Open(b, ms[i]) && ms[i] !in known then [ms[i]] else [])
  {
    assert ms[..i + 1][..i] == ms[..i];
  }

  /** Assigning one more key is a single map update. */
  lemma AssignNext<V>(m: map<Pos, V>, ks: seq<Pos>, k: Pos, val: V)
    ensures Assign(m, ks + [k], val) == Assign(m, ks, val)[k := val]
  {
    assert (ks + [k])[..|ks|] == ks;
  }

  /**
   * The neighbour loop of the current-tree breadth- and depth-first solvers: each neighbour
   * that passes the test, in the order tried, gets `cur` as its parent and is appended to the
   * frontier (the back of the queue, or the top of the stack).
   */
  method Expand(g: array2<CellState>, ghost b: Board, cur: Pos, frontier: seq<Pos>, links: map<Pos, Option<Pos>>)
    returns (frontier': seq<Pos>, links': map<Pos, Option<Pos>>)
    requires b == Snapshot(g)
    ensures frontier' == frontier + Fresh(b, links.Keys, Moves(cur))
    ensures links' == Assign(links, Fresh(b, links.Keys, Moves(cur)), Some(cur))
  {
    frontier', links' := frontier, links;
    ghost var ms := Moves(cur);
    MovesCells(cur);
    ghost var fr: seq<Pos> := [];
    for i := 0 to 4
      invariant fr == Fresh(b, links.Keys, ms[..i])
      invariant frontier' == frontier + fr
      invariant links' == Assign(links, fr, Some(cur))
    {
      var newRow, newCol := cur.row + DR[i], cur.col + DC[i];
      MoveAt(cur, i);
      ExpandNext(b, links, ms, i, Pos(newRow, newCol), fr, cur, links');
      if IsValid(g, links', newRow, newCol) {
        var neighbour := Pos(newRow, newCol);
        links' := links'[neighbour := Some(cur)];
        Snoc(frontier, fr, neighbour);
        frontier' := frontier' + [neighbour];
        fr := fr + [neighbour];
      }
    }
    assert ms[..4] == ms;
  }

  /**
   * One expansion keeps the frontier invariant: `cur` leaves the frontier for the finished
   * cells, and its fresh neighbours join the frontier one link deeper.
   */
  lemma FrontierStep(b: Board, start: Pos, done: seq<Pos>, pending: seq<Pos>,
                     links: map<Pos, Option<Pos>>, depth: map<Pos, nat>, cur: Pos, rest: seq<Pos>,
                     f: seq<Pos>, links': map<Pos, Option<Pos>>, depth': map<Pos, nat>)
    requires Frontier(b, start, done, pending, links, depth)
    requires pending == [cur] + rest || pending == rest + [cur]
    requires f == Fresh(b, links.Keys, Moves(cur))
    requires links' == Assign(links, f, Some(cur)) && depth' == Assign(depth, f, depth[cur] + 1)
    ensures Frontier(b, start, done + [cur], rest + f, links', depth')
  {
    TakeOne(pending, cur, rest);
    MovesCells(cur);
    FreshCells(b, links.Keys, Moves(cur));
    AssignEntries(links, f, Some(cur));
    AssignEntries(depth, f, depth[cur] + 1);
    TreeStep(b, start, links, depth, cur, f);
    OrderStep(start, done, pending, links.Keys, cur, rest, f);
    ParentsStep(links, done, cur, f, links');
  }

  /** Appending one cell to a concatenation appends it to its second part. */
  lemma Snoc(a: seq<Pos>, b: seq<Pos>, x: Pos)
    ensures (a + b) + [x] == a + (b + [x])
  {
  }

  /** A non-empty queue is its head followed by the rest. */
  lemma SplitFirst(s: seq<Pos>)
    requires s != []
    ensures s == [s[0]] + s[1..]
  {
  }

  /** A non-empty stack is what remains below its top, followed by the top. */
  lemma SplitLast(s: seq<Pos>)
    requires s != []
    ensures s == s[..|s| - 1] + [s[|s| - 1]]
  {
  }

  /** Taking one end off a repeat-free frontier leaves the rest, without that cell and without repeats. */
  lemma TakeOne(pending: seq<Pos>, cur: Pos, rest: seq<Pos>)
    requires Distinct(pending)
    requires pending == [cur] + rest || pending == rest + [cur]
    ensures cur in pending && cur !in rest && Distinct(rest)
    ensures forall v :: v in pending <==> v == cur || v in rest
  {
    if pending == [cur] + rest {
      assert forall i :: 0 <= i < |rest| ==> rest[i] == pending[i + 1];
      assert cur == pending[0];
    } else {
      assert forall i :: 0 <= i < |rest| ==> rest[i] == pending[i];
      assert cur == pending[|rest|];
    }
  }

  /** Moving `cur` from the frontier to the finished cells and appending `f` keeps both lists repeat-free and apart. */
  lemma OrderStep(start: Pos, done: seq<Pos>, pending: seq<Pos>, known: set<Pos>, cur: Pos, rest: seq<Pos>, f: seq<Pos>)
    requires forall v :: v in known <==> v in done || v in pending
    requires Distinct(done) && Distinct(rest) && Distinct(f)
    requires forall v :: v in done ==> v !in pending
    requires done == [] ==> pending == [start]
    requires done != [] ==> done[0] == start
    requires cur in pending && cur !in rest
    requires forall v :: v in pending <==> v == cur || v in rest
    requires forall v :: v in f ==> v !in known
    ensures Distinct(done + [cur]) && Distinct(rest + f)
    ensures forall v :: v in done + [cur] ==> v !in rest + f
    ensures (done + [cur])[0] == start
  {
    AppendDistinct(rest, f, known);
    AppendDistinct(done, [cur], known - {cur});
    if done == [] {
      assert cur == start;
    }
  }

  /** Giving the new cells `cur` as parent keeps every parent among the finished cells once `cur` is finished. */
  lemma ParentsStep(links: map<Pos, Option<Pos>>, done: seq<Pos>, cur: Pos, f: seq<Pos>, links': map<Pos, Option<Pos>>)
    requires forall v {:trigger links[v]} :: v in links && links[v].Some? ==> links[v].value in done
    requires links' == Assign(links, f, Some(cur))
    ensures forall v {:trigger links'[v]} :: v in links' && links'[v].Some? ==> links'[v].value in done + [cur]
  {
    AssignEntries(links, f, Some(cur));
    forall v | v in links' && links'[v].Some? ensures links'[v].value in done + [cur] {
      if v !in f {
        assert links'[v] == links[v];
      }
    }
  }

  /** Giving fresh neighbours of a discovered cell that cell as parent keeps the links a tree. */
  lemma TreeStep(b: Board, start: Pos, links: map<Pos, Option<Pos>>, depth: map<Pos, nat>, cur: Pos, f: seq<Pos>)
    requires Tree(b, start, links, depth) && cur in links
    requires forall w :: w in f ==> w !in links && Adjacent(cur, w) && Open(b, w)
    ensures Tree(b, start, Assign(links, f, Some(cur)), Assign(depth, f, depth[cur] + 1))
  {
    AssignEntries(links, f, Some(cur));
    AssignEntries(depth, f, depth[cur] + 1);
  }

  lemma AppendDistinct(a: seq<Pos>, b: seq<Pos>, known: set<Pos>)
    requires Distinct(a) && Distinct(b)
    requires forall v :: v in a ==> v in known
    requires forall v :: v in b ==> v !in known
    ensures Distinct(a + b)
  {
    forall i, j | 0 <= i < j < |a + b| ensures (a + b)[i] != (a + b)[j] {
      if i < |a| <= j {
        assert (a + b)[i] in known && (a + b)[j] == b[j - |a|];
      }
    }
  }

  /** Expanding `cur` by trying all its neighbours extends the closed part of the search by `cur`. */
  lemma ExpandCloses(b: Board, done: seq<Pos>, cur: Pos, links: map<Pos, Option<Pos>>)
    requires Closed(b, done, links)
    ensures Closed(b, done + [cur], Assign(links, Fresh(b, links.Keys, Moves(cur)), Some(cur)))
  {
    var f := Fresh(b, links.Keys, Moves(cur));
    MovesCells(cur);
    FreshCells(b, links.Keys, Moves(cur));
    AssignEntries(links, f, Some(cur));
    forall u, w | u in done + [cur] && Adjacent(u, w) && Open(b, w) ensures w in Assign(links, f, Some(cur)) {
      if u != cur {
        assert u in done && w in links;
      } else {
        assert w in Moves(cur);
      }
    }
  }

  /** Following the links from any discovered cell gives a route from the root, one cell per depth. */
  lemma {:induction false} ChainIsRoute(b: Board, start: Pos, links: map<Pos, Option<Pos>>, depth: map<Pos, nat>, v: Pos)
    requires Tree(b, start, links, depth) && v in links
    ensures IsRoute(b, Chain(links, depth, v), start, v)
    ensures |Chain(links, depth, v)| == depth[v] + 1
    ensures forall i :: 0 <= i < |Chain(links, depth, v)| ==> Chain(links, depth, v)[i] in links
    ensures forall i :: 0 <= i < |Chain(links, depth, v)| ==> depth[Chain(links, depth, v)[i]] == i
    ensures Distinct(Chain(links, depth, v))
    decreases depth[v]
  {
    var c := Chain(links, depth, v);
    match links[v]
    case None =>
      assert v == start;
    case Some(u) =>
      ChainIsRoute(b, start, links, depth, u);
      var cu := Chain(links, depth, u);
      assert c == cu + [v];
      forall i | 0 < i < |c| ensures Adjacent(c[i - 1], c[i]) && Open(b, c[i]) {
        if i < |cu| {
          assert c[i - 1] == cu[i - 1] && c[i] == cu[i];
        }
      }
      forall i | 0 <= i < |c| ensures c[i] in links && depth[c[i]] == i {
        if i < |cu| {
          assert c[i] == cu[i];
        }
      }
      forall i, j | 0 <= i < j < |c| ensures c[i] != c[j] {
        assert depth[c[i]] == i && depth[c[j]] == j;
      }
  }

  /**
   * The path reconstruction of the current-tree solvers: starting from `end`, prepend each
   * cell and move to its parent until the root's `None` is met.
   */
  method FollowParents(links: map<Pos, Option<Pos>>, ghost depth: map<Pos, nat>, end: Pos) returns (path: seq<Pos>)
    requires Shaped(links, depth) && end in links
    ensures path == Chain(links, depth, end)
  {
    path := [];
    var step: Option<Pos> := Some(end);
    while step.Some?
      invariant step.Some? ==> step.value in links && Chain(links, depth, step.value) + path == Chain(links, depth, end)
      invariant step.None? ==> path == Chain(links, depth, end)
      decreases if step.Some? then depth[step.value] + 1 else 0
    {
      var v := step.value;
      path := [v] + path;
      step := links[v];
      if step.Some? {
        assert Chain(links, depth, v) == Chain(links, depth, step.value) + [v];
      }
    }
  }

  lemma DiscoveredIsReachable(b: Board, start: Pos, links: map<Pos, Option<Pos>>, depth: map<Pos, nat>, v: Pos)
    requires Tree(b, start, links, depth) && v in links
    ensures Reachable(b, start, v)
  {
    ChainIsRoute(b, start, links, depth, v);
  }

  /** Every open neighbour of a finished cell has been discovered. */
  ghost predicate Closed(b: Board, done: seq<Pos>, links: map<Pos, Option<Pos>>)
  {
    forall u, w :: u in done && Adjacent(u, w) && Open(b, w) ==> w in links
  }

  /** Breadth-first layering: an open neighbour of a finished cell is at most one link deeper. */
  ghost predicate Layered(b: Board, done: seq<Pos>, depth: map<Pos, nat>)
  {
    forall u, w :: u in done && Adjacent(u, w) && Open(b, w) ==>
      u in depth && w in depth && depth[w] <= depth[u] + 1
  }

  /**
   * A route that starts at a discovered cell and ends outside `done` has a first cell outside
   * `done`, and that cell has been discovered.
   */
  lemma Escape(b: Board, rt: seq<Pos>, done: seq<Pos>, links: map<Pos, Option<Pos>>) returns (i: nat)
    requires |rt| > 0 && rt[0] in links && rt[|rt| - 1] !in done
    requires Linked(b, rt) && Closed(b, done, links)
    ensures i < |rt| && rt[i] in links && rt[i] !in done
    ensures forall j :: 0 <= j < i ==> rt[j] in done
  {
    i := 0;
    while rt[i] in done
      invariant i < |rt| && rt[i] in links
      invariant forall j :: 0 <= j < i ==> rt[j] in done
      decreases |rt| - i
    {
      assert Adjacent(rt[i], rt[i + 1]) && Open(b, rt[i + 1]);
      i := i + 1;
    }
  }

  /** Along a route through finished cells of a layered search, depth grows by at most one per step. */
  lemma {:induction false} LayeredDepth(b: Board, rt: seq<Pos>, done: seq<Pos>, depth: map<Pos, nat>, i: nat)
    requires i < |rt| && rt[0] in depth && Linked(b, rt) && Layered(b, done, depth)
    requires forall j :: 0 <= j < i ==> rt[j] in done
    ensures rt[i] in depth && depth[rt[i]] <= depth[rt[0]] + i
  {
    if i > 0 {
      LayeredDepth(b, rt, done, depth, i - 1);
      assert Adjacent(rt[i - 1], rt[i]) && Open(b, rt[i]);
    }
  }

  /** Once the frontier is empty, the finished cells contain every cell reachable from the root. */
  lemma ClosedCoversReachable(b: Board, start: Pos, done: seq<Pos>, links: map<Pos, Option<Pos>>)
    requires start in links && Closed(b, done, links)
    requires forall v :: v in links ==> v in done
    ensures forall v :: Reachable(b, start, v) ==> v in done
  {
    forall v | Reachable(b, start, v) ensures v in done {
      var rt :| IsRoute(b, rt, start, v);
      if v !in done {
        var i := Escape(b, rt, done, links);
      }
    }
  }

  /**
   * The breadth-first guarantee: when `target` is at the head of a layered frontier, no route
   * from the root to it has fewer cells than its depth plus one.
   */
  lemma LayeredShortest(b: Board, start: Pos, target: Pos, done: seq<Pos>, frontier: seq<Pos>,
                        links: map<Pos, Option<Pos>>, depth: map<Pos, nat>)
    requires Tree(b, start, links, depth) && Layered(b, done, depth)
    requires forall v :: v in links <==> v in done || v in frontier
    requires target in frontier && target !in done
    requires forall q :: q in frontier ==> depth[target] <= depth[q]
    ensures forall rt :: IsRoute(b, rt, start, target) ==> depth[target] + 1 <= |rt|
  {
    forall rt | IsRoute(b, rt, start, target) ensures depth[target] + 1 <= |rt| {
      assert Closed(b, done, links);
      var i := Escape(b, rt, done, links);
      LayeredDepth(b, rt, done, depth, i);
      assert rt[i] in frontier;
    }
  }

  /**
   * The loop invariant shared by the breadth- and depth-first solvers: a frontier search whose
   * finished cells have all their open neighbours discovered, that has not yet finished `end`.
   */
  ghost predicate Searching(b: Board, start: Pos, end: Pos, explored: seq<Pos>, pending: seq<Pos>,
                            links: map<Pos, Option<Pos>>, depth: map<Pos, nat>)
  {
    && Frontier(b, start, explored, pending, links, depth)
    && Closed(b, explored, links)
    && end !in explored
    && |explored| <= |Cells(b) + {start}|
  }

  /**
   * One iteration that takes `cur` off either end of the frontier, is not at `end`, and pushes
   * the fresh neighbours of `cur` keeps the invariant with one more cell finished.
   */
  lemma SearchStep(b: Board, start: Pos, end: Pos, explored: seq<Pos>, pending: seq<Pos>,
                   links: map<Pos, Option<Pos>>, depth: map<Pos, nat>, cur: Pos, rest: seq<Pos>,
                   f: seq<Pos>, pending': seq<Pos>, links': map<Pos, Option<Pos>>, depth': map<Pos, nat>)
    requires Searching(b, start, end, explored, pending, links, depth)
    requires pending == [cur] + rest || pending == rest + [cur]
    requires cur != end
    requires f == Fresh(b, links.Keys, Moves(cur)) && pending' == rest + f
    requires links' == Assign(links, f, Some(cur)) && depth' == Assign(depth, f, depth[cur] + 1)
    ensures Searching(b, start, end, explored + [cur], pending', links', depth')
  {
    FrontierStep(b, start, explored, pending, links, depth, cur, rest, f, links', depth');
    ExpandCloses(b, explored, cur, links);
    FrontierBound(b, start, explored + [cur], pending', links', depth');
  }

  /**
   * What a finished frontier search has established. The trace starts at `start`, repeats no
   * cell and holds only reachable open cells. When `end` was met it is the last cell traced and
   * the links from `end` back to the root give a repeat-free route. Otherwise the trace is
   * exactly the cells reachable from `start`, and `end` is not among them.
   */
  ghost predicate Outcome(b: Board, start: Pos, end: Pos, explored: seq<Pos>,
                          links: map<Pos, Option<Pos>>, depth: map<Pos, nat>, found: bool)
  {
    && |explored| > 0 && explored[0] == start && Distinct(explored)
    && (forall i :: 0 < i < |explored| ==> Open(b, explored[i]))
    && (forall v :: v in explored ==> Reachable(b, start, v))
    && (found ==>
      && explored[|explored| - 1] == end
      && end in links && Shaped(links, depth)
      && IsRoute(b, Chain(links, depth, end), start, end)
      && Distinct(Chain(links, depth, end))
      && (start == end ==> explored == [start] && Chain(links, depth, end) == [start]))
    && (!found ==>
      && (forall v :: v in explored <==> Reachable(b, start, v))
      && !Reachable(b, start, end) && start != end)
  }

  /** The trace of a frontier search: the root first, each cell once, only discovered cells. */
  lemma Discovered(b: Board, start: Pos, cells: seq<Pos>, links: map<Pos, Option<Pos>>, depth: map<Pos, nat>)
    requires Tree(b, start, links, depth) && Distinct(cells) && |cells| > 0 && cells[0] == start
    requires forall v :: v in cells ==> v in links
    ensures forall i :: 0 < i < |cells| ==> Open(b, cells[i])
    ensures forall v :: v in cells ==> Reachable(b, start, v)
  {
    forall v | v in cells ensures Reachable(b, start, v) {
      DiscoveredIsReachable(b, start, links, depth, v);
    }
    forall i | 0 < i < |cells| ensures Open(b, cells[i]) {
      assert cells[i] in links && cells[i] != cells[0];
    }
  }

  /** Taking `end` off the frontier finishes the search successfully. */
  lemma FoundOutcome(b: Board, start: Pos, end: Pos, explored: seq<Pos>, pending: seq<Pos>,
                     links: map<Pos, Option<Pos>>, depth: map<Pos, nat>, rest: seq<Pos>)
    requires Searching(b, start, end, explored, pending, links, depth)
    requires pending == [end] + rest || pending == rest + [end]
    ensures Outcome(b, start, end, explored + [end], links, depth, true)
  {
    TakeOne(pending, end, rest);
    AppendDistinct(explored, [end], set v | v in explored);
    ChainIsRoute(b, start, links, depth, end);
    Discovered(b, start, explored + [end], links, depth);
    if start == end {
      assert explored == [];
    }
  }

  /** An empty frontier finishes the search unsuccessfully, with every reachable cell traced. */
  lemma ExhaustedOutcome(b: Board, start: Pos, end: Pos, explored: seq<Pos>,
                         links: map<Pos, Option<Pos>>, depth: map<Pos, nat>)
    requires Searching(b, start, end, explored, [], links, depth)
    ensures Outcome(b, start, end, explored, links, depth, false)
  {
    ClosedCoversReachable(b, start, explored, links);
    Discovered(b, start, explored, links, depth);
  }

  /**
   * What a current-tree solver reports once its loop has ended: the trace as explored and, when
   * `end` was reached, the chain of links back from it, else an empty path.
   */
  lemma Report(b: Board, start: Pos, end: Pos, explored: seq<Pos>, links: map<Pos, Option<Pos>>,
               depth: map<Pos, nat>, found: bool, res: SolveResult)
    requires Outcome(b, start, end, explored, links, depth, found)
    requires res.exploredCells == explored
    requires res.solutionPath == if found then Chain(links, depth, end) else []
    ensures |res.exploredCells| > 0 && res.exploredCells[0] == start
    ensures Distinct(res.exploredCells)
    ensures forall i :: 0 < i < |res.exploredCells| ==> Open(b, res.exploredCells[i])
    ensures forall v :: v in res.exploredCells ==> Reachable(b, start, v)
    ensures IsSolutionFound(res) <==> Reachable(b, start, end)
    ensures IsSolutionFound(res) ==>
      && res.exploredCells[|res.exploredCells| - 1] == end
      && IsRoute(b, res.solutionPath, start, end)
      && Distinct(res.solutionPath)
    ensures !IsSolutionFound(res) ==>
      && res.solutionPath == []
      && forall v :: v in res.exploredCells <==> Reachable(b, start, v)
    ensures start == end ==> res == SolveResult([start], [start])
  {
  }
}
