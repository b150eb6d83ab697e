/** The older tree's breadth-first solver: a FIFO queue, a `visited` matrix and a parent map; it returns only the path. */
module LegacyBfs {
  import opened Grid
  import opened Search
  import opened LegacySearch
  import BfsSolver

  /**
   * The search loop: marks `start` visited, then takes cells off the front of the queue until
   * `end` comes off or the queue runs dry. The ghost `explored` is the order in which cells
   * came off the queue; the older tree does not record it.
   */
  method Explore(g: array2<CellState>, ghost b: Board, start: Pos, end: Pos)
    returns (parents: map<Pos, Pos>, ghost links: map<Pos, Option<Pos>>, ghost depth: map<Pos, nat>,
             found: bool, ghost explored: seq<Pos>)
    requires Depicts(g, b) && Inside(g, start)
    ensures Outcome(b, start, end, explored, links, depth, found)
    ensures found ==> BfsSolver.ShortestChain(b, start, end, links, depth)
    ensures Mirrors(parents, links, start)
  {
    var visited := new bool[g.Length0, g.Length1]((r, c) => false);
    var queue: seq<Pos> := [start];
    visited[start.row, start.col] := true;
    parents := map[];
    links := map[start := None];
    explored := [];
    depth := map[start := 0];
    ghost var lvl: nat := 0;
    found := false;
    ghost var done := explored;
    BfsSolver.Initial(b, start, end);

    while queue != []
      invariant BfsSolver.Invariant(b, start, end, explored, queue, links, depth, lvl)
      invariant Marks(g, visited, links) && Mirrors(parents, links, start)
      invariant !found
      decreases |Cells(b) + {start}| - |explored|
    {
      ghost var pending := queue;
      done := explored;
      var cur := queue[0];
      queue := queue[1..];
      explored := explored + [cur];
      if cur == end {
        BfsSolver.Found(b, start, end, done, pending, links, depth, lvl);
        found := true;
        break;
      }
      ghost var links0 := links;
      queue, parents := LegacySearch.Expand(g, b, visited, cur, queue, parents, links, start);
      ghost var f := Fresh(b, links0.Keys, Moves(cur));
      links := Assign(links0, f, Some(cur));
      ghost var depth' := Assign(depth, f, depth[cur] + 1);
      BfsSolver.Step(b, start, end, done, pending, links0, depth, lvl, cur, f, queue, links, depth');
      depth, lvl := depth', depth[cur];
    }
    if !found {
      ExhaustedOutcome(b, start, end, explored, links, depth);
    }
  }

  /**
   * Breadth-first search from `start` to `end`, returning a shortest route as a list of cells,
   * or an empty list when there is none. The grid is only read; `start` must lie inside it,
   * since the source marks it in `visited` before anything else.
   */
  method Solve(g: array2<CellState>, start: Pos, end: Pos) returns (path: seq<Pos>)
    requires Inside(g, start)
    ensures var b := Snapshot(g);
      && (path != [] <==> Reachable(b, start, end))
      && (path != [] ==> IsRoute(b, path, start, end) && Distinct(path))
      && (path != [] ==> forall rt :: IsRoute(b, rt, start, end) ==> |path| <= |rt|)
      && (start == end ==> path == [start])
  {
    ghost var b := Snapshot(g);
    SnapshotDepicts(g);
    var parents, found;
    ghost var links, depth, explored;
    parents, links, depth, found, explored := Explore(g, b, start, end);
    path := [];
    if found {
      path := ReconstructPath(parents, links, depth, start, end, false);
    }
    LegacySearch.Report(b, start, end, explored, links, depth, found, path);
  }
}
