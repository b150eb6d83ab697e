/** The older tree's depth-first solver: a LIFO stack, a `visited` matrix and a parent map; it returns only the path. */
module LegacyDfs {
  import opened Grid
  import opened Search
  import opened LegacySearch
  import DfsSolver

  /**
   * The search loop: marks `start` visited, then pops the top of the stack until `end` is
   * popped or the stack runs dry. The ghost `explored` is the order in which cells were
   * popped, and `known` and `pushed` witness its depth-first order; the older tree records
   * none of them.
   */
  method Explore(g: array2<CellState>, ghost b: Board, start: Pos, end: Pos)
    returns (parents: map<Pos, Pos>, ghost links: map<Pos, Option<Pos>>, ghost depth: map<Pos, nat>,
             found: bool, ghost explored: seq<Pos>, ghost known: seq<set<Pos>>, ghost pushed: seq<seq<Pos>>)
    requires Depicts(g, b) && Inside(g, start)
    ensures Outcome(b, start, end, explored, links, depth, found)
    ensures DfsSolver.PopOrder(b, start, explored, known, pushed)
    ensures Mirrors(parents, links, start)
  {
    var visited := new bool[g.Length0, g.Length1]((r, c) => false);
    var stack: seq<Pos> := [start];
    visited[start.row, start.col] := true;
    parents := map[];
    links := map[start := None];
    explored := [];
    depth := map[start := 0];
    known, pushed := [{start}], [];
    found := false;
    ghost var done := explored;
    DfsSolver.Initial(b, start, end);

    while stack != []
      invariant DfsSolver.Invariant(b, start, end, explored, stack, links, depth, known, pushed)
      invariant Marks(g, visited, links) && Mirrors(parents, links, start)
      invariant !found
      decreases |Cells(b) + {start}| - |explored|
    {
      ghost var pending := stack;
      done := explored;
      var cur := stack[|stack| - 1];
      stack := stack[..|stack| - 1];
      explored := explored + [cur];
      if cur == end {
        DfsSolver.Found(b, start, end, done, pending, links, depth, known, pushed);
        found := true;
        break;
      }
      ghost var links0 := links;
      stack, parents := LegacySearch.Expand(g, b, visited, cur, stack, parents, links, start);
      ghost var f := Fresh(b, links0.Keys, Moves(cur));
      links := Assign(links0, f, Some(cur));
      ghost var depth' := Assign(depth, f, depth[cur] + 1);
      DfsSolver.Step(b, start, end, done, pending, links0, depth, known, pushed, cur, f, stack, links, depth');
      depth, known, pushed := depth', known + [links.Keys], pushed + [f];
    }
    if !found {
      DfsSolver.Exhausted(b, start, end, explored, links, depth, known, pushed);
    }
  }

  /**
   * Depth-first search from `start` to `end`, returning a route as a list of cells, or an
   * empty list when there is none. The grid is only read; `start` must lie inside it, since
   * the source marks it in `visited` before anything else.
   */
  method Solve(g: array2<CellState>, start: Pos, end: Pos) returns (path: seq<Pos>)
    requires Inside(g, start)
    ensures var b := Snapshot(g);
      && (path != [] <==> Reachable(b, start, end))
      && (path != [] ==> IsRoute(b, path, start, end) && Distinct(path))
      && (start == end ==> path == [start])
  {
    ghost var b := Snapshot(g);
    SnapshotDepicts(g);
    var parents, found;
    ghost var links, depth, explored, known, pushed;
    parents, links, depth, found, explored, known, pushed := Explore(g, b, start, end);
    path := [];
    if found {
      path := ReconstructPath(parents, links, depth, start, end, true);
    }
    LegacySearch.Report(b, start, end, explored, links, depth, found, path);
  }
}
