/**
 * The current tree's two recursive solvers. Each keeps the maze, a `visited` matrix and the
 * two result lists in fields; `Solve` resets all four and calls `FindPath` once on `start`.
 */
module RecursiveSolvers {
  import opened Grid
  import opened Recursive
  import opened SolveResults

  lemma Assoc(a: seq<Pos>, b: seq<Pos>, c: seq<Pos>)
    ensures (a + b) + c == a + (b + c)
  {
  }

  /** The call in each direction records fewer cells than the call around it. */
  lemma CallShrinks(b: Board, vis: set<Pos>, p: Pos, end: Pos, i: nat, acc: seq<Pos>)
    requires Open(b, p) && p !in vis && p != end && i < 4
    requires Try(b, vis + {p}, p, end, 0) == After(acc, Try(b, vis + {p}, p, end, i))
    ensures |Back(b, vis + {p}, Dir(p, i), end).explored| < |Back(b, vis, p, end).explored|
  {
    TryCovers(b, vis + {p}, p, end, i);
    BackAround(b, vis, p, end, Try(b, vis + {p}, p, end, 0));
  }

  /** A direction that succeeds ends the backtracking call with its path and its record after what came before. */
  lemma FoundRecorded(b: Board, vis: set<Pos>, p: Pos, end: Pos, i: nat, acc: seq<Pos>, c: Trail, old0: seq<Pos>)
    requires Open(b, p) && p !in vis && p != end && i < 4
    requires Try(b, vis + {p}, p, end, 0) == After(acc, Try(b, vis + {p}, p, end, i))
    requires c == Back(b, vis + {p}, Dir(p, i), end) && c.found
    ensures var t := Back(b, vis, p, end);
      && t.found && t.visited == c.visited && t.path == [p] + c.path
      && old0 + [p] + acc + c.explored == old0 + t.explored
  {
    AroundFound(b, vis, p, end, i, acc, c);
    Assoc(old0 + [p], acc, c.explored);
    Assoc(old0, [p], acc + c.explored);
  }

  /** A direction that fails adds its record to what came before and leaves the rest of the loop to decide. */
  lemma FailedRecorded(b: Board, w: set<Pos>, p: Pos, end: Pos, i: nat, acc: seq<Pos>, c: Trail, old0: seq<Pos>)
    requires i < 4 && c == Back(b, w, Dir(p, i), end) && !c.found
    requires Try(b, w, p, end, 0) == After(acc, Try(b, w, p, end, i))
    ensures Try(b, w, p, end, 0) == After(acc + c.explored, Try(b, w, p, end, i + 1))
    ensures old0 + [p] + acc + c.explored == old0 + [p] + (acc + c.explored)
  {
    AfterNext(b, w, p, end, i, acc);
    Assoc(old0 + [p], acc, c.explored);
  }

  /** The down-then-right solver, whose marks stay set. */
  class DownRightSolver {
    var maze: array2<CellState>
    var visited: array2<bool>
    var solutionPath: seq<Pos>
    var exploredOrder: seq<Pos>

    constructor ()
      ensures solutionPath == [] && exploredOrder == []
    {
      maze := new CellState[0, 0];
      visited := new bool[0, 0];
      solutionPath, exploredOrder := [], [];
    }

    /**
     * The recursion on `(row, col)`: appends what it marks to `exploredOrder`, leaves the path
     * it found in `solutionPath` (which all callers leave empty before a call), and returns
     * whether it found `end`; the marks it leaves are those of `Descend`.
     */
    method FindPath(row: int, col: int, end: Pos, ghost b: Board, ghost vis: set<Pos>) returns (found: bool)
      modifies this`solutionPath, this`exploredOrder, visited
      requires Depicts(maze, b) && Tracks(maze, visited, vis) && solutionPath == []
      ensures var t := Descend(b, vis, Pos(row, col), end);
        && found == t.found
        && exploredOrder == old(exploredOrder) + t.explored
        && solutionPath == t.path
        && Tracks(maze, visited, t.visited)
      decreases |Descend(b, vis, Pos(row, col), end).explored|
    {
      var current := Pos(row, col);
      OpenCell(maze, b, current);
      if row < 0 || row >= maze.Length0 || col < 0 || col >= maze.Length1 {
        DescendStop(b, vis, current, end);
        return false;
      }
      if maze[row, col] == Wall || visited[row, col] {
        DescendStop(b, vis, current, end);
        return false;
      }
      Mark(maze, visited, vis, current);
      exploredOrder := exploredOrder + [current];
      if current == end {
        DescendHit(b, vis, current, end);
        solutionPath := solutionPath + [current];
        return true;
      }
      ghost var old0 := old(exploredOrder);
      DescendShorter(b, vis, current, end);
      found := FindPath(row + 1, col, end, b, vis + {current});
      ghost var d := Descend(b, vis + {current}, Down(current), end);
      Assoc(old0, [current], d.explored);
      if found {
        DescendBelow(b, vis, current, end, d);
        solutionPath := [current] + solutionPath;
        return true;
      }
      found := FindPath(row, col + 1, end, b, d.visited);
      ghost var r := Descend(b, d.visited, Right(current), end);
      DescendBeside(b, vis, current, end, d, r);
      Assoc(old0 + [current], d.explored, r.explored);
      Assoc(old0, [current] + d.explored, r.explored);
      if found {
        solutionPath := [current] + solutionPath;
      }
    }

    /**
     * Resets the fields for `g` and runs the recursion from `start`. The result depends on the
     * grid's contents, `start` and `end` alone, never on an earlier call.
     */
    method Solve(g: array2<CellState>, start: Pos, end: Pos) returns (res: SolveResult)
      modifies this
      ensures var b := Snapshot(g); var t := Descend(b, {}, start, end);
        && res == SolveResult(t.explored, t.path)
        && Distinct(t.explored)
        && (forall i :: 0 <= i < |t.explored| ==> Open(b, t.explored[i]))
        && (t.explored != [] <==> Open(b, start))
        && (t.explored != [] ==> t.explored[0] == start)
        && (t.found <==> MonoReachable(b, start, end))
        && (t.found <==> t.path != [])
        && (t.found ==> MonoRoute(b, t.path, start, end) && IsOpenRoute(b, t.path, start, end)
                        && |t.path| == (end.row - start.row) + (end.col - start.col) + 1
                        && t.explored[|t.explored| - 1] == end)
        && (end.row < start.row || end.col < start.col ==> t.path == [])
    {
      ghost var b := Snapshot(g);
      SnapshotDepicts(g);
      maze := g;
      visited := Unmarked(g);
      solutionPath, exploredOrder := [], [];
      var _ := FindPath(start.row, start.col, end, b, {});
      res := SolveResult(exploredOrder, solutionPath);
      assert Snapshot(g) == b by { SnapshotDepicts(g); SameBoard(g, b, Snapshot(g)); }
      DescendResult(b, start, end);
    }
  }

  /** The four-direction solver that clears a cell's mark when every direction from it fails. */
  class BacktrackSolver {
    var maze: array2<CellState>
    var visited: array2<bool>
    var solutionPath: seq<Pos>
    var exploredOrder: seq<Pos>

    constructor ()
      ensures solutionPath == [] && exploredOrder == []
    {
      maze := new CellState[0, 0];
      visited := new bool[0, 0];
      solutionPath, exploredOrder := [], [];
    }

    /**
     * The recursion on `(row, col)`: appends what it marks to `exploredOrder`, leaves the path
     * it found in `solutionPath`, and returns whether it found `end`; a failed call leaves
     * `visited` as it found it.
     */
    method FindPath(row: int, col: int, end: Pos, ghost b: Board, ghost vis: set<Pos>) returns (found: bool)
      modifies this`solutionPath, this`exploredOrder, visited
      requires Depicts(maze, b) && Tracks(maze, visited, vis) && solutionPath == []
      ensures var t := Back(b, vis, Pos(row, col), end);
        && found == t.found
        && exploredOrder == old(exploredOrder) + t.explored
        && solutionPath == t.path
        && (found ==> Tracks(maze, visited, t.visited))
        && (!found ==> Tracks(maze, visited, vis))
      decreases |Back(b, vis, Pos(row, col), end).explored|
    {
      var current := Pos(row, col);
      OpenCell(maze, b, current);
      if row < 0 || row >= maze.Length0 || col < 0 || col >= maze.Length1 {
        BackStop(b, vis, current, end);
        return false;
      }
      if maze[row, col] == Wall || visited[row, col] {
        BackStop(b, vis, current, end);
        return false;
      }
      Mark(maze, visited, vis, current);
      exploredOrder := exploredOrder + [current];
      if current == end {
        BackHit(b, vis, current, end);
        solutionPath := solutionPath + [current];
        return true;
      }
      ghost var old0 := old(exploredOrder);
      ghost var w := vis + {current};
      ghost var acc: seq<Pos> := [];
      BackAround(b, vis, current, end, Try(b, w, current, end, 0));
      for i := 0 to 4
        invariant Tracks(maze, visited, w) && solutionPath == []
        invariant exploredOrder == old0 + [current] + acc
        invariant Try(b, w, current, end, 0) == After(acc, Try(b, w, current, end, i))
      {
        CallShrinks(b, vis, current, end, i, acc);
        var f := FindPath(row + BR[i], col + BC[i], end, b, w);
        ghost var c := Back(b, w, Dir(current, i), end);
        if f {
          FoundRecorded(b, vis, current, end, i, acc, c, old0);
          solutionPath := [current] + solutionPath;
          return true;
        }
        FailedRecorded(b, w, current, end, i, acc, c, old0);
        acc := acc + c.explored;
      }
      AroundFailed(b, vis, current, end, acc);
      Assoc(old0, [current], acc);
      Unmark(maze, visited, vis, current);
      return false;
    }

    /**
     * Resets the fields for `g` and runs the recursion from `start`. The result depends on the
     * grid's contents, `start` and `end` alone, never on an earlier call.
     */
    method Solve(g: array2<CellState>, start: Pos, end: Pos) returns (res: SolveResult)
      modifies this
      ensures var b := Snapshot(g); var t := Back(b, {}, start, end);
        && res == SolveResult(t.explored, t.path)
        && (forall i :: 0 <= i < |t.explored| ==> Open(b, t.explored[i]))
        && (t.explored != [] <==> Open(b, start))
        && (t.explored != [] ==> t.explored[0] == start)
        && (t.found <==> Open(b, start) && Reachable(b, start, end))
        && (t.found <==> t.path != [])
        && (t.found ==> IsOpenRoute(b, t.path, start, end) && Distinct(t.path)
                        && t.explored[|t.explored| - 1] == end)
    {
      ghost var b := Snapshot(g);
      SnapshotDepicts(g);
      maze := g;
      visited := Unmarked(g);
      solutionPath, exploredOrder := [], [];
      var _ := FindPath(start.row, start.col, end, b, {});
      res := SolveResult(exploredOrder, solutionPath);
      assert Snapshot(g) == b by { SnapshotDepicts(g); SameBoard(g, b, Snapshot(g)); }
      BackResult(b, start, end);
    }
  }
}
