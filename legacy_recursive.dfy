/**
 * The older tree's two recursive solvers: the same recursions as the current tree's, keeping
 * only the path. `solve` returns the path when the recursion succeeds and an empty list
 * otherwise.
 */
module LegacyRecursive {
  import opened Grid
  import opened Recursive

  /** The down-then-right solver, whose marks stay set. */
  class DownRightSolver {
    var maze: array2<CellState>
    var visited: array2<bool>
    var path: seq<Pos>

    constructor ()
      ensures path == []
    {
      maze := new CellState[0, 0];
      visited := new bool[0, 0];
      path := [];
    }

    /** The recursion on `(row, col)`: leaves the path it found in `path` and returns whether it found `end`. */
    method FindPath(row: int, col: int, end: Pos, ghost b: Board, ghost vis: set<Pos>) returns (found: bool)
      modifies this`path, visited
      requires Depicts(maze, b) && Tracks(maze, visited, vis) && path == []
      ensures var t := Descend(b, vis, Pos(row, col), end);
        && found == t.found
        && path == t.path
        && Tracks(maze, visited, t.visited)
      decreases |Descend(b, vis, Pos(row, col), end).explored|
    {
      var current := Pos(row, col);
      OpenCell(maze, b, current);
      if row < 0 || row >= maze.Length0 || col < 0 || col >= maze.Length1 {
        DescendStop(b, vis, current, end);
        return false;
      }
      if maze[row, col] == Wall || visited[row, col] {
        DescendStop(b, vis, current, end);
        return false;
      }
      Mark(maze, visited, vis, current);
      if current == end {
        DescendHit(b, vis, current, end);
        path := path + [current];
        return true;
      }
      DescendShorter(b, vis, current, end);
      ghost var d := Descend(b, vis + {current}, Down(current), end);
      var below := FindPath(row + 1, col, end, b, vis + {current});
      if below {
        DescendBelow(b, vis, current, end, d);
        path := [current] + path;
        return true;
      }
      ghost var r := Descend(b, d.visited, Right(current), end);
      DescendBeside(b, vis, current, end, d, r);
      found := FindPath(row, col + 1, end, b, d.visited);
      if found {
        path := [current] + path;
      }
    }

    /**
     * Resets the fields for `g` and runs the recursion from `start`: a down/right route of
     * open cells from `start` to `end` when one exists, else an empty list.
     */
    method Solve(g: array2<CellState>, start: Pos, end: Pos) returns (result: seq<Pos>)
      modifies this
      ensures var b := Snapshot(g);
        && result == Descend(b, {}, start, end).path
        && (result != [] <==> MonoReachable(b, start, end))
        && (result != [] ==>
              && MonoRoute(b, result, start, end)
              && |result| == (end.row - start.row) + (end.col - start.col) + 1)
        && (end.row < start.row || end.col < start.col ==> result == [])
    {
      ghost var b := Snapshot(g);
      SnapshotDepicts(g);
      maze := g;
      visited := Unmarked(g);
      path := [];
      var found := FindPath(start.row, start.col, end, b, {});
      if found {
        result := path;
      } else {
        result := [];
      }
      DescendResult(b, start, end);
    }
  }

  /** The four-direction solver that clears a cell's mark when every direction from it fails. */
  class BacktrackSolver {
    var maze: array2<CellState>
    var visited: array2<bool>
    var path: seq<Pos>

    constructor ()
      ensures path == []
    {
      maze := new CellState[0, 0];
      visited := new bool[0, 0];
      path := [];
    }

    /**
     * The recursion on `(row, col)`: leaves the path it found in `path` and returns whether it
     * found `end`; a failed call leaves `visited` as it found it.
     */
    method FindPath(row: int, col: int, end: Pos, ghost b: Board, ghost vis: set<Pos>) returns (found: bool)
      modifies this`path, visited
      requires Depicts(maze, b) && Tracks(maze, visited, vis) && path == []
      ensures var t := Back(b, vis, Pos(row, col), end);
        && found == t.found
        && path == t.path
        && (found ==> Tracks(maze, visited, t.visited))
        && (!found ==> Tracks(maze, visited, vis))
      decreases |Back(b, vis, Pos(row, col), end).explored|
    {
      var current := Pos(row, col);
      OpenCell(maze, b, current);
      if row < 0 || row >= maze.Length0 || col < 0 || col >= maze.Length1 {
        BackStop(b, vis, current, end);
        return false;
      }
      if maze[row, col] == Wall || visited[row, col] {
        BackStop(b, vis, current, end);
        return false;
      }
      Mark(maze, visited, vis, current);
      if current == end {
        BackHit(b, vis, current, end);
        path := path + [current];
        return true;
      }
      ghost var w := vis + {current};
      ghost var acc: seq<Pos> := [];
      BackAround(b, vis, current, end, Try(b, w, current, end, 0));
      for i := 0 to 4
        invariant Tracks(maze, visited, w) && path == []
        invariant Try(b, w, current, end, 0) == After(acc, Try(b, w, current, end, i))
      {
        TryCovers(b, w, current, end, i);
        var f := FindPath(row + BR[i], col + BC[i], end, b, w);
        if f {
          path := [current] + path;
          return true;
        }
        AfterNext(b, w, current, end, i, acc);
        acc := acc + Back(b, w, Dir(current, i), end).explored;
      }
      Unmark(maze, visited, vis, current);
      return false;
    }

    /**
     * Resets the fields for `g` and runs the recursion from `start`: a route of open cells
     * without repeats from `start` to `end` whenever `start` is open and `end` reachable, else
     * an empty list.
     */
    method Solve(g: array2<CellState>, start: Pos, end: Pos) returns (result: seq<Pos>)
      modifies this
      ensures var b := Snapshot(g);
        && result == Back(b, {}, start, end).path
        && (result != [] <==> Open(b, start) && Reachable(b, start, end))
        && (result != [] ==> IsOpenRoute(b, result, start, end) && Distinct(result))
    {
      ghost var b := Snapshot(g);
      SnapshotDepicts(g);
      maze := g;
      visited := Unmarked(g);
      path := [];
      var found := FindPath(start.row, start.col, end, b, {});
      if found {
        result := path;
      } else {
        result := [];
      }
      BackResult(b, start, end);
    }
  }
}
