/**
 * The older tree's maze panel, reduced to what it does to the grid: `drawSolution` marks the
 * cells of a path and `clearSolution` removes those marks. A path cell is the grid cell at its
 * coordinates, as every path the older solvers return is made of the grid's own cells.
 */
module LegacyPanel {
  import opened Grid

  /** What `drawSolution` does to a cell on the path: PATH becomes SOLUTION, every other state stays. */
  function Drawn(s: CellState): CellState {
    if s == Path then Solution else s
  }

  /** What `clearSolution` does to a cell: SOLUTION becomes PATH, every other state (VISITED too) stays. */
  function Undrawn(s: CellState): CellState {
    if s == Solution then Path else s
  }

  /** The board after `drawSolution(path)`. */
  function DrawnOn(b: Board, path: seq<Pos>): (b': Board)
    ensures |b'| == |b| && forall r :: 0 <= r < |b| ==> |b'[r]| == |b[r]|
  {
    seq(|b|, r requires 0 <= r < |b| =>
      seq(|b[r]|, c requires 0 <= c < |b[r]| => if Pos(r, c) in path then Drawn(b[r][c]) else b[r][c]))
  }

  /** The board after `clearSolution()`. */
  function UndrawnAll(b: Board): (b': Board)
    ensures |b'| == |b| && forall r :: 0 <= r < |b| ==> |b'[r]| == |b[r]|
  {
    seq(|b|, r requires 0 <= r < |b| => seq(|b[r]|, c requires 0 <= c < |b[r]| => Undrawn(b[r][c])))
  }

  /**
   * Drawing turns exactly the PATH cells on the path into SOLUTION; START, END, WALL, VISITED
   * and SOLUTION cells on the path, and every cell off it, keep their states.
   */
  lemma DrawnCells(b: Board, path: seq<Pos>)
    ensures forall q :: Within(b, q) <==> Within(DrawnOn(b, path), q)
    ensures forall q :: Within(b, q) && q in path && At(b, q) == Path ==> At(DrawnOn(b, path), q) == Solution
    ensures forall q :: Within(b, q) && (q !in path || At(b, q) != Path) ==> At(DrawnOn(b, path), q) == At(b, q)
  {
  }

  /** Clearing turns exactly the SOLUTION cells into PATH and leaves every other cell as it was. */
  lemma UndrawnCells(b: Board)
    ensures forall q :: Within(b, q) <==> Within(UndrawnAll(b), q)
    ensures forall q :: Within(b, q) && At(b, q) == Solution ==> At(UndrawnAll(b), q) == Path
    ensures forall q :: Within(b, q) && At(b, q) != Solution ==> At(UndrawnAll(b), q) == At(b, q)
  {
  }

  /** An empty path draws nothing. */
  lemma DrawnNothing(b: Board)
    ensures DrawnOn(b, []) == b
  {
    forall r | 0 <= r < |b| ensures DrawnOn(b, [])[r] == b[r] {
    }
  }

  /** Drawing the same path twice draws it once. */
  lemma DrawnTwice(b: Board, path: seq<Pos>)
    ensures DrawnOn(DrawnOn(b, path), path) == DrawnOn(b, path)
  {
    var d := DrawnOn(b, path);
    forall r | 0 <= r < |b| ensures DrawnOn(d, path)[r] == d[r] {
      assert forall k :: 0 <= k < |b[r]| ==> DrawnOn(d, path)[r][k] == d[r][k];
    }
  }

  /** Clearing a second time changes nothing. */
  lemma UndrawnTwice(b: Board)
    ensures UndrawnAll(UndrawnAll(b)) == UndrawnAll(b)
  {
    var u := UndrawnAll(b);
    forall r | 0 <= r < |b| ensures UndrawnAll(u)[r] == u[r] {
      assert forall k :: 0 <= k < |b[r]| ==> UndrawnAll(u)[r][k] == u[r][k];
    }
  }

  /** No cell of the board is a SOLUTION cell. */
  predicate Unmarked(b: Board) {
    forall r, c :: 0 <= r < |b| && 0 <= c < |b[r]| ==> b[r][c] != Solution
  }

  /** On a board without SOLUTION cells, drawing a path and then clearing gives the board back. */
  lemma DrawThenClear(b: Board, path: seq<Pos>)
    requires Unmarked(b)
    ensures UndrawnAll(DrawnOn(b, path)) == b
  {
    var u := UndrawnAll(DrawnOn(b, path));
    forall r | 0 <= r < |b| ensures u[r] == b[r] {
      assert forall k :: 0 <= k < |b[r]| ==> u[r][k] == b[r][k];
    }
  }

  /** Clearing leaves a board without SOLUTION cells. */
  lemma UndrawnUnmarked(b: Board)
    ensures Unmarked(UndrawnAll(b))
  {
  }

  class MazePanel {
    var maze: array2?<CellState>

    constructor ()
      ensures maze == null
    {
      maze := null;
    }

    /** `setMaze`: the panel now shows `g`. */
    method SetMaze(g: array2?<CellState>)
      modifies this`maze
      ensures maze == g
    {
      maze := g;
    }

    /**
     * `drawSolution(path)`: nothing happens without a maze or with an empty path; otherwise
     * every PATH cell on the path becomes SOLUTION and nothing else changes.
     */
    method DrawSolution(path: seq<Pos>)
      modifies maze
      ensures maze != null ==> Snapshot(maze) == DrawnOn(old(Snapshot(maze)), path)
    {
      if maze == null || |path| == 0 {
        if maze != null {
          DrawnNothing(Snapshot(maze));
        }
        return;
      }
      ghost var b := Snapshot(maze);
      SnapshotDepicts(maze);
      for i := 0 to |path|
        invariant forall r, c {:trigger maze[r, c]} :: 0 <= r < maze.Length0 && 0 <= c < maze.Length1 ==>
          maze[r, c] == if Pos(r, c) in path[..i] then Drawn(b[r][c]) else b[r][c]
      {
        var cell := path[i];
        assert forall q :: q in path[..i + 1] <==> q in path[..i] || q == cell by {
          assert path[..i + 1] == path[..i] + [cell];
        }
        if Inside(maze, cell) && maze[cell.row, cell.col] == Path {
          maze[cell.row, cell.col] := Solution;
        }
      }
      assert path[..|path|] == path;
      ghost var b' := DrawnOn(b, path);
      assert Depicts(maze, b');
      SnapshotDepicts(maze);
      SameBoard(maze, b', Snapshot(maze));
    }

    /** `clearSolution()`: nothing happens without a maze; otherwise every SOLUTION cell becomes PATH. */
    method ClearSolution()
      modifies maze
      ensures maze != null ==> Snapshot(maze) == UndrawnAll(old(Snapshot(maze)))
    {
      if maze == null {
        return;
      }
      ghost var b := Snapshot(maze);
      SnapshotDepicts(maze);
      for r := 0 to maze.Length0
        invariant forall i, j {:trigger maze[i, j]} :: 0 <= i < maze.Length0 && 0 <= j < maze.Length1 ==>
          maze[i, j] == if i < r then Undrawn(b[i][j]) else b[i][j]
      {
        for c := 0 to maze.Length1
          invariant forall i, j {:trigger maze[i, j]} :: 0 <= i < maze.Length0 && 0 <= j < maze.Length1 ==>
            maze[i, j] == if i < r || (i == r && j < c) then Undrawn(b[i][j]) else b[i][j]
        {
          if maze[r, c] == Solution {
            maze[r, c] := Path;
          }
        }
      }
      ghost var b' := UndrawnAll(b);
      assert Depicts(maze, b');
      SnapshotDepicts(maze);
      SameBoard(maze, b', Snapshot(maze));
    }
  }
}
