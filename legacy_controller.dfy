/**
 * The older tree's controller, reduced to the logic around solving: finding the START and END
 * cells, reading the size chosen in the size box, and the checks `solveMaze` makes before it
 * runs a solver and draws the path.
 */
module LegacyController {
  import opened Grid
  import opened JavaText
  import opened LegacyPanel
  import LegacyBfs
  import LegacyDfs

  // ----- finding a cell by state -------------------------------------------------------------

  /** `p` comes before `q` in row-major order. */
  predicate Earlier(p: Pos, q: Pos) {
    p.row < q.row || (p.row == q.row && p.col < q.col)
  }

  /** `p` holds `s`, and no cell before it in row-major order does. */
  ghost predicate FirstWith(b: Board, s: CellState, p: Pos) {
    && Within(b, p) && At(b, p) == s
    && forall q :: Within(b, q) && Earlier(q, p) ==> At(b, q) != s
  }

  /** No cell holds `s`. */
  ghost predicate Without(b: Board, s: CellState) {
    forall q :: Within(b, q) ==> At(b, q) != s
  }

  /** There is at most one first cell with a given state. */
  lemma FirstUnique(b: Board, s: CellState, p: Pos, p': Pos)
    requires FirstWith(b, s, p) && FirstWith(b, s, p')
    ensures p == p'
  {
    assert !Earlier(p, p') && !Earlier(p', p);
  }

  /**
   * `findCell`: the first cell in row-major order whose state is `state`, or nothing when no
   * cell has it.
   */
  method FindCell(g: array2<CellState>, state: CellState) returns (cell: Option<Pos>)
    ensures cell.Some? ==> FirstWith(Snapshot(g), state, cell.value)
    ensures cell.None? <==> Without(Snapshot(g), state)
  {
    ghost var b := Snapshot(g);
    for r := 0 to g.Length0
      invariant forall i, j {:trigger g[i, j]} :: 0 <= i < r && 0 <= j < g.Length1 ==> g[i, j] != state
    {
      for c := 0 to g.Length1
        invariant forall i, j {:trigger g[i, j]} :: 0 <= i < g.Length0 && 0 <= j < g.Length1 && (i < r || (i == r && j < c)) ==> g[i, j] != state
      {
        if g[r, c] == state {
          cell := Some(Pos(r, c));
          assert forall q :: Within(b, q) && Earlier(q, cell.value) ==> Inside(g, q) && g[q.row, q.col] != state;
          return;
        }
      }
    }
    assert forall q :: Within(b, q) ==> Inside(g, q) && g[q.row, q.col] != state;
    cell := None;
  }

  // ----- the size box ------------------------------------------------------------------------

  /**
   * What `getSelectedSize` makes of the chosen text: the number before the first `x`, or the
   * exception it raises, a `NumberFormatException` when that piece is not an `int` or an
   * `ArrayIndexOutOfBoundsException` when `split` leaves no piece at all.
   */
  datatype Selection = Size(n: Int32) | NotANumber | NoPieces

  /** `getSelectedSize`: `Integer.parseInt(selected.split("x")[0])`. */
  function SelectedSize(selected: string): (s: Selection)
    ensures 'x' !in selected ==> s == (if ParseInt(selected).Number? then Size(ParseInt(selected).value) else NotANumber)
  {
    var parts := Split(selected, 'x');
    if |parts| == 0 then NoPieces
    else
      var v := ParseInt(parts[0]);
      if v.Number? then Size(v.value) else NotANumber
  }

  /** Only the text before the first `x` counts, whenever there is some. */
  lemma SizeBeforeX(head: string, rest: string)
    requires head != [] && 'x' !in head
    ensures SelectedSize(head + "x" + rest) == SelectedSize(head)
  {
    var s := head + "x" + rest;
    assert s[|head|] == 'x';
    FieldsJoin(head, rest, 'x');
    FieldsOne(head, 'x');
    var f := Fields(s, 'x');
    assert f[0] == head;
    var parts := Split(s, 'x');
    assert |parts| > 0 && parts[0] == head;
  }

  /** A label `NxN` selects `N`, as `20x20` selects 20. */
  lemma SquareLabel(n: Int32)
    ensures SelectedSize(Decimal(n) + "x" + Decimal(n)) == Size(n)
  {
    var d := Decimal(n);
    DecimalChars(n);
    assert 'x' !in d;
    SizeBeforeX(d, d);
    IntRoundTrip(n);
  }

  /** The pieces of a string made of the separator alone are all empty. */
  lemma {:induction false} FieldsOfSeparators(s: string, sep: char)
    requires forall i :: 0 <= i < |s| ==> s[i] == sep
    ensures forall i :: 0 <= i < |Fields(s, sep)| ==> Fields(s, sep)[i] == []
  {
    if s != [] {
      FieldsOfSeparators(s[1..], sep);
    }
  }

  /** A list of empty strings loses all of them. */
  lemma {:induction false} DropAllEmpty(f: seq<string>)
    requires forall i :: 0 <= i < |f| ==> f[i] == []
    ensures DropTrailingEmpty(f) == []
  {
    if f != [] {
      DropAllEmpty(f[..|f| - 1]);
    }
  }

  /** A text of nothing but `x`s leaves `split` no piece, and the index `[0]` fails. */
  lemma OnlyX(selected: string)
    requires selected != [] && forall i :: 0 <= i < |selected| ==> selected[i] == 'x'
    ensures SelectedSize(selected) == NoPieces
  {
    assert selected[0] == 'x';
    FieldsOfSeparators(selected, 'x');
    DropAllEmpty(Fields(selected, 'x'));
  }

  // ----- solving --------------------------------------------------------------------------------

  /** The two solvers the older controller offers. */
  datatype Algorithm = Bfs | Dfs

  /**
   * How `solveMaze` ends: the notice that there is no maze yet, the notice that START or END is
   * missing, the notice that the solver found no path, or the path drawn on the panel.
   */
  datatype Outcome =
    | NoMazeYet
    | EndpointMissing
    | NoPathFound(start: Pos, end: Pos)
    | PathShown(start: Pos, end: Pos, path: seq<Pos>)

  class MazeController {
    var currentMaze: array2?<CellState>
    var panel: MazePanel

    constructor ()
      ensures currentMaze == null && Valid()
    {
      currentMaze := null;
      panel := new MazePanel();
    }

    /** The panel shows the controller's maze. */
    predicate Valid()
      reads this, panel
    {
      panel.maze == currentMaze
    }

    /**
     * `solveMaze(solver)`: without a maze, only a notice. Otherwise the old solution is cleared;
     * without a START or END cell, only a notice. Otherwise the solver runs from the first START
     * cell to the first END cell, and a non-empty path is drawn, an empty one only reported.
     */
    method SolveMaze(solver: Algorithm) returns (outcome: Outcome)
      requires Valid()
      modifies currentMaze
      ensures Valid()
      ensures currentMaze == null <==> outcome == NoMazeYet
      ensures currentMaze != null ==> var b0 := UndrawnAll(old(Snapshot(currentMaze)));
        && (outcome == EndpointMissing <==> Without(b0, Start) || Without(b0, End))
        && (outcome == EndpointMissing || outcome.NoPathFound? ==> Snapshot(currentMaze) == b0)
        && (outcome.NoPathFound? || outcome.PathShown? ==>
              FirstWith(b0, Start, outcome.start) && FirstWith(b0, End, outcome.end))
        && (outcome.NoPathFound? ==> !Reachable(b0, outcome.start, outcome.end))
        && (outcome.PathShown? ==>
              && outcome.path != []
              && IsRoute(b0, outcome.path, outcome.start, outcome.end)
              && Snapshot(currentMaze) == DrawnOn(b0, outcome.path))
    {
      if currentMaze == null {
        return NoMazeYet;
      }
      panel.ClearSolution();
      var start := FindCell(currentMaze, Start);
      var end := FindCell(currentMaze, End);
      if start.None? || end.None? {
        return EndpointMissing;
      }
      var path;
      match solver {
        case Bfs => path := LegacyBfs.Solve(currentMaze, start.value, end.value);
        case Dfs => path := LegacyDfs.Solve(currentMaze, start.value, end.value);
      }
      if |path| == 0 {
        return NoPathFound(start.value, end.value);
      }
      panel.DrawSolution(path);
      return PathShown(start.value, end.value, path);
    }
  }
}
