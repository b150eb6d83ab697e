/**
 * The current tree's controller, without its views: the editing rules for mouse clicks, the
 * choice of solver by name, and the step-by-step playback of a cached search, which marks at
 * most one cell per step, first along the explored trace and then along the solution path.
 */
module Controller {
  import opened Grid
  import opened SolveResults
  import opened Recursive
  import BfsSolver
  import DfsSolver
  import RecursiveSolvers

  // ----- the grid as the controller sees it --------------------------------------------------

  /** A `rows` by `cols` board of PATH cells, as `createEmptyMaze` and `clearBoard` leave it. */
  function Blank(rows: nat, cols: nat): (b: Board)
    ensures |b| == rows && forall r :: 0 <= r < rows ==> |b[r]| == cols
    ensures forall q :: Within(b, q) ==> At(b, q) == Path
  {
    seq(rows, r => seq(cols, c => Path))
  }

  /** What `clearSolution` leaves of a cell's state: VISITED and SOLUTION become PATH. */
  function Clean(s: CellState): CellState {
    if s == Solution || s == Visited then Path else s
  }

  /** The board with every cell cleaned. */
  function Cleared(b: Board): (b': Board)
    ensures |b'| == |b| && forall r :: 0 <= r < |b| ==> |b'[r]| == |b[r]|
  {
    seq(|b|, r requires 0 <= r < |b| => seq(|b[r]|, c requires 0 <= c < |b[r]| => Clean(b[r][c])))
  }

  /** Clearing turns exactly the VISITED and SOLUTION cells into PATH and leaves every other cell as it was. */
  lemma ClearedCells(b: Board)
    ensures forall q :: Within(b, q) ==> Within(Cleared(b), q)
    ensures forall q :: Within(b, q) && At(b, q) in {Visited, Solution} ==> At(Cleared(b), q) == Path
    ensures forall q :: Within(b, q) && At(b, q) !in {Visited, Solution} ==> At(Cleared(b), q) == At(b, q)
  {
  }

  /** Clearing a second time changes nothing. */
  lemma ClearedIdempotent(b: Board)
    ensures Cleared(Cleared(b)) == Cleared(b)
  {
    var c := Cleared(b);
    forall r | 0 <= r < |b| ensures Cleared(c)[r] == c[r] {
      assert forall k :: 0 <= k < |b[r]| ==> Cleared(c)[r][k] == Clean(c[r][k]) == c[r][k];
    }
  }

  /** A blank board has nothing to clear. */
  lemma ClearedBlank(rows: nat, cols: nat)
    ensures Cleared(Blank(rows, cols)) == Blank(rows, cols)
  {
    var b := Blank(rows, cols);
    forall r | 0 <= r < rows ensures Cleared(b)[r] == b[r] {
      assert forall k :: 0 <= k < cols ==> Cleared(b)[r][k] == Path;
    }
  }

  // ----- editing -----------------------------------------------------------------------------

  datatype EditMode = SetStart | SetEnd | ToggleWall

  /** What a click can change: the board and the remembered start and end cells. */
  datatype Editor = Editor(board: Board, start: Option<Pos>, end: Option<Pos>)

  /** A marker moves to `p`: the cell that held it before, if any, goes back to PATH, then `p` gets `s`. */
  function Move(b: Board, prev: Option<Pos>, p: Pos, s: CellState): Board {
    Put(if prev.Some? then Put(b, prev.value, Path) else b, p, s)
  }

  /** The effect of a click on the cell at `p` in the given mode. */
  function Click(e: Editor, mode: EditMode, p: Pos): Editor {
    if !Within(e.board, p) then e
    else match mode
      case SetStart => Editor(Move(e.board, e.start, p, Start), Some(p), e.end)
      case SetEnd => Editor(Move(e.board, e.end, p, End), e.start, Some(p))
      case ToggleWall =>
        if At(e.board, p) == Path then e.(board := Put(e.board, p, Wall))
        else if At(e.board, p) == Wall then e.(board := Put(e.board, p, Path))
        else e
  }

  /** A click outside the grid is ignored. */
  lemma ClickOutside(e: Editor, mode: EditMode, p: Pos)
    requires !Within(e.board, p)
    ensures Click(e, mode, p) == e
  {
  }

  /** Wall toggling swaps PATH and WALL at the clicked cell, leaves every other state there, and touches no other cell. */
  lemma ToggleCells(e: Editor, p: Pos)
    requires Within(e.board, p)
    ensures var e' := Click(e, ToggleWall, p);
      && e'.start == e.start && e'.end == e.end && Within(e'.board, p)
      && At(e'.board, p) == (if At(e.board, p) == Path then Wall else if At(e.board, p) == Wall then Path else At(e.board, p))
      && forall q :: Within(e.board, q) && q != p ==> Within(e'.board, q) && At(e'.board, q) == At(e.board, q)
  {
  }

  /** Writing back a cell's own state restores the board. */
  lemma PutBack(b: Board, p: Pos, s: CellState)
    requires Within(b, p)
    ensures Put(Put(b, p, s), p, At(b, p)) == b
  {
    var b' := Put(Put(b, p, s), p, At(b, p));
    forall r | 0 <= r < |b| ensures b'[r] == b[r] {
      assert forall k :: 0 <= k < |b[r]| ==> b'[r][k] == At(b', Pos(r, k)) == At(b, Pos(r, k));
    }
  }

  /** Toggling the same cell twice leaves everything as it was. */
  lemma ToggleTwice(e: Editor, p: Pos)
    ensures Click(Click(e, ToggleWall, p), ToggleWall, p) == e
  {
    if Within(e.board, p) {
      var e' := Click(e, ToggleWall, p);
      if At(e.board, p) == Path || At(e.board, p) == Wall {
        PutBack(e.board, p, At(e'.board, p));
      }
    }
  }

  /**
   * Setting the start cell marks the clicked cell START and remembers it, sends the previous
   * start cell back to PATH, keeps the end cell, and touches no other cell.
   */
  lemma StartCells(e: Editor, p: Pos)
    requires Within(e.board, p)
    ensures var e' := Click(e, SetStart, p);
      && e'.start == Some(p) && e'.end == e.end
      && Within(e'.board, p) && At(e'.board, p) == Start
      && (e.start.Some? && e.start.value != p && Within(e.board, e.start.value) ==> At(e'.board, e.start.value) == Path)
      && forall q :: Within(e.board, q) && q != p && Some(q) != e.start ==> Within(e'.board, q) && At(e'.board, q) == At(e.board, q)
  {
  }

  /** The same for the end cell. */
  lemma EndCells(e: Editor, p: Pos)
    requires Within(e.board, p)
    ensures var e' := Click(e, SetEnd, p);
      && e'.end == Some(p) && e'.start == e.start
      && Within(e'.board, p) && At(e'.board, p) == End
      && (e.end.Some? && e.end.value != p && Within(e.board, e.end.value) ==> At(e'.board, e.end.value) == Path)
      && forall q :: Within(e.board, q) && q != p && Some(q) != e.end ==> Within(e'.board, q) && At(e'.board, q) == At(e.board, q)
  {
  }

  // ----- choosing a solver -------------------------------------------------------------------

  datatype Algorithm = Breadth | Depth | DownRight | Complete | Backtrack

  /** The name under which each solver is offered. */
  function Name(a: Algorithm): string {
    match a
    case Breadth => "BFS"
    case Depth => "DFS"
    case DownRight => "Recursivo"
    case Complete => "Recursivo Completo"
    case Backtrack => "Recursivo Completo BT"
  }

  /** `getSolverForName`: the solver with that name, and the backtracking solver for any name no solver has. */
  function SolverForName(name: string): (a: Algorithm)
    ensures name == Name(a) || (a == Backtrack && forall x :: Name(x) != name)
  {
    match name
    case "BFS" => Breadth
    case "DFS" => Depth
    case "Recursivo" => DownRight
    case "Recursivo Completo" => Complete
    case _ => Backtrack
  }

  /** Every solver is found again under its own name. */
  lemma NameRoundTrip(a: Algorithm)
    ensures SolverForName(Name(a)) == a
  {
    if a == Backtrack {
      assert |Name(a)| == 21;
    }
  }

  /** The guarantees of the two frontier searches, on which playback relies. */
  ghost predicate Searched(b: Board, start: Pos, end: Pos, res: SolveResult) {
    && |res.exploredCells| > 0 && res.exploredCells[0] == start && Distinct(res.exploredCells)
    && (IsSolutionFound(res) <==> Reachable(b, start, end))
    && (IsSolutionFound(res) ==> IsRoute(b, res.solutionPath, start, end))
  }

  /**
   * What the chosen solver returns on `b`. The complete recursive solver is not part of this
   * model: its result is whatever `unseen` holds.
   */
  ghost predicate Solved(a: Algorithm, b: Board, start: Pos, end: Pos, unseen: SolveResult, res: SolveResult) {
    match a
    case Breadth => Searched(b, start, end, res)
      && (IsSolutionFound(res) ==> forall rt :: IsRoute(b, rt, start, end) ==> |res.solutionPath| <= |rt|)
    case Depth => Searched(b, start, end, res)
    case DownRight => var t := Descend(b, {}, start, end); res == SolveResult(t.explored, t.path)
    case Complete => res == unseen
    case Backtrack => var t := Back(b, {}, start, end); res == SolveResult(t.explored, t.path)
  }

  /** `getSolverForName(name).solve(maze, startCell, endCell)` for the solver `a`. */
  method RunSolver(a: Algorithm, g: array2<CellState>, start: Pos, end: Pos, unseen: SolveResult) returns (res: SolveResult)
    ensures Solved(a, Snapshot(g), start, end, unseen, res)
  {
    match a
    case Breadth =>
      res := BfsSolver.Solve(g, start, end);
    case Depth =>
      ghost var known, pushed;
      res, known, pushed := DfsSolver.Solve(g, start, end);
    case DownRight =>
      var solver := new RecursiveSolvers.DownRightSolver();
      res := solver.Solve(g, start, end);
    case Complete =>
      res := unseen;
    case Backtrack =>
      var solver := new RecursiveSolvers.BacktrackSolver();
      res := solver.Solve(g, start, end);
  }

  // ----- playback ----------------------------------------------------------------------------

  /** The playback fields: the cached result, the two indices and the phase flag. */
  datatype Player = Player(result: Option<SolveResult>, exploration: nat, solution: nat, exploring: bool)

  /** The playback fields after `clearSolution`. */
  const Idle := Player(None, 0, 0, true)

  /** The playback fields right after a result is cached. */
  function Begin(r: SolveResult): Player {
    Player(Some(r), 0, 0, true)
  }

  /** The indices and phase after one step with a cached result. */
  function Next(pl: Player): (n: Player)
    requires pl.result.Some?
    ensures n.result == pl.result
  {
    var r := pl.result.value;
    if pl.exploring then
      if pl.exploration < |r.exploredCells| then pl.(exploration := pl.exploration + 1)
      else pl.(exploring := false)
    else if IsSolutionFound(r) && pl.solution < |r.solutionPath| then pl.(solution := pl.solution + 1)
    else pl
  }

  /** The board after one step with a cached result. */
  function Paint(pl: Player, b: Board): (b': Board)
    requires pl.result.Some?
  {
    var r := pl.result.value;
    if pl.exploring then
      if pl.exploration < |r.exploredCells| then
        var cell := r.exploredCells[pl.exploration];
        if Within(b, cell) && At(b, cell) == Path then Put(b, cell, Visited) else b
      else b
    else if IsSolutionFound(r) && pl.solution < |r.solutionPath| then
      var cell := r.solutionPath[pl.solution];
      if Within(b, cell) && At(b, cell) != Start && At(b, cell) != End then Put(b, cell, Solution) else b
    else b
  }

  /** The cell a step is about, if it is about one. */
  function Current(pl: Player): Option<Pos>
    requires pl.result.Some?
  {
    var r := pl.result.value;
    if pl.exploring then
      if pl.exploration < |r.exploredCells| then Some(r.exploredCells[pl.exploration]) else None
    else if IsSolutionFound(r) && pl.solution < |r.solutionPath| then Some(r.solutionPath[pl.solution])
    else None
  }

  /**
   * `b'` differs from `b` only by marks: a changed cell was PATH and is now VISITED, or was
   * neither START nor END and is now SOLUTION.
   */
  ghost predicate MarksOnly(b: Board, b': Board) {
    && |b'| == |b| && (forall r :: 0 <= r < |b| ==> |b'[r]| == |b[r]|)
    && forall q :: Within(b, q) ==>
         && Within(b', q)
         && (|| At(b', q) == At(b, q)
             || (At(b, q) == Path && At(b', q) == Visited)
             || (At(b, q) != Start && At(b, q) != End && At(b', q) == Solution))
  }

  /**
   * One step changes at most the cell it is about and only by a mark: VISITED during
   * exploration, SOLUTION on the solution walk; a step about no cell changes no cell.
   */
  lemma PaintOne(pl: Player, b: Board)
    requires pl.result.Some?
    ensures MarksOnly(b, Paint(pl, b))
    ensures forall q :: Within(b, q) && Some(q) != Current(pl) ==> At(Paint(pl, b), q) == At(b, q)
    ensures pl.exploring ==> forall q :: Within(b, q) ==> At(Paint(pl, b), q) != Solution || At(b, q) == Solution
    ensures !pl.exploring ==> forall q :: Within(b, q) ==> At(Paint(pl, b), q) != Visited || At(b, q) == Visited
  {
  }

  /** Marks on marks are marks. */
  lemma MarksOnlyTrans(b: Board, b': Board, b'': Board)
    requires MarksOnly(b, b') && MarksOnly(b', b'')
    ensures MarksOnly(b, b'')
  {
  }

  /** The playback fields after `n` steps. */
  function Steps(pl: Player, n: nat): (s: Player)
    requires pl.result.Some?
    ensures s.result == pl.result
    decreases n
  {
    if n == 0 then pl else Steps(Next(pl), n - 1)
  }

  /** The board after `n` steps. */
  function Play(pl: Player, b: Board, n: nat): Board
    requires pl.result.Some?
    decreases n
  {
    if n == 0 then b else Play(Next(pl), Paint(pl, b), n - 1)
  }

  /** `n + 1` steps are `n` steps and one more. */
  lemma {:induction false} StepsLast(pl: Player, n: nat)
    requires pl.result.Some?
    ensures Steps(pl, n + 1) == Next(Steps(pl, n))
    decreases n
  {
    if n > 0 {
      StepsLast(Next(pl), n - 1);
    }
  }

  /** The number of steps that marks everything: the trace, the phase flip, and the path if there is one. */
  function Length(r: SolveResult): nat {
    |r.exploredCells| + 1 + (if IsSolutionFound(r) then |r.solutionPath| else 0)
  }

  /** The fields after `n` steps from a fresh cache, for every `n` up to `Length(r)`. */
  function Progress(r: SolveResult, n: nat): Player {
    var k := |r.exploredCells|;
    if n <= k then Player(Some(r), n, 0, true) else Player(Some(r), k, n - k - 1, false)
  }

  lemma {:induction false} StepsProgress(r: SolveResult, n: nat)
    requires n <= Length(r)
    ensures Steps(Begin(r), n) == Progress(r, n)
    decreases n
  {
    if n > 0 {
      StepsProgress(r, n - 1);
      StepsLast(Begin(r), n - 1);
    }
  }

  /**
   * With `k` explored and `m` path cells, playback takes `k + 1 + m` calls (`k + 1` without a
   * solution): every call before that moves on, and from then on a call changes neither the
   * fields nor any cell.
   */
  lemma Playback(r: SolveResult)
    ensures var done := Steps(Begin(r), Length(r));
      && done == Player(Some(r), |r.exploredCells|, if IsSolutionFound(r) then |r.solutionPath| else 0, false)
      && Next(done) == done && (forall b :: Paint(done, b) == b)
    ensures forall n :: 0 <= n < Length(r) ==> Next(Steps(Begin(r), n)) != Steps(Begin(r), n)
  {
    StepsProgress(r, Length(r));
    forall n | 0 <= n < Length(r) ensures Next(Steps(Begin(r), n)) != Steps(Begin(r), n) {
      StepsProgress(r, n);
    }
  }

  /** Playback only ever adds marks, whatever the number of steps. */
  lemma {:induction false} PlayMarks(pl: Player, b: Board, n: nat)
    requires pl.result.Some?
    ensures MarksOnly(b, Play(pl, b, n))
    decreases n
  {
    if n == 0 {
      assert Play(pl, b, 0) == b;
    } else {
      PaintOne(pl, b);
      PlayMarks(Next(pl), Paint(pl, b), n - 1);
      MarksOnlyTrans(b, Paint(pl, b), Play(pl, b, n));
    }
  }

  // ----- the controller ----------------------------------------------------------------------

  class MazeController {
    var maze: array2<CellState>
    var startCell: Option<Pos>
    var endCell: Option<Pos>
    var editMode: EditMode
    var stepResult: Option<SolveResult>
    var explorationStep: nat
    var solutionStep: nat
    var exploring: bool

    /** The remembered start and end cells are cells of the grid. */
    ghost predicate Valid()
      reads this
    {
      && (startCell.Some? ==> Inside(maze, startCell.value))
      && (endCell.Some? ==> Inside(maze, endCell.value))
    }

    ghost function State(): Player
      reads this
    {
      Player(stepResult, explorationStep, solutionStep, exploring)
    }

    ghost function Editing(): Editor
      reads this, maze
    {
      Editor(Snapshot(maze), startCell, endCell)
    }

    /** A fresh `rows` by `cols` grid of PATH cells, in wall-toggling mode, with nothing cached. */
    constructor (rows: nat, cols: nat)
      ensures fresh(maze) && maze.Length0 == rows && maze.Length1 == cols && Snapshot(maze) == Blank(rows, cols)
      ensures startCell == None && endCell == None && editMode == ToggleWall && State() == Idle
      ensures Valid()
    {
      var g := CreateEmptyMaze(rows, cols);
      maze := g;
      startCell, endCell := None, None;
      editMode := ToggleWall;
      stepResult, explorationStep, solutionStep, exploring := None, 0, 0, true;
    }

    /** A click on `(row, col)` in the current edit mode. */
    method MousePressed(row: int, col: int)
      modifies maze, this`startCell, this`endCell
      requires Valid()
      ensures Valid()
      ensures Editing() == Click(old(Editing()), editMode, Pos(row, col))
    {
      var p := Pos(row, col);
      if row < 0 || row >= maze.Length0 || col < 0 || col >= maze.Length1 {
        assert !Within(Snapshot(maze), p);
        return;
      }
      assert Within(Snapshot(maze), p) && At(Snapshot(maze), p) == maze[row, col];
      match editMode
      case SetStart =>
        Place(maze, startCell, p, Start);
        startCell := Some(p);
      case SetEnd =>
        Place(maze, endCell, p, End);
        endCell := Some(p);
      case ToggleWall =>
        if maze[row, col] == Path {
          WriteCell(maze, p, Wall);
        } else if maze[row, col] == Wall {
          WriteCell(maze, p, Path);
        }
    }

    /**
     * One press of the step button with `name` selected. Without a cached result and with
     * both start and end set, it clears the marks, caches the chosen solver's result on the
     * cleared grid and plays its first step; with a cached result it plays the next step.
     */
    method ExecuteStep(name: string, unseen: SolveResult)
      modifies this`stepResult, this`explorationStep, this`solutionStep, this`exploring, maze
      requires Valid()
      ensures Valid()
      ensures old(stepResult).None? && (startCell.None? || endCell.None?) ==>
        State() == old(State()) && Snapshot(maze) == old(Snapshot(maze))
      ensures old(stepResult).None? && startCell.Some? && endCell.Some? ==>
        && stepResult.Some?
        && Solved(SolverForName(name), Cleared(old(Snapshot(maze))), startCell.value, endCell.value, unseen, stepResult.value)
        && State() == Next(Begin(stepResult.value))
        && Snapshot(maze) == Paint(Begin(stepResult.value), Cleared(old(Snapshot(maze))))
      ensures old(stepResult).Some? ==>
        State() == Next(old(State())) && Snapshot(maze) == Paint(old(State()), old(Snapshot(maze)))
    {
      if stepResult.None? {
        if startCell.None? || endCell.None? {
          return;
        }
        Prepare(name, unseen);
      }
      PlayStep();
    }

    /** A first step's preparation: clear the marks, then solve the cleared grid and cache the result. */
    method Prepare(name: string, unseen: SolveResult)
      modifies this`stepResult, this`explorationStep, this`solutionStep, this`exploring, maze
      requires startCell.Some? && endCell.Some?
      ensures stepResult.Some? && State() == Begin(stepResult.value)
      ensures Snapshot(maze) == Cleared(old(Snapshot(maze)))
      ensures Solved(SolverForName(name), Snapshot(maze), startCell.value, endCell.value, unseen, stepResult.value)
    {
      ClearSolution();
      var res := RunSolver(SolverForName(name), maze, startCell.value, endCell.value, unseen);
      stepResult := Some(res);
    }

    /** The part of a step that follows the cached result: one cell of the trace, the phase flip, or one cell of the path. */
    method PlayStep()
      modifies this`explorationStep, this`solutionStep, this`exploring, maze
      requires stepResult.Some?
      ensures State() == Next(old(State())) && Snapshot(maze) == Paint(old(State()), old(Snapshot(maze)))
    {
      var r := stepResult.value;
      if exploring {
        if explorationStep < |r.exploredCells| {
          var cell := r.exploredCells[explorationStep];
          explorationStep := explorationStep + 1;
          if 0 <= cell.row < maze.Length0 && 0 <= cell.col < maze.Length1 && maze[cell.row, cell.col] == Path {
            WriteCell(maze, cell, Visited);
          }
        } else {
          exploring := false;
        }
      } else if IsSolutionFound(r) {
        if solutionStep < |r.solutionPath| {
          var cell := r.solutionPath[solutionStep];
          solutionStep := solutionStep + 1;
          if 0 <= cell.row < maze.Length0 && 0 <= cell.col < maze.Length1
             && maze[cell.row, cell.col] != Start && maze[cell.row, cell.col] != End {
            WriteCell(maze, cell, Solution);
          }
        }
      }
    }

    /** `clearBoard`: every cell PATH, no start or end cell, and playback reset. */
    method ClearBoard()
      modifies this`startCell, this`endCell, this`stepResult, this`explorationStep, this`solutionStep, this`exploring, maze
      ensures Valid()
      ensures startCell == None && endCell == None && State() == Idle
      ensures Snapshot(maze) == Blank(maze.Length0, maze.Length1)
    {
      for r := 0 to maze.Length0
        invariant forall i, j {:trigger maze[i, j]} :: 0 <= i < r && 0 <= j < maze.Length1 ==> maze[i, j] == Path
      {
        for c := 0 to maze.Length1
          invariant forall i, j {:trigger maze[i, j]} :: 0 <= i < maze.Length0 && 0 <= j < maze.Length1 && (i < r || (i == r && j < c)) ==> maze[i, j] == Path
        {
          maze[r, c] := Path;
        }
      }
      Blanked(maze);
      startCell := None;
      endCell := None;
      ClearSolution();
      ClearedBlank(maze.Length0, maze.Length1);
    }

    /** `clearSolution`: VISITED and SOLUTION cells become PATH, and playback is reset. */
    method ClearSolution()
      modifies this`stepResult, this`explorationStep, this`solutionStep, this`exploring, maze
      ensures State() == Idle
      ensures Snapshot(maze) == Cleared(old(Snapshot(maze)))
    {
      ghost var b := Snapshot(maze);
      SnapshotDepicts(maze);
      for r := 0 to maze.Length0
        invariant forall i, j {:trigger maze[i, j]} :: 0 <= i < maze.Length0 && 0 <= j < maze.Length1 ==>
          maze[i, j] == if i < r then Clean(b[i][j]) else b[i][j]
      {
        for c := 0 to maze.Length1
          invariant forall i, j {:trigger maze[i, j]} :: 0 <= i < maze.Length0 && 0 <= j < maze.Length1 ==>
            maze[i, j] == if i < r || (i == r && j < c) then Clean(b[i][j]) else b[i][j]
        {
          if maze[r, c] == Solution || maze[r, c] == Visited {
            maze[r, c] := Path;
          }
        }
      }
      ghost var b' := Cleared(b);
      assert Depicts(maze, b');
      SnapshotDepicts(maze);
      SameBoard(maze, b', Snapshot(maze));
      explorationStep := 0;
      solutionStep := 0;
      stepResult := None;
      exploring := true;
    }
  }

  /** The previous marker cell, if any, back to PATH, then `p` to `s`. */
  method Place(g: array2<CellState>, prev: Option<Pos>, p: Pos, s: CellState)
    modifies g
    requires prev.Some? ==> Inside(g, prev.value)
    requires Inside(g, p)
    ensures Snapshot(g) == Move(old(Snapshot(g)), prev, p, s)
  {
    if prev.Some? {
      WriteCell(g, prev.value, Path);
    }
    WriteCell(g, p, s);
  }

  /** A grid all of whose cells are PATH is the blank board of its size. */
  lemma Blanked(g: array2<CellState>)
    requires forall i, j {:trigger g[i, j]} :: 0 <= i < g.Length0 && 0 <= j < g.Length1 ==> g[i, j] == Path
    ensures Snapshot(g) == Blank(g.Length0, g.Length1)
  {
    SnapshotDepicts(g);
    SameBoard(g, Blank(g.Length0, g.Length1), Snapshot(g));
  }

  /** `createEmptyMaze`: a new `rows` by `cols` grid whose cells are all new PATH cells. */
  method CreateEmptyMaze(rows: nat, cols: nat) returns (maze: array2<CellState>)
    ensures fresh(maze) && maze.Length0 == rows && maze.Length1 == cols
    ensures Snapshot(maze) == Blank(rows, cols)
  {
    maze := new CellState[rows, cols];
    for i := 0 to rows
      invariant forall r, c {:trigger maze[r, c]} :: 0 <= r < i && 0 <= c < cols ==> maze[r, c] == Path
    {
      for j := 0 to cols
        invariant forall r, c {:trigger maze[r, c]} :: 0 <= r < rows && 0 <= c < cols && (r < i || (r == i && c < j)) ==> maze[r, c] == Path
      {
        maze[i, j] := Path;
      }
    }
    Blanked(maze);
  }
}
