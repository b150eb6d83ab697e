/**
 * The current tree's maze generator, a randomised depth-first "recursive backtracker": from an
 * all-wall square grid it carves a random start cell, then repeatedly looks at the cell on top
 * of a stack, carves one of its still-walled cells two steps away together with the cell
 * midway, and pushes it, popping the top when it has none left. Finally (0, 0) becomes START
 * and the opposite corner END.
 *
 * A cell's coordinates are its index in the array, so the `Cell(r, c)` objects the source
 * creates are the array's positions. The random numbers are arbitrary choices (`:|`). While
 * the loop runs, the ghost set `carved` names the cells that hold PATH; all others hold WALL.
 */
module Generator {
  import opened Grid

  predicate InGrid(size: int, q: Pos) {
    0 <= q.row < size && 0 <= q.col < size
  }

  /** A cell of the start cell's row and column parity: the cells the stack can hold. */
  predicate Room(s: Pos, q: Pos) {
    q.row % 2 == s.row % 2 && q.col % 2 == s.col % 2
  }

  /** The four cells two steps away, in the order up, down, left, right. */
  function Jumps(p: Pos): seq<Pos> {
    [Pos(p.row - 2, p.col), Pos(p.row + 2, p.col), Pos(p.row, p.col - 2), Pos(p.row, p.col + 2)]
  }

  /** The cell midway between `p` and a cell two steps away from it. */
  function Midway(p: Pos, n: Pos): Pos {
    Pos(p.row + (n.row - p.row) / 2, p.col + (n.col - p.col) / 2)
  }

  /** The cells of `ms`, in order, that lie on the grid and are not carved yet. */
  function Unvisited(carved: set<Pos>, size: int, ms: seq<Pos>): (u: seq<Pos>)
    ensures forall q :: q in u <==> q in ms && InGrid(size, q) && q !in carved
  {
    if ms == [] then []
    else
      var u := Unvisited(carved, size, ms[..|ms| - 1]);
      var q := ms[|ms| - 1];
      assert forall x :: x in ms <==> x in ms[..|ms| - 1] || x == q;
      if InGrid(size, q) && q !in carved then u + [q] else u
  }

  // ----- routes through carved cells -------------------------------------------------------

  /** A route from `s` to `e` each of whose cells after the first is carved. */
  ghost predicate Tunnel(carved: set<Pos>, rt: seq<Pos>, s: Pos, e: Pos) {
    && |rt| > 0 && rt[0] == s && rt[|rt| - 1] == e
    && forall i :: 0 < i < |rt| ==> Adjacent(rt[i - 1], rt[i]) && rt[i] in carved
  }

  /** Every carved cell can be reached from `s` through carved cells. */
  ghost predicate Connected(carved: set<Pos>, s: Pos) {
    forall q :: q in carved ==> exists rt :: Tunnel(carved, rt, s, q)
  }

  lemma Widen(carved: set<Pos>, more: set<Pos>, rt: seq<Pos>, s: Pos, e: Pos)
    requires Tunnel(carved, rt, s, e) && carved <= more
    ensures Tunnel(more, rt, s, e)
  {
  }

  lemma Extend(carved: set<Pos>, rt: seq<Pos>, s: Pos, e: Pos, x: Pos)
    requires Tunnel(carved, rt, s, e) && Adjacent(e, x) && x in carved
    ensures Tunnel(carved, rt + [x], s, x)
  {
    var rt' := rt + [x];
    forall i | 0 < i < |rt'| ensures Adjacent(rt'[i - 1], rt'[i]) && rt'[i] in carved {
      if i < |rt| {
        assert rt'[i - 1] == rt[i - 1] && rt'[i] == rt[i];
      }
    }
  }

  lemma Prepend(carved: set<Pos>, rt: seq<Pos>, s: Pos, e: Pos, x: Pos)
    requires Tunnel(carved, rt, s, e) && Adjacent(x, s) && s in carved
    ensures Tunnel(carved, [x] + rt, x, e)
  {
    var rt' := [x] + rt;
    forall i | 0 < i < |rt'| ensures Adjacent(rt'[i - 1], rt'[i]) && rt'[i] in carved {
      if i > 1 {
        assert rt'[i - 1] == rt[i - 2] && rt'[i] == rt[i - 1];
      }
    }
  }

  function Reverse(s: seq<Pos>): (r: seq<Pos>)
    ensures |r| == |s| && forall i :: 0 <= i < |s| ==> r[i] == s[|s| - 1 - i]
  {
    if s == [] then [] else Reverse(s[1..]) + [s[0]]
  }

  /** A route whose first cell is carved, walked backwards. */
  lemma Backwards(carved: set<Pos>, rt: seq<Pos>, s: Pos, e: Pos)
    requires Tunnel(carved, rt, s, e) && s in carved
    ensures Tunnel(carved, Reverse(rt), e, s)
  {
    var r := Reverse(rt);
    forall i | 0 < i < |r| ensures Adjacent(r[i - 1], r[i]) && r[i] in carved {
      var k := |rt| - 1 - i;
      assert r[i - 1] == rt[k + 1] && r[i] == rt[k];
    }
  }

  lemma Join(carved: set<Pos>, r1: seq<Pos>, r2: seq<Pos>, s: Pos, m: Pos, e: Pos)
    requires Tunnel(carved, r1, s, m) && Tunnel(carved, r2, m, e)
    ensures Tunnel(carved, r1 + r2[1..], s, e)
  {
    var rt := r1 + r2[1..];
    forall i | 0 < i < |rt| ensures Adjacent(rt[i - 1], rt[i]) && rt[i] in carved {
      if i < |r1| {
        assert rt[i - 1] == r1[i - 1] && rt[i] == r1[i];
      } else {
        var k := i - |r1| + 1;
        assert rt[i] == r2[k] && rt[i - 1] == r2[k - 1];
      }
    }
    if |r2| == 1 {
      assert rt == r1;
    } else {
      assert rt[|rt| - 1] == r2[|r2| - 1];
    }
  }

  // ----- the loop invariant ---------------------------------------------------------------

  /** Every carved cell shares the start's row parity or its column parity. */
  ghost predicate Parity(carved: set<Pos>, s: Pos) {
    forall q :: q in carved ==> q.row % 2 == s.row % 2 || q.col % 2 == s.col % 2
  }

  /**
   * A carved cell off the start's row parity has carved cells above and below it, and one off
   * the column parity carved cells to its left and right: it was carved as the cell midway
   * between them.
   */
  ghost predicate Bridged(carved: set<Pos>, s: Pos) {
    forall q :: q in carved ==>
      && (q.row % 2 != s.row % 2 ==> Up(q) in carved && Down(q) in carved)
      && (q.col % 2 != s.col % 2 ==> Left(q) in carved && Right(q) in carved)
  }

  /** The stack holds carved cells of the start's parity, none twice. */
  ghost predicate Stacked(carved: set<Pos>, s: Pos, stack: seq<Pos>) {
    Distinct(stack) && forall i :: 0 <= i < |stack| ==> stack[i] in carved && Room(s, stack[i])
  }

  /** Every cell two steps from `q` that lies on the grid is carved. */
  ghost predicate Surrounded(carved: set<Pos>, size: int, q: Pos) {
    forall x :: x in Jumps(q) && InGrid(size, x) ==> x in carved
  }

  /** A carved start-parity cell off the stack has no uncarved cell two steps away. */
  ghost predicate Closed(carved: set<Pos>, s: Pos, size: int, stack: seq<Pos>) {
    forall q :: q in carved && Room(s, q) && q !in stack ==> Surrounded(carved, size, q)
  }

  /** What holds of the carved cells and the stack at the head of every round of the loop. */
  ghost predicate Grown(carved: set<Pos>, s: Pos, size: int, stack: seq<Pos>) {
    && (forall q :: q in carved ==> InGrid(size, q))
    && s in carved && Parity(carved, s) && Bridged(carved, s) && Connected(carved, s)
    && Stacked(carved, s, stack) && Closed(carved, s, size, stack)
  }

  /** An empty list of neighbours leaves no uncarved cell two steps away. */
  lemma NoneUnvisited(carved: set<Pos>, size: int, p: Pos)
    requires Unvisited(carved, size, Jumps(p)) == []
    ensures Surrounded(carved, size, p)
  {
    forall x | x in Jumps(p) && InGrid(size, x) ensures x in carved {
      assert x !in Unvisited(carved, size, Jumps(p));
    }
  }

  /** After the start cell is carved and pushed, the invariant holds. */
  lemma GrowStart(s: Pos, size: int)
    requires InGrid(size, s)
    ensures Grown({s}, s, size, [s])
  {
    assert Tunnel({s}, [s], s, s);
  }

  /** The neighbour is a start-parity cell, and the cell midway lies beside both, off one parity. */
  lemma JumpCases(s: Pos, cur: Pos, n: Pos)
    requires Room(s, cur) && n in Jumps(cur)
    ensures Room(s, n)
    ensures var m := Midway(cur, n);
      || (m == Up(cur) && n == Up(m) && m.row % 2 != s.row % 2 && m.col % 2 == s.col % 2)
      || (m == Down(cur) && n == Down(m) && m.row % 2 != s.row % 2 && m.col % 2 == s.col % 2)
      || (m == Left(cur) && n == Left(m) && m.col % 2 != s.col % 2 && m.row % 2 == s.row % 2)
      || (m == Right(cur) && n == Right(m) && m.col % 2 != s.col % 2 && m.row % 2 == s.row % 2)
  {
    if n == Jumps(cur)[0] {
    } else if n == Jumps(cur)[1] {
    } else if n == Jumps(cur)[2] {
    } else {
    }
  }

  /** The uncarved cell two steps away has an uncarved cell midway, inside the grid. */
  lemma StepMidway(carved: set<Pos>, s: Pos, size: int, cur: Pos, n: Pos)
    requires Bridged(carved, s) && Room(s, cur) && InGrid(size, cur)
    requires n in Jumps(cur) && InGrid(size, n) && n !in carved
    ensures var m := Midway(cur, n); InGrid(size, m) && m !in carved && m != n
    ensures Adjacent(cur, Midway(cur, n)) && Adjacent(Midway(cur, n), n)
  {
    JumpCases(s, cur, n);
  }

  lemma StepBridged(carved: set<Pos>, s: Pos, cur: Pos, n: Pos)
    requires Bridged(carved, s) && cur in carved && Room(s, cur) && n in Jumps(cur)
    ensures Bridged(carved + {Midway(cur, n), n}, s)
  {
    JumpCases(s, cur, n);
  }

  lemma StepParity(carved: set<Pos>, s: Pos, cur: Pos, n: Pos)
    requires Parity(carved, s) && Room(s, cur) && n in Jumps(cur)
    ensures Parity(carved + {Midway(cur, n), n}, s)
  {
    JumpCases(s, cur, n);
  }

  /** Carving the cell midway and the cell beyond it, from a carved cell, keeps the carved cells connected. */
  lemma StepConnected(carved: set<Pos>, s: Pos, cur: Pos, m: Pos, n: Pos)
    requires Connected(carved, s) && cur in carved && Adjacent(cur, m) && Adjacent(m, n)
    ensures Connected(carved + {m, n}, s)
  {
    var more := carved + {m, n};
    var rc :| Tunnel(carved, rc, s, cur);
    Widen(carved, more, rc, s, cur);
    Extend(more, rc, s, cur, m);
    Extend(more, rc + [m], s, m, n);
    forall q | q in more ensures exists rt :: Tunnel(more, rt, s, q) {
      if q in carved {
        var rt :| Tunnel(carved, rt, s, q);
        Widen(carved, more, rt, s, q);
      } else if q == m {
        assert Tunnel(more, rc + [m], s, q);
      } else {
        assert Tunnel(more, rc + [m] + [n], s, q);
      }
    }
  }

  lemma StepClosed(carved: set<Pos>, s: Pos, size: int, stack: seq<Pos>, m: Pos, n: Pos)
    requires Closed(carved, s, size, stack) && !Room(s, m)
    ensures Closed(carved + {m, n}, s, size, stack + [n])
  {
    var more := carved + {m, n};
    forall q | q in more && Room(s, q) && q !in stack + [n] ensures Surrounded(more, size, q) {
      assert q in carved && q !in stack;
    }
  }

  /** One round that carves: the invariant holds again with the new cell carved and pushed. */
  lemma GrowStep(carved: set<Pos>, s: Pos, size: int, stack: seq<Pos>, n: Pos)
    requires Grown(carved, s, size, stack) && stack != []
    requires n in Unvisited(carved, size, Jumps(stack[|stack| - 1]))
    ensures var m := Midway(stack[|stack| - 1], n);
      && InGrid(size, m) && m !in carved && n !in carved && m != n
      && Grown(carved + {m, n}, s, size, stack + [n])
  {
    var cur := stack[|stack| - 1];
    var m := Midway(cur, n);
    assert cur in carved && Room(s, cur);
    StepMidway(carved, s, size, cur, n);
    JumpCases(s, cur, n);
    StepParity(carved, s, cur, n);
    StepBridged(carved, s, cur, n);
    StepConnected(carved, s, cur, m, n);
    StepClosed(carved, s, size, stack, m, n);
    assert n !in stack;
  }

  /** One round that pops: the top cell has no uncarved cell two steps away and leaves the stack. */
  lemma GrowPop(carved: set<Pos>, s: Pos, size: int, stack: seq<Pos>)
    requires Grown(carved, s, size, stack) && stack != []
    requires Unvisited(carved, size, Jumps(stack[|stack| - 1])) == []
    ensures Grown(carved, s, size, stack[..|stack| - 1])
  {
    var top := stack[|stack| - 1];
    var rest := stack[..|stack| - 1];
    assert forall q :: q in stack <==> q in rest || q == top;
    NoneUnvisited(carved, size, top);
  }

  // ----- what the finished carving guarantees -------------------------------------------------

  function Dist(a: Pos, b: Pos): nat {
    (if a.row < b.row then b.row - a.row else a.row - b.row) + (if a.col < b.col then b.col - a.col else a.col - b.col)
  }

  /** A start-parity cell other than the start has one two steps closer to the start, from which it is a jump. */
  lemma Toward(s: Pos, size: int, q: Pos) returns (q': Pos)
    requires InGrid(size, s) && InGrid(size, q) && Room(s, q) && q != s
    ensures InGrid(size, q') && Room(s, q') && q in Jumps(q') && Dist(s, q') < Dist(s, q)
  {
    if q.row > s.row {
      assert q.row - s.row >= 2;
      q' := Pos(q.row - 2, q.col);
    } else if q.row < s.row {
      assert s.row - q.row >= 2;
      q' := Pos(q.row + 2, q.col);
    } else if q.col > s.col {
      assert q.col - s.col >= 2;
      q' := Pos(q.row, q.col - 2);
    } else {
      assert s.col - q.col >= 2;
      q' := Pos(q.row, q.col + 2);
    }
  }

  /** Once the stack is empty, every cell of the start's parity in the grid is carved. */
  lemma {:induction false} AllRooms(carved: set<Pos>, s: Pos, size: int, q: Pos)
    requires Grown(carved, s, size, []) && InGrid(size, q) && Room(s, q)
    ensures q in carved
    decreases Dist(s, q)
  {
    if q != s {
      var q' := Toward(s, size, q);
      AllRooms(carved, s, size, q');
      assert Surrounded(carved, size, q');
    }
  }

  /** The grid the generator returns: START at (0, 0), END at the opposite corner, PATH on the carved cells. */
  ghost function Final(carved: set<Pos>, size: nat): (b: Board)
    ensures |b| == size && forall r :: 0 <= r < size ==> |b[r]| == size
  {
    seq(size, r => seq(size, c =>
      if r == size - 1 && c == size - 1 then End
      else if r == 0 && c == 0 then Start
      else if Pos(r, c) in carved then Path
      else Wall))
  }

  /** On the returned grid the open cells are the carved ones and the two corners. */
  lemma FinalOpen(carved: set<Pos>, size: nat)
    requires size > 0 && forall q :: q in carved ==> InGrid(size, q)
    ensures forall q :: Open(Final(carved, size), q) <==> q in carved + {Pos(0, 0), Pos(size - 1, size - 1)}
  {
    var b := Final(carved, size);
    forall q ensures Open(b, q) <==> q in carved + {Pos(0, 0), Pos(size - 1, size - 1)} {
      if InGrid(size, q) {
        assert b[q.row][q.col] == if q == Pos(size - 1, size - 1) then End else if q == Pos(0, 0) then Start
          else if q in carved then Path else Wall;
      }
    }
  }

  /** Routes on the returned grid are exactly the routes through carved cells and the corners. */
  lemma FinalRoutes(carved: set<Pos>, size: nat, rt: seq<Pos>, s: Pos, e: Pos)
    requires size > 0 && forall q :: q in carved ==> InGrid(size, q)
    ensures IsRoute(Final(carved, size), rt, s, e) <==> Tunnel(carved + {Pos(0, 0), Pos(size - 1, size - 1)}, rt, s, e)
  {
    FinalOpen(carved, size);
  }

  /** On the returned grid, every carved cell can be reached from the start cell. */
  lemma FinalReach(carved: set<Pos>, s: Pos, size: nat, q: Pos)
    requires size > 0 && Grown(carved, s, size, []) && q in carved
    ensures Reachable(Final(carved, size), s, q)
  {
    var rt :| Tunnel(carved, rt, s, q);
    Widen(carved, carved + {Pos(0, 0), Pos(size - 1, size - 1)}, rt, s, q);
    FinalRoutes(carved, size, rt, s, q);
  }

  /** The four cells of a 2 by 2 grid. */
  lemma SmallGrid(q: Pos)
    requires InGrid(2, q)
    ensures q == Pos(0, 0) || q == Pos(0, 1) || q == Pos(1, 0) || q == Pos(1, 1)
  {
    assert q.row == 0 || q.row == 1;
  }

  /**
   * As written, a start cell of the wrong parity seals a corner off: on a 2 by 2 grid carved
   * from (0, 0), nothing but (0, 0) is carved, and END cannot be reached from START.
   */
  lemma SealedCorner(carved: set<Pos>)
    requires Grown(carved, Pos(0, 0), 2, [])
    ensures carved == {Pos(0, 0)}
    ensures !Reachable(Final(carved, 2), Pos(0, 0), Pos(1, 1))
  {
    var s := Pos(0, 0);
    assert Pos(0, 1) !in carved && Pos(1, 0) !in carved && Pos(1, 1) !in carved;
    forall q | q in carved ensures q == s {
      SmallGrid(q);
    }
    if rt :| IsRoute(Final(carved, 2), rt, s, Pos(1, 1)) {
      FinalRoutes(carved, 2, rt, s, Pos(1, 1));
      assert |rt| > 1;
      AdjacentCases(rt[0], rt[1]);
      assert false;
    }
  }

  /** The cells beside the two corners that a start in an even row and an odd column carves. */
  lemma CornerRooms(s: Pos, size: int) returns (a: Pos, z: Pos)
    requires size >= 2 && s.row % 2 == 0 && s.col % 2 == 1
    ensures InGrid(size, a) && Room(s, a) && Adjacent(Pos(0, 0), a)
    ensures InGrid(size, z) && Room(s, z) && Adjacent(z, Pos(size - 1, size - 1))
  {
    a := Pos(0, 1);
    z := if size % 2 == 0 then Pos(size - 2, size - 1) else Pos(size - 1, size - 2);
  }

  /**
   * Two tunnels from `s`, to a cell beside `first` and to a cell beside `last`, give a tunnel
   * from `first` to `last` once both corners are open.
   */
  lemma CornerTunnel(carved: set<Pos>, s: Pos, a: Pos, z: Pos, first: Pos, last: Pos,
                     r1: seq<Pos>, r2: seq<Pos>) returns (rt: seq<Pos>)
    requires Tunnel(carved, r1, s, a) && Tunnel(carved, r2, s, z) && s in carved
    requires Adjacent(first, a) && Adjacent(z, last)
    ensures Tunnel(carved + {first, last}, rt, first, last)
  {
    var open := carved + {first, last};
    Widen(carved, open, r1, s, a);
    Widen(carved, open, r2, s, z);
    Backwards(open, r1, s, a);
    Prepend(open, Reverse(r1), a, s, first);
    var back := [first] + Reverse(r1);
    Join(open, back, r2, first, s, z);
    Extend(open, back + r2[1..], first, z, last);
    rt := back + r2[1..] + [last];
  }

  /**
   * With a start cell in an even row and an odd column, both corners lie beside a carved cell
   * once the carving is done, so END can be reached from START on every grid of size two or more.
   */
  lemma JoinedCorners(carved: set<Pos>, s: Pos, size: nat)
    requires size >= 2 && Grown(carved, s, size, [])
    requires s.row % 2 == 0 && s.col % 2 == 1
    ensures Reachable(Final(carved, size), Pos(0, 0), Pos(size - 1, size - 1))
  {
    var first, last := Pos(0, 0), Pos(size - 1, size - 1);
    var a, z := CornerRooms(s, size);
    AllRooms(carved, s, size, a);
    AllRooms(carved, s, size, z);
    var r1 :| Tunnel(carved, r1, s, a);
    var r2 :| Tunnel(carved, r2, s, z);
    var rt := CornerTunnel(carved, s, a, z, first, last, r1, r2);
    FinalRoutes(carved, size, rt, first, last);
    assert IsRoute(Final(carved, size), rt, first, last);
  }

  // ----- the generator ----------------------------------------------------------------------

  /** The grid holds PATH on the carved cells and WALL on all others. */
  ghost predicate Holds(maze: array2<CellState>, carved: set<Pos>)
    reads maze
  {
    forall r, c {:trigger maze[r, c]} :: 0 <= r < maze.Length0 && 0 <= c < maze.Length1 ==> maze[r, c] == if Pos(r, c) in carved then Path else Wall
  }

  /**
   * `getUnvisitedNeighbors` before its shuffle: the cells two steps away, in the order up,
   * down, left, right, that are on the grid and still walls.
   */
  method UnvisitedNeighbors(cell: Pos, maze: array2<CellState>, size: int, ghost carved: set<Pos>) returns (result: seq<Pos>)
    requires maze.Length0 == size && maze.Length1 == size && Holds(maze, carved)
    ensures result == Unvisited(carved, size, Jumps(cell))
  {
    var moves := Jumps(cell);
    result := [];
    for i := 0 to 4
      invariant result == Unvisited(carved, size, moves[..i])
    {
      var newRow, newCol := moves[i].row, moves[i].col;
      assert moves[..i + 1][..i] == moves[..i];
      if newRow >= 0 && newRow < size && newCol >= 0 && newCol < size && maze[newRow, newCol] == Wall {
        result := result + [moves[i]];
      }
    }
    assert moves[..4] == moves;
  }

  /** Carving two more cells of the grid leaves two fewer walls. */
  lemma FewerWalls(cells: set<Pos>, carved: set<Pos>, m: Pos, n: Pos)
    requires m in cells && n in cells && m !in carved && n !in carved && m != n
    ensures |cells - (carved + {m, n})| == |cells - carved| - 2
  {
    var w := cells - carved;
    assert cells - (carved + {m, n}) == (w - {m}) - {n};
  }

  /** The initial loops: a size by size grid of new cells (each PATH when created) all set to WALL. */
  method AllWalls(size: nat) returns (maze: array2<CellState>)
    ensures fresh(maze) && maze.Length0 == size && maze.Length1 == size && Holds(maze, {})
  {
    maze := new CellState[size, size];
    for row := 0 to size
      invariant forall r, c :: 0 <= r < row && 0 <= c < size ==> maze[r, c] == Wall
    {
      for col := 0 to size
        invariant forall r, c :: 0 <= r < row && 0 <= c < size ==> maze[r, c] == Wall
        invariant forall c :: 0 <= c < col ==> maze[row, c] == Wall
      {
        maze[row, col] := Path;
        maze[row, col] := Wall;
      }
    }
  }

  /** `setState(CellState.PATH)` on one cell of the grid: that cell joins the carved ones. */
  method SetPath(maze: array2<CellState>, ghost carved: set<Pos>, p: Pos)
    modifies maze
    requires Holds(maze, carved) && Inside(maze, p)
    ensures Holds(maze, carved + {p})
  {
    maze[p.row, p.col] := Path;
  }

  /**
   * One round of the carving loop: the top of the stack either carves and pushes one of its
   * uncarved cells two steps away, together with the cell midway, or is popped. Either way the
   * number of walls, twice over, plus the stack's height goes down.
   */
  method Round(maze: array2<CellState>, size: nat, start: Pos, stack: seq<Pos>, ghost carved: set<Pos>)
    returns (stack': seq<Pos>, ghost carved': set<Pos>)
    modifies maze
    requires maze.Length0 == size && maze.Length1 == size && stack != []
    requires Holds(maze, carved) && Grown(carved, start, size, stack)
    ensures Holds(maze, carved') && Grown(carved', start, size, stack')
    ensures carved <= carved'
    ensures var top := stack[|stack| - 1];
      || (exists n :: n in Unvisited(carved, size, Jumps(top)) &&
            stack' == stack + [n] && carved' == carved + {Midway(top, n), n})
      || (Unvisited(carved, size, Jumps(top)) == [] && stack' == stack[..|stack| - 1] && carved' == carved)
    ensures 2 * |AllCells(maze) - carved'| + |stack'| < 2 * |AllCells(maze) - carved| + |stack|
  {
    var current := stack[|stack| - 1];
    var neighbors := UnvisitedNeighbors(current, maze, size, carved);
    if neighbors != [] {
      var k :| 0 <= k < |neighbors|;
      var neighbor := neighbors[k];
      var wall := Midway(current, neighbor);
      GrowStep(carved, start, size, stack, neighbor);
      SetPath(maze, carved, wall);
      SetPath(maze, carved + {wall}, neighbor);
      stack' := stack + [neighbor];
      FewerWalls(AllCells(maze), carved, wall, neighbor);
      assert carved + {wall} + {neighbor} == carved + {wall, neighbor};
      carved' := carved + {wall, neighbor};
      assert neighbor in Unvisited(carved, size, Jumps(current));
    } else {
      GrowPop(carved, start, size, stack);
      stack' := stack[..|stack| - 1];
      carved' := carved;
    }
  }

  /**
   * The carving from a given start cell: it is carved and pushed, and rounds run until the
   * stack is empty. Every cell changes at most once, from WALL to PATH.
   */
  method Carve(maze: array2<CellState>, size: nat, start: Pos) returns (ghost carved: set<Pos>)
    modifies maze
    requires maze.Length0 == size && maze.Length1 == size && Holds(maze, {}) && InGrid(size, start)
    ensures Holds(maze, carved) && Grown(carved, start, size, [])
  {
    SetPath(maze, {}, start);
    carved := {start};
    var stack := [start];
    GrowStart(start, size);
    while stack != []
      invariant Holds(maze, carved) && Grown(carved, start, size, stack)
      decreases 2 * |AllCells(maze) - carved| + |stack|
    {
      stack, carved := Round(maze, size, start, stack, carved);
    }
  }

  /** The two final assignments: START at (0, 0), then END at the opposite corner. */
  method MarkCorners(maze: array2<CellState>, size: nat, ghost carved: set<Pos>)
    modifies maze
    requires size > 0 && maze.Length0 == size && maze.Length1 == size && Holds(maze, carved)
    ensures Snapshot(maze) == Final(carved, size)
  {
    maze[0, 0] := Start;
    maze[size - 1, size - 1] := End;
    ghost var f := Final(carved, size);
    forall r, c | 0 <= r < size && 0 <= c < size ensures f[r][c] == maze[r, c] {
    }
    SnapshotDepicts(maze);
    SameBoard(maze, Snapshot(maze), f);
  }

  /**
   * `generate(size)`: an all-wall grid carved from a random start cell, then marked. Every cell
   * of the start's row and column parity is carved and can be reached from the start; every
   * other carved cell lies between two of them.
   */
  method Generate(size: nat) returns (maze: array2<CellState>, ghost start: Pos, ghost carved: set<Pos>)
    requires size > 0
    ensures fresh(maze) && maze.Length0 == size && maze.Length1 == size
    ensures InGrid(size, start) && Grown(carved, start, size, [])
    ensures Snapshot(maze) == Final(carved, size)
    ensures forall q :: InGrid(size, q) && Room(start, q) ==> q in carved
    ensures forall q :: q in carved ==> Reachable(Snapshot(maze), start, q)
  {
    maze := AllWalls(size);
    var startRow :| 0 <= startRow < size;
    var startCol :| 0 <= startCol < size;
    var startCell := Pos(startRow, startCol);
    start := startCell;
    carved := Carve(maze, size, startCell);
    MarkCorners(maze, size, carved);
    forall q | InGrid(size, q) && Room(start, q) ensures q in carved {
      AllRooms(carved, start, size, q);
    }
    forall q | q in carved ensures Reachable(Final(carved, size), start, q) {
      FinalReach(carved, start, size, q);
    }
  }

  /**
   * `generate` with the start cell drawn from an even row and an odd column: the same carving,
   * after which END can always be reached from START.
   */
  method GenerateJoined(size: nat) returns (maze: array2<CellState>, ghost start: Pos, ghost carved: set<Pos>)
    requires size > 0
    ensures fresh(maze) && maze.Length0 == size && maze.Length1 == size
    ensures InGrid(size, start) && Grown(carved, start, size, [])
    ensures Snapshot(maze) == Final(carved, size)
    ensures size >= 2 ==> Reachable(Snapshot(maze), Pos(0, 0), Pos(size - 1, size - 1))
  {
    maze := AllWalls(size);
    assert 0 % 2 == 0;
    var startRow :| 0 <= startRow < size && startRow % 2 == 0;
    assert size == 1 || 1 % 2 == 1;
    var startCol :| 0 <= startCol < size && (size == 1 || startCol % 2 == 1);
    var startCell := Pos(startRow, startCol);
    start := startCell;
    carved := Carve(maze, size, startCell);
    MarkCorners(maze, size, carved);
    if size >= 2 {
      JoinedCorners(carved, start, size);
    }
  }
}
