/** The shared grid vocabulary: cell states, coordinates, 4-neighbour moves and routes. */
module Grid {

  /** The six display states a cell can hold. */
  datatype CellState = Path | Wall | Start | End | Solution | Visited

  /** A cell is identified by its coordinates alone; its state lives in the grid. */
  datatype Pos = Pos(row: int, col: int)

  datatype Option<T> = None | Some(value: T)

  predicate Inside(g: array2<CellState>, p: Pos) {
    0 <= p.row < g.Length0 && 0 <= p.col < g.Length1
  }

  /** The contents of a grid as a value: row by row, the state of every cell. */
  type Board = seq<seq<CellState>>

  predicate Within(b: Board, p: Pos) {
    0 <= p.row < |b| && 0 <= p.col < |b[p.row]|
  }

  /** The grid's cells as they stand in the heap now. */
  ghost function Snapshot(g: array2<CellState>): (b: Board)
    reads g
    ensures forall p :: Within(b, p) <==> Inside(g, p)
    ensures forall p :: Inside(g, p) ==> Within(b, p) && b[p.row][p.col] == g[p.row, p.col]
  {
    seq(g.Length0, r reads g requires 0 <= r < g.Length0 =>
      seq(g.Length1, c reads g requires 0 <= c < g.Length1 => g[r, c]))
  }

  /** `b` holds, cell by cell, what the grid holds now. */
  ghost predicate Depicts(g: array2<CellState>, b: Board)
    reads g
  {
    && |b| == g.Length0
    && (forall r :: 0 <= r < |b| ==> |b[r]| == g.Length1)
    && (forall r, c :: 0 <= r < g.Length0 && 0 <= c < g.Length1 ==> b[r][c] == g[r, c])
  }

  lemma SnapshotDepicts(g: array2<CellState>)
    ensures Depicts(g, Snapshot(g))
  {
    var b := Snapshot(g);
    forall r, c | 0 <= r < g.Length0 && 0 <= c < g.Length1 ensures b[r][c] == g[r, c] {
      assert Inside(g, Pos(r, c));
    }
  }

  /** Two boards that depict the same grid are equal. */
  lemma SameBoard(g: array2<CellState>, b: Board, b': Board)
    requires Depicts(g, b) && Depicts(g, b')
    ensures b == b'
  {
    forall r | 0 <= r < |b| ensures b[r] == b'[r] {
      assert forall c :: 0 <= c < |b[r]| ==> b[r][c] == g[r, c] == b'[r][c];
    }
  }

  /** The state `b` holds at `p`. */
  function At(b: Board, p: Pos): CellState
    requires Within(b, p)
  {
    b[p.row][p.col]
  }

  /** `b` with the cell at `p` set to `s`; a cell outside the board changes nothing. */
  function Put(b: Board, p: Pos, s: CellState): (b': Board)
    ensures |b'| == |b| && forall r :: 0 <= r < |b| ==> |b'[r]| == |b[r]|
    ensures forall q :: Within(b, q) ==> At(b', q) == if q == p then s else At(b, q)
  {
    if Within(b, p) then b[p.row := b[p.row][p.col := s]] else b
  }

  /** `setState(s)` on the grid's cell at `p`. */
  method WriteCell(g: array2<CellState>, p: Pos, s: CellState)
    modifies g
    requires Inside(g, p)
    ensures Snapshot(g) == Put(old(Snapshot(g)), p, s)
  {
    ghost var b := Put(Snapshot(g), p, s);
    g[p.row, p.col] := s;
    forall r, c | 0 <= r < g.Length0 && 0 <= c < g.Length1 ensures b[r][c] == g[r, c] {
      assert At(b, Pos(r, c)) == b[r][c];
    }
    SnapshotDepicts(g);
    SameBoard(g, b, Snapshot(g));
  }

  /** A cell a solver may step on: inside the grid and not a wall. */
  predicate Open(b: Board, p: Pos) {
    Within(b, p) && b[p.row][p.col] != Wall
  }

  /** On a board that depicts the grid, a cell is open exactly when the grid has it and it is not a wall. */
  lemma OpenCell(g: array2<CellState>, b: Board, p: Pos)
    requires Depicts(g, b)
    ensures Open(b, p) <==> Inside(g, p) && g[p.row, p.col] != Wall
  {
  }

  function Shift(p: Pos, dr: int, dc: int): Pos {
    Pos(p.row + dr, p.col + dc)
  }

  function Up(p: Pos): Pos { Pos(p.row - 1, p.col) }
  function Down(p: Pos): Pos { Pos(p.row + 1, p.col) }
  function Left(p: Pos): Pos { Pos(p.row, p.col - 1) }
  function Right(p: Pos): Pos { Pos(p.row, p.col + 1) }

  /** Two cells that share a side. */
  predicate Adjacent(p: Pos, q: Pos) {
    (p.row == q.row && (p.col + 1 == q.col || q.col + 1 == p.col))
    || (p.col == q.col && (p.row + 1 == q.row || q.row + 1 == p.row))
  }

  /** The four cells that share a side with `p` are exactly its up, down, left and right moves. */
  lemma AdjacentCases(p: Pos, q: Pos)
    ensures Adjacent(p, q) <==> q == Up(p) || q == Down(p) || q == Left(p) || q == Right(p)
  {
  }

  /** Every cell of the grid, as a set of coordinates. */
  function AllCells(g: array2<CellState>): (s: set<Pos>)
    ensures forall p :: p in s <==> Inside(g, p)
  {
    var s := set r, c | 0 <= r < g.Length0 && 0 <= c < g.Length1 :: Pos(r, c);
    assert forall p :: Inside(g, p) ==> p in s by {
      forall p | Inside(g, p) ensures p in s {
        assert p == Pos(p.row, p.col);
      }
    }
    s
  }

  predicate Distinct<T(==)>(s: seq<T>) {
    forall i, j :: 0 <= i < j < |s| ==> s[i] != s[j]
  }

  /** Every cell of a board, as a set of coordinates. */
  function Cells(b: Board): (s: set<Pos>)
    ensures forall p :: p in s <==> Within(b, p)
  {
    var s := set r, c | 0 <= r < |b| && 0 <= c < |b[r]| :: Pos(r, c);
    assert forall p :: Within(b, p) ==> p in s by {
      forall p | Within(b, p) ensures p in s {
        assert p == Pos(p.row, p.col);
      }
    }
    s
  }

  /** The cells of a sequence, as a set. */
  function Elems(s: seq<Pos>): (e: set<Pos>)
    ensures forall x :: x in e <==> x in s
  {
    set x | x in s
  }

  /** Consecutive cells share a side and every cell after the first is open. */
  ghost predicate Linked(b: Board, rt: seq<Pos>) {
    forall i :: 0 < i < |rt| ==> Adjacent(rt[i - 1], rt[i]) && Open(b, rt[i])
  }

  /** A route from `s` to `e`; the first cell itself need not be open. */
  ghost predicate IsRoute(b: Board, rt: seq<Pos>, s: Pos, e: Pos) {
    |rt| > 0 && rt[0] == s && rt[|rt| - 1] == e && Linked(b, rt)
  }

  /** A route all of whose cells, the first included, are open. */
  ghost predicate IsOpenRoute(b: Board, rt: seq<Pos>, s: Pos, e: Pos) {
    IsRoute(b, rt, s, e) && Open(b, s)
  }

  ghost predicate Reachable(b: Board, s: Pos, e: Pos) {
    exists rt :: IsRoute(b, rt, s, e)
  }

  /** True if no cell of `rt` lies in `v`. */
  predicate Avoids(rt: seq<Pos>, v: set<Pos>) {
    forall i :: 0 <= i < |rt| ==> rt[i] !in v
  }

  lemma {:induction false} DistinctCard<T>(s: seq<T>)
    requires Distinct(s)
    ensures |set x | x in s| == |s|
  {
    if |s| > 0 {
      var t := s[..|s| - 1];
      assert Distinct(t);
      DistinctCard(t);
      assert (set x | x in s) == (set x | x in t) + {s[|s| - 1]};
      assert s[|s| - 1] !in (set x | x in t);
    } else {
      assert (set x | x in s) == {};
    }
  }

  lemma ProperSubsetCard<T>(a: set<T>, b: set<T>)
    requires a < b
    ensures |a| < |b|
  {
    assert b == a + (b - a);
    assert a * (b - a) == {};
    var x :| x in b - a;
  }

  /** A sequence without repeats drawn from a finite set is no longer than the set. */
  lemma DistinctBound<T>(s: seq<T>, u: set<T>)
    requires Distinct(s)
    requires forall i :: 0 <= i < |s| ==> s[i] in u
    ensures |s| <= |u|
  {
    DistinctCard(s);
    var a := set x | x in s;
    assert a <= u;
    assert u == a + (u - a);
    assert a * (u - a) == {};
  }
}
