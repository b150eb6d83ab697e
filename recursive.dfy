/**
 * The two recursive searches, as functions of the board and of the set of cells marked visited
 * when a call begins. Both trees share them: the current tree also records the order in which
 * cells are marked, the older tree keeps only the path.
 *
 * `Descend` is the down-then-right search, whose marks are never cleared; `Back` is the
 * four-direction search that clears its own mark when every direction fails.
 */
module Recursive {
  import opened Grid

  /** What one call of the recursion yields: success, the marks it leaves, the cells it marked in order, the path. */
  datatype Trail = Trail(found: bool, visited: set<Pos>, explored: seq<Pos>, path: seq<Pos>)

  /** Marking one more open, unmarked cell leaves fewer unmarked cells of the board. */
  lemma Shrink(b: Board, vis: set<Pos>, p: Pos, w: set<Pos>)
    requires Open(b, p) && p !in vis && vis + {p} <= w
    ensures |Cells(b) - w| < |Cells(b) - vis|
  {
    assert Cells(b) - w <= (Cells(b) - vis) - {p};
    assert (Cells(b) - vis) == ((Cells(b) - vis) - {p}) + {p};
    SubsetCard(Cells(b) - w, (Cells(b) - vis) - {p});
  }

  lemma SubsetCard<T>(a: set<T>, c: set<T>)
    requires a <= c
    ensures |a| <= |c|
  {
    assert c == a + (c - a);
    assert a * (c - a) == {};
  }

  // ----- the down/right search -------------------------------------------------------------

  /**
   * `findPath` of the down/right solver called on `p` with the cells `vis` marked: an open,
   * unmarked cell is marked and recorded; unless it is `end`, the cell below is tried, then,
   * if that fails, the cell to the right with the marks the first attempt left.
   */
  function Descend(b: Board, vis: set<Pos>, p: Pos, end: Pos): (t: Trail)
    ensures vis <= t.visited
    decreases |Cells(b) - vis|
  {
    if !Open(b, p) || p in vis then Trail(false, vis, [], [])
    else if p == end then Trail(true, vis + {p}, [p], [p])
    else
      Shrink(b, vis, p, vis + {p});
      var d := Descend(b, vis + {p}, Down(p), end);
      if d.found then Trail(true, d.visited, [p] + d.explored, [p] + d.path)
      else
        Shrink(b, vis, p, d.visited);
        var r := Descend(b, d.visited, Right(p), end);
        Trail(r.found, r.visited, [p] + d.explored + r.explored, if r.found then [p] + r.path else [])
  }

  /** The four outcomes of one call of `Descend`, one lemma each, for the solvers that follow it step by step. */
  lemma DescendStop(b: Board, vis: set<Pos>, p: Pos, end: Pos)
    requires !Open(b, p) || p in vis
    ensures Descend(b, vis, p, end) == Trail(false, vis, [], [])
  {
  }

  lemma DescendHit(b: Board, vis: set<Pos>, p: Pos, end: Pos)
    requires Open(b, p) && p !in vis && p == end
    ensures Descend(b, vis, p, end) == Trail(true, vis + {p}, [p], [p])
  {
  }

  lemma DescendBelow(b: Board, vis: set<Pos>, p: Pos, end: Pos, d: Trail)
    requires Open(b, p) && p !in vis && p != end
    requires d == Descend(b, vis + {p}, Down(p), end) && d.found
    ensures Descend(b, vis, p, end) == Trail(true, d.visited, [p] + d.explored, [p] + d.path)
  {
  }

  lemma DescendBeside(b: Board, vis: set<Pos>, p: Pos, end: Pos, d: Trail, r: Trail)
    requires Open(b, p) && p !in vis && p != end
    requires d == Descend(b, vis + {p}, Down(p), end) && !d.found
    requires r == Descend(b, d.visited, Right(p), end)
    ensures Descend(b, vis, p, end) == Trail(r.found, r.visited, [p] + d.explored + r.explored, if r.found then [p] + r.path else [])
  {
  }

  /** Each call below or beside records fewer cells than the call that makes it. */
  lemma DescendShorter(b: Board, vis: set<Pos>, p: Pos, end: Pos)
    requires Open(b, p) && p !in vis && p != end
    ensures var t := Descend(b, vis, p, end); var d := Descend(b, vis + {p}, Down(p), end);
      && |d.explored| < |t.explored|
      && (!d.found ==> |Descend(b, d.visited, Right(p), end).explored| < |t.explored|)
  {
  }

  /** A route of open cells, each a step down or a step right from the one before. */
  ghost predicate MonoRoute(b: Board, rt: seq<Pos>, s: Pos, e: Pos) {
    && |rt| > 0 && rt[0] == s && rt[|rt| - 1] == e
    && (forall i :: 0 <= i < |rt| ==> Open(b, rt[i]))
    && (forall i :: 0 < i < |rt| ==> rt[i] == Down(rt[i - 1]) || rt[i] == Right(rt[i - 1]))
  }

  ghost predicate MonoReachable(b: Board, s: Pos, e: Pos) {
    exists rt :: MonoRoute(b, rt, s, e)
  }

  /** A down/right route is an ordinary route whose first cell is open too. */
  lemma MonoIsRoute(b: Board, rt: seq<Pos>, s: Pos, e: Pos)
    requires MonoRoute(b, rt, s, e)
    ensures IsOpenRoute(b, rt, s, e)
  {
  }

  /**
   * A down/right route never goes up or left, and it has exactly one cell per row and column
   * step between its ends, plus one.
   */
  lemma {:induction false} MonoLength(b: Board, rt: seq<Pos>, s: Pos, e: Pos)
    requires MonoRoute(b, rt, s, e)
    ensures s.row <= e.row && s.col <= e.col
    ensures |rt| == (e.row - s.row) + (e.col - s.col) + 1
  {
    if |rt| > 1 {
      var tl := rt[1..];
      assert MonoRoute(b, tl, rt[1], e) by {
        forall i | 0 < i < |tl| ensures tl[i] == Down(tl[i - 1]) || tl[i] == Right(tl[i - 1]) {
          assert tl[i] == rt[i + 1] && tl[i - 1] == rt[i];
        }
      }
      MonoLength(b, tl, rt[1], e);
    }
  }

  /**
   * What a call records: the cells it marks are open, were unmarked before, and each is
   * recorded once, in the order marked; it records `p` first exactly when `p` is open and
   * unmarked, and a successful call records `end` last.
   */
  ghost predicate Recorded(b: Board, vis: set<Pos>, p: Pos, end: Pos, t: Trail) {
    && t.visited == vis + Elems(t.explored)
    && Distinct(t.explored)
    && (forall i :: 0 <= i < |t.explored| ==> Open(b, t.explored[i]) && t.explored[i] !in vis)
    && (t.explored != [] <==> Open(b, p) && p !in vis)
    && (t.explored != [] ==> t.explored[0] == p)
    && (t.found ==> t.explored != [] && t.explored[|t.explored| - 1] == end)
  }

  /** Recording `p` ahead of a call that succeeded below it. */
  lemma RecordedDown(b: Board, vis: set<Pos>, p: Pos, end: Pos, d: Trail)
    requires Open(b, p) && p !in vis && Recorded(b, vis + {p}, Down(p), end, d) && d.found
    ensures Recorded(b, vis, p, end, Trail(true, d.visited, [p] + d.explored, [p] + d.path))
  {
    var e := [p] + d.explored;
    forall i | 0 < i < |e| ensures e[i] == d.explored[i - 1] {}
    assert Elems(e) == {p} + Elems(d.explored);
  }

  /** Recording `p` ahead of a failed call below it and a call to its right. */
  lemma RecordedRight(b: Board, vis: set<Pos>, p: Pos, end: Pos, d: Trail, r: Trail, path: seq<Pos>)
    requires Open(b, p) && p !in vis && p != end
    requires Recorded(b, vis + {p}, Down(p), end, d) && !d.found
    requires Recorded(b, d.visited, Right(p), end, r)
    ensures Recorded(b, vis, p, end, Trail(r.found, r.visited, [p] + d.explored + r.explored, path))
  {
    var n := |d.explored|;
    var e := [p] + d.explored + r.explored;
    forall i | 0 < i <= n ensures e[i] == d.explored[i - 1] {}
    forall i | n < i < |e| ensures e[i] == r.explored[i - 1 - n] {}
    forall i, j | 0 <= i < j < |e| ensures e[i] != e[j] {
      if i == 0 {
        assert e[j] in d.explored || e[j] in r.explored;
      } else if j <= n {
        assert e[i] == d.explored[i - 1] && e[j] == d.explored[j - 1];
      } else if i <= n {
        assert e[i] in d.visited;
      }
    }
    assert Elems(e) == {p} + Elems(d.explored) + Elems(r.explored);
  }

  lemma {:induction false} DescendTrace(b: Board, vis: set<Pos>, p: Pos, end: Pos)
    ensures Recorded(b, vis, p, end, Descend(b, vis, p, end))
    decreases |Cells(b) - vis|
  {
    if Open(b, p) && p !in vis && p != end {
      Shrink(b, vis, p, vis + {p});
      var d := Descend(b, vis + {p}, Down(p), end);
      DescendTrace(b, vis + {p}, Down(p), end);
      if d.found {
        RecordedDown(b, vis, p, end, d);
      } else {
        Shrink(b, vis, p, d.visited);
        var r := Descend(b, d.visited, Right(p), end);
        DescendTrace(b, d.visited, Right(p), end);
        RecordedRight(b, vis, p, end, d, r, if r.found then [p] + r.path else []);
      }
    } else if Open(b, p) && p !in vis {
      assert Elems([p]) == {p};
    }
  }

  /** A successful call returns a down/right route from `p` to `end`; a failed one an empty path. */
  lemma {:induction false} DescendPath(b: Board, vis: set<Pos>, p: Pos, end: Pos)
    ensures var t := Descend(b, vis, p, end);
      && (t.found ==> MonoRoute(b, t.path, p, end))
      && (!t.found ==> t.path == [])
    decreases |Cells(b) - vis|
  {
    if Open(b, p) && p !in vis && p != end {
      Shrink(b, vis, p, vis + {p});
      var d := Descend(b, vis + {p}, Down(p), end);
      DescendPath(b, vis + {p}, Down(p), end);
      if d.found {
        PrependMono(b, p, d.path, Down(p), end);
      } else {
        Shrink(b, vis, p, d.visited);
        var r := Descend(b, d.visited, Right(p), end);
        DescendPath(b, d.visited, Right(p), end);
        if r.found {
          PrependMono(b, p, r.path, Right(p), end);
        }
      }
    }
  }

  lemma PrependMono(b: Board, p: Pos, rt: seq<Pos>, q: Pos, e: Pos)
    requires Open(b, p) && MonoRoute(b, rt, q, e) && (q == Down(p) || q == Right(p))
    ensures MonoRoute(b, [p] + rt, p, e)
  {
    var s := [p] + rt;
    forall i | 0 < i < |s| ensures s[i] == Down(s[i - 1]) || s[i] == Right(s[i - 1]) {
      assert s[i] == rt[i - 1];
      if i > 1 {
        assert s[i - 1] == rt[i - 2];
      }
    }
    forall i | 0 <= i < |s| ensures Open(b, s[i]) {
      if i > 0 {
        assert s[i] == rt[i - 1];
      }
    }
  }

  /**
   * The cells a failed call marks are dead ends: `end` is not among them, and the open cells
   * below and to the right of each are marked when the call returns. An open `p` is always
   * marked on return.
   */
  lemma {:induction false} DescendClosed(b: Board, vis: set<Pos>, p: Pos, end: Pos)
    ensures var t := Descend(b, vis, p, end);
      && (Open(b, p) ==> p in t.visited)
      && (!t.found ==> end !in t.visited - vis)
      && (!t.found ==> forall q :: q in t.visited - vis ==>
            (Open(b, Down(q)) ==> Down(q) in t.visited) && (Open(b, Right(q)) ==> Right(q) in t.visited))
    decreases |Cells(b) - vis|
  {
    if Open(b, p) && p !in vis && p != end {
      Shrink(b, vis, p, vis + {p});
      var d := Descend(b, vis + {p}, Down(p), end);
      DescendClosed(b, vis + {p}, Down(p), end);
      if !d.found {
        Shrink(b, vis, p, d.visited);
        DescendClosed(b, d.visited, Right(p), end);
      }
    }
  }

  /** A down/right route that starts on a marked cell cannot leave a closed set of dead ends without meeting `vis`. */
  lemma {:induction false} Blocked(b: Board, rt: seq<Pos>, e: Pos, vis: set<Pos>, w: set<Pos>)
    requires |rt| > 0 && MonoRoute(b, rt, rt[0], e) && rt[0] in w - vis
    requires e !in w - vis
    requires forall q :: q in w - vis ==>
      (Open(b, Down(q)) ==> Down(q) in w) && (Open(b, Right(q)) ==> Right(q) in w)
    ensures exists i :: 0 < i < |rt| && rt[i] in vis
  {
    assert |rt| > 1;
    if rt[1] in vis {
      assert 0 < 1 < |rt| && rt[1] in vis;
    } else {
      var tl := rt[1..];
      assert MonoRoute(b, tl, tl[0], e) by {
        forall i | 0 < i < |tl| ensures tl[i] == Down(tl[i - 1]) || tl[i] == Right(tl[i - 1]) {
          assert tl[i] == rt[i + 1] && tl[i - 1] == rt[i];
        }
      }
      Blocked(b, tl, e, vis, w);
      var i :| 0 < i < |tl| && tl[i] in vis;
      assert rt[i + 1] in vis;
    }
  }

  /**
   * From an unmarked grid, the down/right search succeeds exactly when a down/right route of
   * open cells leads from `start` to `end`: it is complete for such routes and for no others.
   */
  lemma DescendFinds(b: Board, start: Pos, end: Pos)
    ensures Descend(b, {}, start, end).found <==> MonoReachable(b, start, end)
  {
    var t := Descend(b, {}, start, end);
    DescendPath(b, {}, start, end);
    DescendClosed(b, {}, start, end);
    if !t.found && MonoReachable(b, start, end) {
      var rt :| MonoRoute(b, rt, start, end);
      Blocked(b, rt, end, {}, t.visited);
    }
  }

  // ----- the four-direction search with backtracking ---------------------------------------

  /** Neighbour offsets of the backtracking solver, tried in the order down, up, right, left. */
  const BR: seq<int> := [1, -1, 0, 0]
  const BC: seq<int> := [0, 0, 1, -1]

  function Dir(p: Pos, i: nat): (q: Pos)
    requires i < 4
    ensures Adjacent(p, q)
  {
    Shift(p, BR[i], BC[i])
  }

  /** Every cell adjacent to `p` is one of the four directions. */
  lemma DirCases(p: Pos, q: Pos) returns (i: nat)
    requires Adjacent(p, q)
    ensures i < 4 && q == Dir(p, i)
  {
    AdjacentCases(p, q);
    if q == Down(p) { i := 0; }
    else if q == Up(p) { i := 1; }
    else if q == Right(p) { i := 2; }
    else { i := 3; }
  }

  /**
   * `findPath` of the backtracking solver called on `p` with the cells `vis` marked: an open,
   * unmarked cell is marked and recorded; unless it is `end`, the four directions are tried in
   * turn, and if all fail the mark on `p` is cleared, so that a failed call leaves the marks
   * as it found them.
   */
  function Back(b: Board, vis: set<Pos>, p: Pos, end: Pos): (t: Trail)
    decreases |Cells(b) - vis|, 0
  {
    if !Open(b, p) || p in vis then Trail(false, vis, [], [])
    else if p == end then Trail(true, vis + {p}, [p], [p])
    else
      Shrink(b, vis, p, vis + {p});
      var r := Try(b, vis + {p}, p, end, 0);
      if r.found then Trail(true, r.visited, [p] + r.explored, [p] + r.path)
      else Trail(false, vis, [p] + r.explored, [])
  }

  /** The directions `i`, `i + 1`, … of the loop in `findPath`, each tried with the marks `vis`, until one succeeds. */
  function Try(b: Board, vis: set<Pos>, p: Pos, end: Pos, i: nat): (t: Trail)
    requires i <= 4
    decreases |Cells(b) - vis|, 5 - i
  {
    if i == 4 then Trail(false, vis, [], [])
    else
      var c := Back(b, vis, Dir(p, i), end);
      if c.found then c
      else
        var r := Try(b, vis, p, end, i + 1);
        Trail(r.found, r.visited, c.explored + r.explored, r.path)
  }

  /** The three outcomes of one call of `Back`, for the solvers that follow it step by step. */
  lemma BackStop(b: Board, vis: set<Pos>, p: Pos, end: Pos)
    requires !Open(b, p) || p in vis
    ensures Back(b, vis, p, end) == Trail(false, vis, [], [])
  {
  }

  lemma BackHit(b: Board, vis: set<Pos>, p: Pos, end: Pos)
    requires Open(b, p) && p !in vis && p == end
    ensures Back(b, vis, p, end) == Trail(true, vis + {p}, [p], [p])
  {
  }

  lemma BackAround(b: Board, vis: set<Pos>, p: Pos, end: Pos, r: Trail)
    requires Open(b, p) && p !in vis && p != end && r == Try(b, vis + {p}, p, end, 0)
    ensures Back(b, vis, p, end) == if r.found then Trail(true, r.visited, [p] + r.explored, [p] + r.path)
                                   else Trail(false, vis, [p] + r.explored, [])
  {
  }

  /** The call in each direction records no more cells than the loop from that direction on. */
  lemma TryCovers(b: Board, vis: set<Pos>, p: Pos, end: Pos, i: nat)
    requires i < 4
    ensures |Back(b, vis, Dir(p, i), end).explored| <= |Try(b, vis, p, end, i).explored|
  {
  }

  /**
   * What a call of the backtracking search guarantees: a successful call returns a route of
   * open cells from `p` to `end` that repeats no cell and avoids the cells marked when the
   * call began, a failed one an empty path; every recorded cell is open, the first recorded
   * is `p`, and a successful call records `end` last.
   */
  ghost predicate Sound(b: Board, vis: set<Pos>, p: Pos, end: Pos, t: Trail) {
    && (t.found ==> IsOpenRoute(b, t.path, p, end) && Distinct(t.path) && Avoids(t.path, vis))
    && (!t.found ==> t.path == [])
    && (forall i :: 0 <= i < |t.explored| ==> Open(b, t.explored[i]))
    && (t.explored != [] <==> Open(b, p) && p !in vis)
    && (t.explored != [] ==> t.explored[0] == p)
    && (t.found ==> t.explored != [] && t.explored[|t.explored| - 1] == end)
  }

  /** What the loop over directions guarantees: a route from some neighbour of `p`, as the call on it returned. */
  ghost predicate TrySound(b: Board, vis: set<Pos>, p: Pos, end: Pos, t: Trail) {
    && (t.found ==> t.path != [] && Adjacent(p, t.path[0]) && IsOpenRoute(b, t.path, t.path[0], end)
                    && Distinct(t.path) && Avoids(t.path, vis))
    && (!t.found ==> t.path == [])
    && (forall k :: 0 <= k < |t.explored| ==> Open(b, t.explored[k]))
    && (t.found ==> t.explored != [] && t.explored[|t.explored| - 1] == end)
  }

  /** Marking `p`, recording it, and prepending it to whatever the loop over its directions found. */
  lemma SoundAround(b: Board, vis: set<Pos>, p: Pos, end: Pos, r: Trail)
    requires Open(b, p) && p !in vis && p != end && TrySound(b, vis + {p}, p, end, r)
    ensures Sound(b, vis, p, end, if r.found then Trail(true, r.visited, [p] + r.explored, [p] + r.path)
                                  else Trail(false, vis, [p] + r.explored, []))
  {
    var e := [p] + r.explored;
    forall i | 0 < i < |e| ensures Open(b, e[i]) {
      assert e[i] == r.explored[i - 1];
    }
    if r.found {
      var s := [p] + r.path;
      forall i | 0 < i < |s| ensures s[i] == r.path[i - 1] {}
      forall i | 0 < i < |s| ensures Adjacent(s[i - 1], s[i]) && Open(b, s[i]) {
        if i > 1 {
          assert s[i - 1] == r.path[i - 2];
        }
      }
      forall i, j | 0 <= i < j < |s| ensures s[i] != s[j] {
        if i > 0 {
          assert s[i] == r.path[i - 1];
        }
      }
    }
  }

  /** A failed direction's recorded cells come ahead of those the remaining directions record. */
  lemma TrySoundNext(b: Board, vis: set<Pos>, p: Pos, end: Pos, i: nat, c: Trail, r: Trail)
    requires i < 4 && Sound(b, vis, Dir(p, i), end, c) && !c.found && TrySound(b, vis, p, end, r)
    ensures TrySound(b, vis, p, end, Trail(r.found, r.visited, c.explored + r.explored, r.path))
  {
    var e := c.explored + r.explored;
    forall k | 0 <= k < |e| ensures Open(b, e[k]) {
      if k >= |c.explored| {
        assert e[k] == r.explored[k - |c.explored|];
      }
    }
  }

  lemma {:induction false} BackSound(b: Board, vis: set<Pos>, p: Pos, end: Pos)
    ensures Sound(b, vis, p, end, Back(b, vis, p, end))
    decreases |Cells(b) - vis|, 0
  {
    if Open(b, p) && p !in vis && p != end {
      Shrink(b, vis, p, vis + {p});
      TryLoopSound(b, vis + {p}, p, end, 0);
      SoundAround(b, vis, p, end, Try(b, vis + {p}, p, end, 0));
    }
  }

  lemma {:induction false} TryLoopSound(b: Board, vis: set<Pos>, p: Pos, end: Pos, i: nat)
    requires i <= 4
    ensures TrySound(b, vis, p, end, Try(b, vis, p, end, i))
    decreases |Cells(b) - vis|, 5 - i
  {
    if i < 4 {
      var c := Back(b, vis, Dir(p, i), end);
      BackSound(b, vis, Dir(p, i), end);
      if !c.found {
        TryLoopSound(b, vis, p, end, i + 1);
        TrySoundNext(b, vis, p, end, i, c, Try(b, vis, p, end, i + 1));
      }
    }
  }

  /** Once direction `d` succeeds from `p`, the loop starting at any earlier direction succeeds. */
  lemma {:induction false} TryReaches(b: Board, vis: set<Pos>, p: Pos, end: Pos, i: nat, d: nat)
    requires i <= d < 4 && Back(b, vis, Dir(p, d), end).found
    ensures Try(b, vis, p, end, i).found
    decreases d - i
  {
    if i < d && !Back(b, vis, Dir(p, i), end).found {
      TryReaches(b, vis, p, end, i + 1, d);
    }
  }

  /** The last position at which `x` occurs in `s`. */
  lemma LastIndex(s: seq<Pos>, x: Pos) returns (k: nat)
    requires x in s
    ensures k < |s| && s[k] == x && forall j :: k < j < |s| ==> s[j] != x
  {
    k := |s| - 1;
    while s[k] != x
      invariant k < |s| && x in s[..k + 1]
      invariant forall j :: k < j < |s| ==> s[j] != x
      decreases k
    {
      assert s[..k + 1] == s[..k] + [s[k]];
      k := k - 1;
    }
  }

  /**
   * The backtracking search is complete: when a route of open cells avoiding the marked cells
   * leads from `p` to `end`, the call succeeds.
   */
  lemma {:induction false} BackComplete(b: Board, vis: set<Pos>, p: Pos, end: Pos, rt: seq<Pos>)
    requires IsOpenRoute(b, rt, p, end) && Avoids(rt, vis)
    ensures Back(b, vis, p, end).found
    decreases |Cells(b) - vis|
  {
    if p != end {
      Shrink(b, vis, p, vis + {p});
      var k := LastIndex(rt, p);
      assert k < |rt| - 1;
      var tl := rt[k + 1..];
      assert Adjacent(p, tl[0]) by {
        assert rt[k + 1] == tl[0];
      }
      var d := DirCases(p, tl[0]);
      assert IsOpenRoute(b, tl, tl[0], end) && Avoids(tl, vis + {p}) by {
        forall i | 0 < i < |tl| ensures Adjacent(tl[i - 1], tl[i]) && Open(b, tl[i]) {
          assert tl[i] == rt[k + 1 + i] && tl[i - 1] == rt[k + i];
        }
        forall i | 0 <= i < |tl| ensures tl[i] !in vis + {p} {
          assert tl[i] == rt[k + 1 + i];
        }
      }
      BackComplete(b, vis + {p}, tl[0], end, tl);
      TryReaches(b, vis + {p}, p, end, 0, d);
    }
  }

  /**
   * From an unmarked grid, the backtracking search succeeds exactly when `start` is open and
   * `end` can be reached from it through open cells.
   */
  lemma BackFinds(b: Board, start: Pos, end: Pos)
    ensures Back(b, {}, start, end).found <==> Open(b, start) && Reachable(b, start, end)
  {
    BackSound(b, {}, start, end);
    if Open(b, start) && Reachable(b, start, end) {
      var rt :| IsRoute(b, rt, start, end);
      BackComplete(b, {}, start, end, rt);
    }
  }

  /**
   * The directions are tried in the order down, up, right, left: a successful call that does
   * not stop at `p` continues along the first direction whose call succeeds, and every earlier
   * direction's call failed.
   */
  lemma {:induction false} TryFirst(b: Board, vis: set<Pos>, p: Pos, end: Pos, i: nat) returns (k: nat)
    requires i <= 4 && Try(b, vis, p, end, i).found
    ensures i <= k < 4 && Back(b, vis, Dir(p, k), end).found
    ensures Try(b, vis, p, end, i).path == Back(b, vis, Dir(p, k), end).path
    ensures forall j :: i <= j < k ==> !Back(b, vis, Dir(p, j), end).found
    decreases 4 - i
  {
    if Back(b, vis, Dir(p, i), end).found {
      k := i;
    } else {
      k := TryFirst(b, vis, p, end, i + 1);
    }
  }
  // ----- what a whole search from an unmarked grid yields ----------------------------------

  /**
   * The down/right search from an unmarked grid: the recorded cells are distinct open cells,
   * headed by `start` when it is open and none at all when it is not; it succeeds exactly when
   * a down/right route exists, and then returns one, of length `(end.row - start.row) +
   * (end.col - start.col) + 1`, with `end` recorded last; else the path is empty. In
   * particular an `end` above or to the left of `start` is never found.
   */
  lemma DescendResult(b: Board, start: Pos, end: Pos)
    ensures var t := Descend(b, {}, start, end);
      && Distinct(t.explored)
      && (forall i :: 0 <= i < |t.explored| ==> Open(b, t.explored[i]))
      && (t.explored != [] <==> Open(b, start))
      && (t.explored != [] ==> t.explored[0] == start)
      && (t.found <==> MonoReachable(b, start, end))
      && (t.found <==> t.path != [])
      && (t.found ==> MonoRoute(b, t.path, start, end) && IsOpenRoute(b, t.path, start, end)
                      && |t.path| == (end.row - start.row) + (end.col - start.col) + 1
                      && t.explored[|t.explored| - 1] == end)
      && (end.row < start.row || end.col < start.col ==> t.path == [])
  {
    var t := Descend(b, {}, start, end);
    DescendTrace(b, {}, start, end);
    DescendPath(b, {}, start, end);
    DescendFinds(b, start, end);
    if t.found {
      MonoIsRoute(b, t.path, start, end);
      MonoLength(b, t.path, start, end);
    }
  }

  /**
   * The backtracking search from an unmarked grid: every recorded cell is open, `start` first
   * when it is open, none at all when it is not; it succeeds exactly when `start` is open and
   * `end` reachable, and then returns a route without repeats with `end` recorded last; else
   * the path is empty.
   */
  lemma BackResult(b: Board, start: Pos, end: Pos)
    ensures var t := Back(b, {}, start, end);
      && (forall i :: 0 <= i < |t.explored| ==> Open(b, t.explored[i]))
      && (t.explored != [] <==> Open(b, start))
      && (t.explored != [] ==> t.explored[0] == start)
      && (t.found <==> Open(b, start) && Reachable(b, start, end))
      && (t.found <==> t.path != [])
      && (t.found ==> IsOpenRoute(b, t.path, start, end) && Distinct(t.path)
                      && t.explored[|t.explored| - 1] == end)
  {
    BackSound(b, {}, start, end);
    BackFinds(b, start, end);
  }

  // ----- the marks as the solvers keep them ------------------------------------------------

  /** `visited` has the grid's shape and is set exactly on the cells of `vis` inside the grid. */
  ghost predicate Tracks(g: array2<CellState>, visited: array2<bool>, vis: set<Pos>)
    reads visited
  {
    && visited.Length0 == g.Length0 && visited.Length1 == g.Length1
    && (forall r, c {:trigger visited[r, c]} :: 0 <= r < g.Length0 && 0 <= c < g.Length1 ==> (visited[r, c] <==> Pos(r, c) in vis))
  }

  /** `visited[row][col] = true`. */
  method Mark(g: array2<CellState>, visited: array2<bool>, ghost vis: set<Pos>, p: Pos)
    modifies visited
    requires Tracks(g, visited, vis) && Inside(g, p)
    ensures Tracks(g, visited, vis + {p})
  {
    visited[p.row, p.col] := true;
  }

  /** `visited[row][col] = false`, on a cell marked by the current call. */
  method Unmark(g: array2<CellState>, visited: array2<bool>, ghost vis: set<Pos>, p: Pos)
    modifies visited
    requires Tracks(g, visited, vis + {p}) && p !in vis && Inside(g, p)
    ensures Tracks(g, visited, vis)
  {
    visited[p.row, p.col] := false;
  }

  /** An unmarked `visited` matrix of the grid's shape. */
  method Unmarked(g: array2<CellState>) returns (visited: array2<bool>)
    ensures fresh(visited) && Tracks(g, visited, {})
  {
    visited := new bool[g.Length0, g.Length1]((r, c) => false);
  }

  /** `t` with `acc` recorded ahead of its own cells. */
  function After(acc: seq<Pos>, t: Trail): Trail {
    Trail(t.found, t.visited, acc + t.explored, t.path)
  }

  /** The loop stops at the first direction that succeeds, and `findPath` returns its route behind `p`. */
  lemma AroundFound(b: Board, vis: set<Pos>, p: Pos, end: Pos, i: nat, acc: seq<Pos>, c: Trail)
    requires Open(b, p) && p !in vis && p != end && i < 4
    requires Try(b, vis + {p}, p, end, 0) == After(acc, Try(b, vis + {p}, p, end, i))
    requires c == Back(b, vis + {p}, Dir(p, i), end) && c.found
    ensures Back(b, vis, p, end) == Trail(true, c.visited, [p] + (acc + c.explored), [p] + c.path)
  {
    BackAround(b, vis, p, end, Try(b, vis + {p}, p, end, 0));
  }

  /** When all four directions fail, `findPath` fails with the marks it was given. */
  lemma AroundFailed(b: Board, vis: set<Pos>, p: Pos, end: Pos, acc: seq<Pos>)
    requires Open(b, p) && p !in vis && p != end
    requires Try(b, vis + {p}, p, end, 0) == After(acc, Try(b, vis + {p}, p, end, 4))
    ensures Back(b, vis, p, end) == Trail(false, vis, [p] + acc, [])
  {
    BackAround(b, vis, p, end, Try(b, vis + {p}, p, end, 0));
    assert acc + [] == acc;
  }

  /** One failed direction moves its recorded cells from the loop's remainder into the accumulated prefix. */
  lemma AfterNext(b: Board, vis: set<Pos>, p: Pos, end: Pos, i: nat, acc: seq<Pos>)
    requires i < 4 && !Back(b, vis, Dir(p, i), end).found
    ensures After(acc, Try(b, vis, p, end, i)) == After(acc + Back(b, vis, Dir(p, i), end).explored, Try(b, vis, p, end, i + 1))
  {
    var c := Back(b, vis, Dir(p, i), end);
    var r := Try(b, vis, p, end, i + 1);
    assert acc + (c.explored + r.explored) == (acc + c.explored) + r.explored;
  }
}
