/**
 * What the older tree's breadth- and depth-first solvers share: a `visited` matrix of the grid's
 * size, a parent map that has no entry for the start cell, the neighbour loop that marks,
 * links and pushes, and the path reconstruction with its final check against `start`.
 *
 * The ghost `links` map is the current tree's parent map (`start` mapped to `None`), kept in
 * step with the two concrete structures so that the frontier-search facts apply unchanged.
 */
module LegacySearch {
  import opened Grid
  import opened Search

  /** The parent map without the root, against the links with the root mapped to `None`. */
  ghost predicate Mirrors(parents: map<Pos, Pos>, links: map<Pos, Option<Pos>>, start: Pos)
  {
    && start in links && links[start] == None && start !in parents
    && (forall v {:trigger v in parents} :: v in parents <==> v in links && v != start)
    && (forall v {:trigger parents[v]} :: v in parents ==> links[v] == Some(parents[v]))
  }

  /** `visited` has the grid's shape and marks exactly the discovered cells, all of which lie inside the grid. */
  ghost predicate Marks(g: array2<CellState>, visited: array2<bool>, links: map<Pos, Option<Pos>>)
    reads visited
  {
    && visited.Length0 == g.Length0 && visited.Length1 == g.Length1
    && (forall r, c {:trigger visited[r, c]} :: 0 <= r < g.Length0 && 0 <= c < g.Length1 ==> (visited[r, c] <==> Pos(r, c) in links))
    && (forall p :: p in links ==> Inside(g, p))
  }

  /** The neighbour test of the older tree: inside the grid, not a wall, and not yet visited. */
  function IsValid(g: array2<CellState>, visited: array2<bool>, row: int, col: int): (ok: bool)
    reads g, visited
    requires visited.Length0 == g.Length0 && visited.Length1 == g.Length1
    ensures ok <==> Inside(g, Pos(row, col)) && g[row, col] != Wall && !visited[row, col]
  {
    if row < 0 || row >= g.Length0 || col < 0 || col >= g.Length1 then false
    else if g[row, col] == Wall then false
    else !visited[row, col]
  }

  /** The marks and the parent map both follow one more link. */
  lemma MirrorsNext(parents: map<Pos, Pos>, links: map<Pos, Option<Pos>>, start: Pos, n: Pos, cur: Pos)
    requires Mirrors(parents, links, start) && n !in links
    ensures Mirrors(parents[n := cur], links[n := Some(cur)], start)
  {
  }

  /** `visited[n.row][n.col] = true` for a newly discovered cell `n`. */
  method Mark(g: array2<CellState>, visited: array2<bool>, ghost links: map<Pos, Option<Pos>>, n: Pos, ghost cur: Pos)
    modifies visited
    requires Marks(g, visited, links) && Inside(g, n)
    ensures Marks(g, visited, links[n := Some(cur)])
  {
    visited[n.row, n.col] := true;
  }

  /**
   * The neighbour loop of the older tree: each neighbour that passes the test, in the order
   * up, down, left, right, is marked visited, gets `cur` as its parent and is appended to the
   * frontier. It adds the same cells, in the same order, as the current tree's loop.
   */
  method Expand(g: array2<CellState>, ghost b: Board, visited: array2<bool>, cur: Pos, frontier: seq<Pos>,
                parents: map<Pos, Pos>, ghost links: map<Pos, Option<Pos>>, ghost start: Pos)
    returns (frontier': seq<Pos>, parents': map<Pos, Pos>)
    modifies visited
    requires Depicts(g, b)
    requires Marks(g, visited, links) && Mirrors(parents, links, start)
    ensures frontier' == frontier + Fresh(b, links.Keys, Moves(cur))
    ensures Marks(g, visited, Assign(links, Fresh(b, links.Keys, Moves(cur)), Some(cur)))
    ensures Mirrors(parents', Assign(links, Fresh(b, links.Keys, Moves(cur)), Some(cur)), start)
  {
    frontier', parents' := frontier, parents;
    ghost var links' := links;
    ghost var ms := Moves(cur);
    MovesCells(cur);
    ghost var fr: seq<Pos> := [];
    for i := 0 to 4
      invariant fr == Fresh(b, links.Keys, ms[..i])
      invariant frontier' == frontier + fr
      invariant links' == Assign(links, fr, Some(cur))
      invariant Marks(g, visited, links') && Mirrors(parents', links', start)
    {
      var newRow, newCol := cur.row + DR[i], cur.col + DC[i];
      MoveAt(cur, i);
      ExpandNext(b, links, ms, i, Pos(newRow, newCol), fr, cur, links');
      OpenCell(g, b, Pos(newRow, newCol));
      if IsValid(g, visited, newRow, newCol) {
        var neighbour := Pos(newRow, newCol);
        MirrorsNext(parents', links', start, neighbour, cur);
        Mark(g, visited, links', neighbour, cur);
        parents' := parents'[neighbour := cur];
        Snoc(frontier, fr, neighbour);
        frontier' := frontier' + [neighbour];
        links' := links'[neighbour := Some(cur)];
        fr := fr + [neighbour];
      }
    }
    assert ms[..4] == ms;
  }

  /**
   * The older tree's reconstruction: prepend each cell and move to its parent until a cell
   * without one is met; keep the result only if it begins at `start`, else give an empty
   * list. `guarded` selects the depth-first variant's extra emptiness test, which the
   * breadth-first variant does without because the list always holds `end`.
   */
  method ReconstructPath(parents: map<Pos, Pos>, ghost links: map<Pos, Option<Pos>>, ghost depth: map<Pos, nat>,
                         start: Pos, end: Pos, guarded: bool) returns (path: seq<Pos>)
    requires Shaped(links, depth) && end in links && Mirrors(parents, links, start)
    ensures Chain(links, depth, end)[0] == start ==> path == Chain(links, depth, end)
    ensures Chain(links, depth, end)[0] != start ==> path == []
  {
    var chain: seq<Pos> := [];
    var current: Option<Pos> := Some(end);
    while current.Some?
      invariant current.Some? ==> current.value in links && Chain(links, depth, current.value) + chain == Chain(links, depth, end)
      invariant current.None? ==> chain == Chain(links, depth, end)
      decreases if current.Some? then depth[current.value] + 1 else 0
    {
      var v := current.value;
      chain := [v] + chain;
      current := if v in parents then Some(parents[v]) else None;
      if current.Some? {
        assert links[v] == Some(current.value);
        assert Chain(links, depth, v) == Chain(links, depth, current.value) + [v];
      } else {
        assert v == start;
      }
    }
    if guarded {
      path := if chain != [] && chain[0] == start then chain else [];
    } else {
      path := if chain[0] == start then chain else [];
    }
  }

  /**
   * What an older-tree solver returns once its loop has ended: the chain of links back from
   * `end` when `end` was reached, else an empty list. The list is empty exactly when `end` is
   * unreachable, and a returned list is a route without repeats.
   */
  lemma Report(b: Board, start: Pos, end: Pos, explored: seq<Pos>, links: map<Pos, Option<Pos>>,
               depth: map<Pos, nat>, found: bool, path: seq<Pos>)
    requires Outcome(b, start, end, explored, links, depth, found)
    requires path == if found then Chain(links, depth, end) else []
    ensures path != [] <==> Reachable(b, start, end)
    ensures path != [] ==> IsRoute(b, path, start, end) && Distinct(path)
    ensures start == end ==> path == [start]
  {
  }
}
