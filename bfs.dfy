/** The current tree's breadth-first solver: a FIFO queue, a parent map and an explored trace. */
module BfsSolver {
  import opened Grid
  import opened Search
  import opened SolveResults

  /**
   * Breadth-first layering of the queue: finished cells are at most `lvl` links deep, queued
   * cells `lvl` or `lvl + 1`, and depths never decrease along the queue.
   */
  ghost predicate Levels(done: seq<Pos>, queue: seq<Pos>, depth: map<Pos, nat>, lvl: nat)
  {
    && (forall v :: v in done ==> v in depth && depth[v] <= lvl)
    && (forall v :: v in queue ==> v in depth && lvl <= depth[v] <= lvl + 1)
    && (forall i, j :: 0 <= i < j < |queue| ==> queue[i] in depth && queue[j] in depth && depth[queue[i]] <= depth[queue[j]])
  }

  /** Taking the head off the queue and appending its fresh neighbours one level deeper keeps the levels. */
  lemma LevelsStep(done: seq<Pos>, queue: seq<Pos>, depth: map<Pos, nat>, lvl: nat, cur: Pos, f: seq<Pos>, depth': map<Pos, nat>)
    requires queue != [] && queue[0] == cur && Levels(done, queue, depth, lvl)
    requires forall w :: w in f ==> w !in depth
    requires depth' == Assign(depth, f, depth[cur] + 1)
    ensures Levels(done + [cur], queue[1..] + f, depth', depth[cur])
  {
    var d := depth[cur];
    AssignEntries(depth, f, depth[cur] + 1);
    SortedStep(queue, depth, f, depth');
    forall v | v in queue[1..] + f ensures v in depth' && d <= depth'[v] <= d + 1 {
      if v in queue[1..] {
        var k :| 0 <= k < |queue[1..]| && queue[1..][k] == v;
        assert queue[k + 1] == v;
      }
    }
  }

  /** The queue stays sorted by depth when its head leaves and cells one level below the head join. */
  lemma SortedStep(queue: seq<Pos>, depth: map<Pos, nat>, f: seq<Pos>, depth': map<Pos, nat>)
    requires queue != [] && queue[0] in depth
    requires forall v :: v in queue ==> v in depth && depth[v] <= depth[queue[0]] + 1
    requires forall i, j :: 0 <= i < j < |queue| ==> queue[i] in depth && queue[j] in depth && depth[queue[i]] <= depth[queue[j]]
    requires forall k :: k in depth' <==> k in depth || k in f
    requires forall k :: k in depth' ==> depth'[k] == if k in f then depth[queue[0]] + 1 else depth[k]
    requires forall w :: w in f ==> w !in depth
    ensures var q := queue[1..] + f;
      forall i, j :: 0 <= i < j < |q| ==> q[i] in depth' && q[j] in depth' && depth'[q[i]] <= depth'[q[j]]
  {
    var q := queue[1..] + f;
    forall i, j | 0 <= i < j < |q| ensures q[i] in depth' && q[j] in depth' && depth'[q[i]] <= depth'[q[j]] {
      if j < |queue| - 1 {
        assert q[i] == queue[i + 1] && q[j] == queue[j + 1];
      } else if i < |queue| - 1 {
        assert q[i] == queue[i + 1] && q[j] in f;
      } else {
        assert q[i] in f && q[j] in f;
      }
    }
  }

  lemma FreshKnown(b: Board, known: set<Pos>, ms: seq<Pos>, depth: map<Pos, nat>)
    requires depth.Keys == known
    ensures forall w :: w in Fresh(b, known, ms) ==> w !in depth
  {
    FreshCells(b, known, ms);
  }

  /** Under the levels, every discovered cell is at most one link deeper than the head of the queue. */
  lemma HeadBound(done: seq<Pos>, queue: seq<Pos>, links: map<Pos, Option<Pos>>, depth: map<Pos, nat>, lvl: nat)
    requires queue != [] && Levels(done, queue, depth, lvl)
    requires forall v :: v in links ==> v in done || v in queue
    ensures forall v :: v in links ==> v in depth && depth[v] <= depth[queue[0]] + 1
  {
  }

  /** Finishing `cur` keeps every finished cell's open neighbours at most one level deeper. */
  lemma LayeredStep(b: Board, done: seq<Pos>, cur: Pos, links: map<Pos, Option<Pos>>,
                    depth: map<Pos, nat>, f: seq<Pos>, depth': map<Pos, nat>)
    requires Layered(b, done, depth)
    requires cur in depth && forall v :: v in links ==> v in depth && depth[v] <= depth[cur] + 1
    requires depth.Keys == links.Keys
    requires f == Fresh(b, links.Keys, Moves(cur)) && depth' == Assign(depth, f, depth[cur] + 1)
    ensures Layered(b, done + [cur], depth')
  {
    MovesCells(cur);
    FreshCells(b, links.Keys, Moves(cur));
    AssignEntries(depth, f, depth[cur] + 1);
    forall u, w | u in done + [cur] && Adjacent(u, w) && Open(b, w)
      ensures u in depth' && w in depth' && depth'[w] <= depth'[u] + 1
    {
      if u != cur {
        assert u in done && w in depth && w !in f;
      } else if w !in f {
        assert w in Moves(cur) && w in links;
      }
    }
  }

  /** The breadth-first loop invariant, between two iterations. */
  ghost predicate Invariant(b: Board, start: Pos, end: Pos, explored: seq<Pos>, queue: seq<Pos>,
                            links: map<Pos, Option<Pos>>, depth: map<Pos, nat>, lvl: nat)
  {
    && Searching(b, start, end, explored, queue, links, depth)
    && Layered(b, explored, depth)
    && Levels(explored, queue, depth, lvl)
  }

  /** The invariant holds before the first iteration, with only `start` queued. */
  lemma Initial(b: Board, start: Pos, end: Pos)
    ensures Invariant(b, start, end, [], [start], map[start := None], map[start := 0], 0)
  {
  }

  /** One iteration that does not meet `end` keeps the invariant and finishes one more cell. */
  lemma Step(b: Board, start: Pos, end: Pos, explored: seq<Pos>, queue: seq<Pos>,
             links: map<Pos, Option<Pos>>, depth: map<Pos, nat>, lvl: nat, cur: Pos,
             f: seq<Pos>, queue': seq<Pos>, links': map<Pos, Option<Pos>>, depth': map<Pos, nat>)
    requires Invariant(b, start, end, explored, queue, links, depth, lvl)
    requires queue != [] && queue[0] == cur && cur != end
    requires f == Fresh(b, links.Keys, Moves(cur)) && queue' == queue[1..] + f
    requires links' == Assign(links, f, Some(cur)) && depth' == Assign(depth, f, depth[cur] + 1)
    ensures Invariant(b, start, end, explored + [cur], queue', links', depth', depth[cur])
  {
    SplitFirst(queue);
    SearchStep(b, start, end, explored, queue, links, depth, cur, queue[1..], f, queue', links', depth');
    FreshKnown(b, links.Keys, Moves(cur), depth);
    LevelsStep(explored, queue, depth, lvl, cur, f, depth');
    HeadBound(explored, queue, links, depth, lvl);
    LayeredStep(b, explored, cur, links, depth, f, depth');
  }

  /** No route from `start` to `end` has fewer cells than the chain of links back from `end`. */
  ghost predicate ShortestChain(b: Board, start: Pos, end: Pos, links: map<Pos, Option<Pos>>, depth: map<Pos, nat>)
    requires Shaped(links, depth) && end in links
  {
    forall rt :: IsRoute(b, rt, start, end) ==> |Chain(links, depth, end)| <= |rt|
  }

  /** When `end` comes off the queue, the search succeeds and the chain back from `end` is a shortest route. */
  lemma Found(b: Board, start: Pos, end: Pos, explored: seq<Pos>, queue: seq<Pos>,
              links: map<Pos, Option<Pos>>, depth: map<Pos, nat>, lvl: nat)
    requires Invariant(b, start, end, explored, queue, links, depth, lvl)
    requires queue != [] && queue[0] == end
    ensures Outcome(b, start, end, explored + [end], links, depth, true)
    ensures ShortestChain(b, start, end, links, depth)
  {
    SplitFirst(queue);
    FoundOutcome(b, start, end, explored, queue, links, depth, queue[1..]);
    LayeredShortest(b, start, end, explored, queue, links, depth);
    ChainIsRoute(b, start, links, depth, end);
  }

  /**
   * The search loop: takes cells off the front of the queue, recording each in `explored`,
   * until `end` comes off or the queue runs dry.
   */
  method Explore(g: array2<CellState>, ghost b: Board, start: Pos, end: Pos)
    returns (explored: seq<Pos>, links: map<Pos, Option<Pos>>, ghost depth: map<Pos, nat>, found: bool)
    requires b == Snapshot(g)
    ensures Outcome(b, start, end, explored, links, depth, found)
    ensures found ==> ShortestChain(b, start, end, links, depth)
  {
    var queue: seq<Pos> := [start];
    links := map[start := None];
    explored := [];
    depth := map[start := 0];
    ghost var lvl: nat := 0;
    found := false;
    ghost var done := explored;
    Initial(b, start, end);

    while queue != []
      invariant Invariant(b, start, end, explored, queue, links, depth, lvl)
      invariant !found
      decreases |Cells(b) + {start}| - |explored|
    {
      ghost var pending := queue;
      done := explored;
      var cur := queue[0];
      queue := queue[1..];
      explored := explored + [cur];
      if cur == end {
        Found(b, start, end, done, pending, links, depth, lvl);
        found := true;
        break;
      }
      ghost var links0 := links;
      queue, links := Expand(g, b, cur, queue, links);
      ghost var f := Fresh(b, links0.Keys, Moves(cur));
      ghost var depth' := Assign(depth, f, depth[cur] + 1);
      Step(b, start, end, done, pending, links0, depth, lvl, cur, f, queue, links, depth');
      depth, lvl := depth', depth[cur];
    }
    if !found {
      ExhaustedOutcome(b, start, end, explored, links, depth);
    }
  }

  /**
   * Breadth-first search from `start` to `end`: the explored trace, and the path rebuilt by
   * following parents back from `end` when it was reached. The grid is only read.
   */
  method Solve(g: array2<CellState>, start: Pos, end: Pos) returns (res: SolveResult)
    ensures var b := Snapshot(g);
      && |res.exploredCells| > 0 && res.exploredCells[0] == start
      && Distinct(res.exploredCells)
      && (forall i :: 0 < i < |res.exploredCells| ==> Open(b, res.exploredCells[i]))
      && (forall v :: v in res.exploredCells ==> Reachable(b, start, v))
      && (IsSolutionFound(res) <==> Reachable(b, start, end))
      && (IsSolutionFound(res) ==>
        && res.exploredCells[|res.exploredCells| - 1] == end
        && IsRoute(b, res.solutionPath, start, end)
        && Distinct(res.solutionPath)
        && forall rt :: IsRoute(b, rt, start, end) ==> |res.solutionPath| <= |rt|)
      && (!IsSolutionFound(res) ==>
        && res.solutionPath == []
        && forall v :: v in res.exploredCells <==> Reachable(b, start, v))
      && (start == end ==> res == SolveResult([start], [start]))
  {
    ghost var b := Snapshot(g);
    var explored, links, depth, found := Explore(g, b, start, end);
    var path: seq<Pos> := [];
    if found {
      path := FollowParents(links, depth, end);
    }
    res := SolveResult(explored, path);
    Report(b, start, end, explored, links, depth, found, res);
  }
}
