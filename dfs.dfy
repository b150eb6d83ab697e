/** The current tree's iterative depth-first solver: a LIFO stack, a parent map and an explored trace. */
module DfsSolver {
  import opened Grid
  import opened Search
  import opened SolveResults

  /**
   * The depth-first visiting order. `pushed[i]` is what expanding `explored[i]` pushed: its
   * neighbours, in the order up, down, left, right, that were open and not among the cells
   * `known[i]` discovered before it. Each expansion adds what it pushed to what is known, and
   * whenever it pushed anything, the next cell explored is the last of those cells. Every
   * explored cell but possibly the last one (`end`, which is not expanded) has its record.
   */
  ghost predicate PopOrder(b: Board, start: Pos, explored: seq<Pos>, known: seq<set<Pos>>, pushed: seq<seq<Pos>>)
  {
    && |known| == |pushed| + 1 && |pushed| <= |explored| <= |pushed| + 1
    && known[0] == {start}
    && (forall i {:trigger pushed[i]} :: 0 <= i < |pushed| ==> known[i + 1] == known[i] + Elems(pushed[i]))
    && (forall i {:trigger pushed[i]} :: 0 <= i < |pushed| ==> pushed[i] == Fresh(b, known[i], Moves(explored[i])))
    && (forall i {:trigger pushed[i]} :: 0 <= i < |pushed| && i + 1 < |explored| && pushed[i] != [] ==>
          explored[i + 1] == pushed[i][|pushed[i]| - 1])
  }

  /**
   * The depth-first order, cell by cell: every explored cell but the last pushed exactly its
   * open neighbours not yet discovered, and when it pushed any, the last of them is explored next.
   */
  lemma NextIsLastPushed(b: Board, start: Pos, explored: seq<Pos>, known: seq<set<Pos>>, pushed: seq<seq<Pos>>, i: nat)
    requires PopOrder(b, start, explored, known, pushed) && i + 1 < |explored|
    ensures i < |pushed| && pushed[i] == Fresh(b, known[i], Moves(explored[i]))
    ensures pushed[i] != [] ==> explored[i + 1] == pushed[i][|pushed[i]| - 1]
  {
  }

  /** Between two iterations: one expansion per explored cell, all of it known, and the last push on top of the stack. */
  ghost predicate Pushes(b: Board, start: Pos, explored: seq<Pos>, stack: seq<Pos>,
                         links: map<Pos, Option<Pos>>, known: seq<set<Pos>>, pushed: seq<seq<Pos>>)
  {
    && PopOrder(b, start, explored, known, pushed)
    && |pushed| == |explored|
    && links.Keys == known[|pushed|]
    && (pushed != [] && pushed[|pushed| - 1] != [] ==>
          stack != [] && stack[|stack| - 1] == pushed[|pushed| - 1][|pushed[|pushed| - 1]| - 1])
  }

  /** Popping `cur` off the top of the stack respects the order, whether or not it is `end`. */
  lemma PopStep(b: Board, start: Pos, explored: seq<Pos>, stack: seq<Pos>,
                links: map<Pos, Option<Pos>>, known: seq<set<Pos>>, pushed: seq<seq<Pos>>, cur: Pos)
    requires Pushes(b, start, explored, stack, links, known, pushed)
    requires stack != [] && stack[|stack| - 1] == cur
    ensures PopOrder(b, start, explored + [cur], known, pushed)
  {
    var e := explored + [cur];
    forall i {:trigger pushed[i]} | 0 <= i < |pushed| ensures pushed[i] == Fresh(b, known[i], Moves(e[i])) {
      assert e[i] == explored[i];
    }
    forall i {:trigger pushed[i]} | 0 <= i < |pushed| && i + 1 < |e| && pushed[i] != [] ensures e[i + 1] == pushed[i][|pushed[i]| - 1] {
      if i + 1 < |explored| {
        assert e[i + 1] == explored[i + 1];
      }
    }
  }

  /** Recording the expansion of `cur`, just popped, extends the history by one entry. */
  lemma RecordStep(b: Board, start: Pos, explored: seq<Pos>, known: seq<set<Pos>>, pushed: seq<seq<Pos>>,
                   cur: Pos, f: seq<Pos>, known': set<Pos>)
    requires PopOrder(b, start, explored + [cur], known, pushed) && |pushed| == |explored|
    requires f == Fresh(b, known[|pushed|], Moves(cur)) && known' == known[|pushed|] + Elems(f)
    ensures PopOrder(b, start, explored + [cur], known + [known'], pushed + [f])
  {
    var e, k, p := explored + [cur], known + [known'], pushed + [f];
    assert |k| == |p| + 1 && |p| == |e| && k[0] == {start};
    forall i {:trigger p[i]} | 0 <= i < |p| ensures k[i + 1] == k[i] + Elems(p[i]) {
      if i < |pushed| {
        assert k[i + 1] == known[i + 1] && k[i] == known[i] && p[i] == pushed[i];
      }
    }
    forall i {:trigger p[i]} | 0 <= i < |p| ensures p[i] == Fresh(b, k[i], Moves(e[i])) {
      if i < |pushed| {
        assert k[i] == known[i] && p[i] == pushed[i] && e[i] == explored[i];
      }
    }
    forall i {:trigger p[i]} | 0 <= i < |p| && i + 1 < |e| && p[i] != [] ensures e[i + 1] == p[i][|p[i]| - 1] {
      assert i < |pushed| && p[i] == pushed[i];
    }
  }

  /** Pushing the fresh neighbours of `cur` keeps the history in step with the links and the stack. */
  lemma PushStep(b: Board, start: Pos, explored: seq<Pos>, stack: seq<Pos>,
                 links: map<Pos, Option<Pos>>, known: seq<set<Pos>>, pushed: seq<seq<Pos>>, cur: Pos, rest: seq<Pos>,
                 f: seq<Pos>, stack': seq<Pos>, links': map<Pos, Option<Pos>>)
    requires Pushes(b, start, explored, stack, links, known, pushed)
    requires stack == rest + [cur]
    requires f == Fresh(b, links.Keys, Moves(cur)) && stack' == rest + f
    requires links' == Assign(links, f, Some(cur))
    ensures Pushes(b, start, explored + [cur], stack', links', known + [links'.Keys], pushed + [f])
  {
    PopStep(b, start, explored, stack, links, known, pushed, cur);
    AssignEntries(links, f, Some(cur));
    assert links'.Keys == links.Keys + Elems(f);
    RecordStep(b, start, explored, known, pushed, cur, f, links'.Keys);
    if f != [] {
      assert stack'[|stack'| - 1] == f[|f| - 1];
    }
  }

  /** The depth-first loop invariant, between two iterations. */
  ghost predicate Invariant(b: Board, start: Pos, end: Pos, explored: seq<Pos>, stack: seq<Pos>,
                            links: map<Pos, Option<Pos>>, depth: map<Pos, nat>, known: seq<set<Pos>>, pushed: seq<seq<Pos>>)
  {
    && Searching(b, start, end, explored, stack, links, depth)
    && Pushes(b, start, explored, stack, links, known, pushed)
  }

  /** The invariant holds before the first iteration, with only `start` on the stack. */
  lemma Initial(b: Board, start: Pos, end: Pos)
    ensures Invariant(b, start, end, [], [start], map[start := None], map[start := 0], [{start}], [])
  {
  }

  /** One iteration that pops `cur`, not `end`, and pushes its fresh neighbours keeps the invariant. */
  lemma Step(b: Board, start: Pos, end: Pos, explored: seq<Pos>, stack: seq<Pos>,
             links: map<Pos, Option<Pos>>, depth: map<Pos, nat>, known: seq<set<Pos>>, pushed: seq<seq<Pos>>, cur: Pos,
             f: seq<Pos>, stack': seq<Pos>, links': map<Pos, Option<Pos>>, depth': map<Pos, nat>)
    requires Invariant(b, start, end, explored, stack, links, depth, known, pushed)
    requires stack != [] && stack[|stack| - 1] == cur && cur != end
    requires f == Fresh(b, links.Keys, Moves(cur)) && stack' == stack[..|stack| - 1] + f
    requires links' == Assign(links, f, Some(cur)) && depth' == Assign(depth, f, depth[cur] + 1)
    ensures Invariant(b, start, end, explored + [cur], stack', links', depth', known + [links'.Keys], pushed + [f])
  {
    var rest := stack[..|stack| - 1];
    SplitLast(stack);
    SearchStep(b, start, end, explored, stack, links, depth, cur, rest, f, stack', links', depth');
    PushStep(b, start, explored, stack, links, known, pushed, cur, rest, f, stack', links');
  }

  /** Popping `end` finishes the search successfully, in depth-first order. */
  lemma Found(b: Board, start: Pos, end: Pos, explored: seq<Pos>, stack: seq<Pos>,
              links: map<Pos, Option<Pos>>, depth: map<Pos, nat>, known: seq<set<Pos>>, pushed: seq<seq<Pos>>)
    requires Invariant(b, start, end, explored, stack, links, depth, known, pushed)
    requires stack != [] && stack[|stack| - 1] == end
    ensures Outcome(b, start, end, explored + [end], links, depth, true)
    ensures PopOrder(b, start, explored + [end], known, pushed)
  {
    SplitLast(stack);
    FoundOutcome(b, start, end, explored, stack, links, depth, stack[..|stack| - 1]);
    PopStep(b, start, explored, stack, links, known, pushed, end);
  }

  /** An empty stack finishes the search unsuccessfully, in depth-first order. */
  lemma Exhausted(b: Board, start: Pos, end: Pos, explored: seq<Pos>,
                  links: map<Pos, Option<Pos>>, depth: map<Pos, nat>, known: seq<set<Pos>>, pushed: seq<seq<Pos>>)
    requires Invariant(b, start, end, explored, [], links, depth, known, pushed)
    ensures Outcome(b, start, end, explored, links, depth, false)
    ensures PopOrder(b, start, explored, known, pushed)
  {
    ExhaustedOutcome(b, start, end, explored, links, depth);
  }

  /**
   * The search loop: pops the top of the stack, recording it in `explored`, until `end` is
   * popped or the stack runs dry. `known` and `pushed` record, per expanded cell, what had
   * been discovered before it and what it pushed.
   */
  method Explore(g: array2<CellState>, ghost b: Board, start: Pos, end: Pos)
    returns (explored: seq<Pos>, links: map<Pos, Option<Pos>>, ghost depth: map<Pos, nat>,
             found: bool, ghost known: seq<set<Pos>>, ghost pushed: seq<seq<Pos>>)
    requires b == Snapshot(g)
    ensures Outcome(b, start, end, explored, links, depth, found)
    ensures PopOrder(b, start, explored, known, pushed)
  {
    var stack: seq<Pos> := [start];
    links := map[start := None];
    explored := [];
    depth := map[start := 0];
    known, pushed := [{start}], [];
    found := false;
    ghost var done := explored;
    Initial(b, start, end);

    while stack != []
      invariant Invariant(b, start, end, explored, stack, links, depth, known, pushed)
      invariant !found
      decreases |Cells(b) + {start}| - |explored|
    {
      ghost var pending := stack;
      done := explored;
      var cur := stack[|stack| - 1];
      stack := stack[..|stack| - 1];
      explored := explored + [cur];
      if cur == end {
        Found(b, start, end, done, pending, links, depth, known, pushed);
        found := true;
        break;
      }
      ghost var links0 := links;
      stack, links := Expand(g, b, cur, stack, links);
      ghost var f := Fresh(b, links0.Keys, Moves(cur));
      ghost var depth' := Assign(depth, f, depth[cur] + 1);
      Step(b, start, end, done, pending, links0, depth, known, pushed, cur, f, stack, links, depth');
      depth, known, pushed := depth', known + [links.Keys], pushed + [f];
    }
    if !found {
      Exhausted(b, start, end, explored, links, depth, known, pushed);
    }
  }

  /**
   * Depth-first search from `start` to `end`: the explored trace, and the path rebuilt by
   * following parents back from `end` when it was popped. The grid is only read. The ghost
   * `known` and `pushed` witness the depth-first visiting order of the trace.
   */
  method Solve(g: array2<CellState>, start: Pos, end: Pos) returns (res: SolveResult, ghost known: seq<set<Pos>>, ghost pushed: seq<seq<Pos>>)
    ensures var b := Snapshot(g);
      && |res.exploredCells| > 0 && res.exploredCells[0] == start
      && Distinct(res.exploredCells)
      && (forall i :: 0 < i < |res.exploredCells| ==> Open(b, res.exploredCells[i]))
      && (forall v :: v in res.exploredCells ==> Reachable(b, start, v))
      && (IsSolutionFound(res) <==> Reachable(b, start, end))
      && (IsSolutionFound(res) ==>
        && res.exploredCells[|res.exploredCells| - 1] == end
        && IsRoute(b, res.solutionPath, start, end)
        && Distinct(res.solutionPath))
      && (!IsSolutionFound(res) ==>
        && res.solutionPath == []
        && forall v :: v in res.exploredCells <==> Reachable(b, start, v))
      && (start == end ==> res == SolveResult([start], [start]))
    ensures PopOrder(Snapshot(g), start, res.exploredCells, known, pushed)
  {
    ghost var b := Snapshot(g);
    var explored, links, found;
    ghost var depth;
    explored, links, depth, found, known, pushed := Explore(g, b, start, end);
    var path: seq<Pos> := [];
    if found {
      path := FollowParents(links, depth, end);
    }
    res := SolveResult(explored, path);
    Report(b, start, end, explored, links, depth, found, res);
  }
}
