/** What the current-tree solvers return: the cells in the order they were explored, and the path found. */
module SolveResults {
  import opened Grid

  /**
   * Both lists are fixed at construction; the datatype's fields are the two getters.
   * An empty `solutionPath` means that no path was found.
   */
  datatype SolveResult = SolveResult(exploredCells: seq<Pos>, solutionPath: seq<Pos>)

  function IsSolutionFound(r: SolveResult): (found: bool)
    ensures found <==> r.solutionPath != []
  {
    |r.solutionPath| > 0
  }
}
