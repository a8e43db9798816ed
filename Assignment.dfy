/** The Assignment Problem oracle (the external linear-sum-assignment solver), described by its contract. */
module Assignment {
  import opened CostMatrix

  /** What one call of the solver reports: an optimal assignment with its cost, or a failure status. */
  datatype APResult =
    | Optimal(solution: seq<Edge>, minCost: int)
    | Infeasible
    | PossibleOverflow

  /** The promise of the solver on a square matrix: arcs exist only for entries that are not
    * forbidden, an optimal answer lists one edge (i, mate(i)) per row and is no dearer than any
    * other assignment, and infeasibility means no assignment exists. An overflow report promises nothing. */
  ghost predicate APContract(m: Matrix, r: APResult)
    requires Square(m)
  {
    match r
    case Optimal(sol, c) =>
      && IsAssignment(m, sol)
      && c == TotalCost(m, sol)
      && forall a :: IsAssignment(m, a) ==> c <= TotalCost(m, a)
    case Infeasible => forall a :: !IsAssignment(m, a)
    case PossibleOverflow => true
  }

  /** A solver function that keeps its promise on every square matrix. */
  ghost predicate Oracle(ap: Matrix -> APResult)
  {
    forall m :: Square(m) ==> APContract(m, ap(m))
  }
}
