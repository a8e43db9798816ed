/** A subproblem of the search: the root matrix restricted by included and excluded edges. */
module Subproblem {
  import opened Wrappers
  import opened CostMatrix
  import opened Tours
  import opened Assignment

  /** What numpy's sum over an object array of entries yields: the integer total when no entry is
    * the string "NA", the concatenation of that many copies of "NA" when every entry is, and a
    * type error when integers and strings are mixed. */
  datatype EntrySum = Total(cost: nat) | NaText(copies: nat) | MixedTypes

  /** No two distinct included edges enter the same column. */
  predicate ColsFunctional(es: seq<Edge>)
  {
    forall a, b :: a in es && b in es && a.col == b.col ==> a == b
  }

  predicate Disjoint(a: seq<Edge>, b: seq<Edge>)
  {
    forall e :: e in a ==> e !in b
  }

  /** A solution stays inside a subproblem: it uses every included edge and no excluded one. */
  predicate Respects(t: seq<Edge>, inc: seq<Edge>, exc: seq<Edge>)
  {
    (forall e :: e in inc ==> e in t) && (forall e :: e in exc ==> e !in t)
  }

  /** Entry (i, j) of a subproblem's matrix: excluded edges are forbidden; a column entered by an
    * included edge is forbidden except at the included edges, which keep their root cost. */
  function DerivedCell(root: Matrix, inc: seq<Edge>, exc: seq<Edge>, i: nat, j: nat): Cell
    requires Square(root) && i < |root| && j < |root|
  {
    if Edge(i, j) in exc then Forbidden
    else if Edge(i, j) in inc then root[i][j]
    else if j in Cols(inc) then Forbidden
    else root[i][j]
  }

  function Derived(root: Matrix, inc: seq<Edge>, exc: seq<Edge>): (d: Matrix)
    requires Square(root)
    ensures Square(d) && |d| == |root|
  {
    seq(|root|, i requires 0 <= i < |root| =>
      seq(|root|, j requires 0 <= j < |root| => DerivedCell(root, inc, exc, i, j)))
  }

  /** Row and column index lists of an edge list, as used for fancy indexing. */
  function EdgeIndices(es: seq<Edge>): (seq<nat>, seq<nat>)
  {
    (seq(|es|, k requires 0 <= k < |es| => es[k].row), seq(|es|, k requires 0 <= k < |es| => es[k].col))
  }

  function Zip(rows: seq<nat>, cols: seq<nat>): seq<Edge>
    requires |rows| == |cols|
  {
    seq(|rows|, k requires 0 <= k < |rows| => Edge(rows[k], cols[k]))
  }

  /** The index lists have the input's length and zip back to the input. */
  lemma {:induction false} EdgeIndicesRoundTrip(es: seq<Edge>)
    ensures |EdgeIndices(es).0| == |es| == |EdgeIndices(es).1|
    ensures Zip(EdgeIndices(es).0, EdgeIndices(es).1) == es
  {
  }

  /** The cyclic sequence 0 -> 1 -> ... -> n-1 -> 0. */
  function CyclicTour(n: nat): seq<Edge>
  {
    seq(n, i requires 0 <= i < n => Edge(i, (i + 1) % n))
  }

  lemma {:induction false} CyclicEdge(n: nat, i: nat)
    requires i < n
    ensures |CyclicTour(n)| == n
    ensures CyclicTour(n)[i] == Edge(i, if i + 1 == n then 0 else i + 1)
  {
  }

  lemma {:induction false} CyclicWalk(n: nat, k: nat)
    requires 0 < n && k < n
    ensures Walk(SuccessorMap(CyclicTour(n)), 0, k) == k
  {
    if k > 0 {
      var t := CyclicTour(n);
      var d := SuccessorMap(t);
      CyclicWalk(n, k - 1);
      CyclicEdge(n, k - 1);
      RowOrderedSuccessor(t);
      assert k - 1 in d && d[k - 1] == k;
    }
  }

  lemma {:induction false} CyclicWalkFull(n: nat, k: nat)
    requires 0 < k <= n
    ensures Walk(SuccessorMap(CyclicTour(n)), 0, k) == if k == n then 0 else k
  {
    if k < n {
      CyclicWalk(n, k);
    } else {
      var t := CyclicTour(n);
      var d := SuccessorMap(t);
      CyclicWalk(n, n - 1);
      CyclicEdge(n, n - 1);
      RowOrderedSuccessor(t);
      assert n - 1 in d && d[n - 1] == 0;
    }
  }

  /** The cyclic sequence is a single Hamiltonian cycle. */
  lemma {:induction false} CyclicTourHamiltonian(n: nat)
    ensures RowOrdered(CyclicTour(n)) && Hamiltonian(CyclicTour(n))
  {
    var t := CyclicTour(n);
    forall a, b | 1 <= a < b <= |t|
      ensures Walk(SuccessorMap(t), 0, a) != Walk(SuccessorMap(t), 0, b)
    {
      CyclicWalkFull(n, a);
      CyclicWalkFull(n, b);
    }
  }

  /** The cyclic sequence is a tour of any n x n matrix in which it avoids forbidden entries. */
  lemma {:induction false} CyclicTourIsTour(m: Matrix)
    requires Square(m) && Avoids(m, CyclicTour(|m|))
    ensures IsTour(m, CyclicTour(|m|))
  {
    var n := |m|;
    var t := CyclicTour(n);
    CyclicTourHamiltonian(n);
    forall i, j | 0 <= i < j < n
      ensures t[i].col != t[j].col
    {
      CyclicEdge(n, i);
      CyclicEdge(n, j);
    }
    forall i | 0 <= i < n
      ensures t[i].row == i && t[i].col < n
    {
      CyclicEdge(n, i);
    }
  }

  // ---------------------------------------------------------------------------------------
  // The derived matrix and the solutions it admits

  /** A derived entry is either the root entry or forbidden: deriving never changes a cost. */
  lemma {:induction false} DerivedNeverChangesCost(root: Matrix, inc: seq<Edge>, exc: seq<Edge>, i: nat, j: nat)
    requires Square(root) && i < |root| && j < |root|
    ensures Derived(root, inc, exc)[i][j] == root[i][j] || Derived(root, inc, exc)[i][j] == Forbidden
    ensures Edge(i, j) in exc ==> Derived(root, inc, exc)[i][j] == Forbidden
    ensures Edge(i, j) !in exc && Edge(i, j) !in inc && j !in Cols(inc) ==> Derived(root, inc, exc)[i][j] == root[i][j]
  {
  }

  /** Edges that avoid the derived matrix's forbidden entries cost what they cost at the root. */
  lemma {:induction false} DerivedCost(root: Matrix, inc: seq<Edge>, exc: seq<Edge>, t: seq<Edge>)
    requires Square(root) && EdgesWithin(t, |root|)
    requires Avoids(Derived(root, inc, exc), t)
    ensures TotalCost(Derived(root, inc, exc), t) == TotalCost(root, t)
  {
    if t != [] {
      DerivedCost(root, inc, exc, t[1..]);
    }
  }

  /** Some row of an assignment enters column c. */
  lemma {:induction false} ColumnCovered(m: Matrix, t: seq<Edge>, c: nat)
    requires IsAssignment(m, t) && c < |m|
    ensures exists r :: 0 <= r < |t| && t[r].col == c
  {
    var cols := seq(|t|, i requires 0 <= i < |t| => t[i].col);
    Pigeonhole(cols, |m|, c);
  }

  /** The assignments of a subproblem's matrix are exactly the root assignments that respect its
    * included and excluded edges. */
  lemma {:induction false} DerivedAssignments(root: Matrix, inc: seq<Edge>, exc: seq<Edge>, t: seq<Edge>)
    requires Square(root) && EdgesWithin(inc, |root|) && ColsFunctional(inc)
    ensures IsAssignment(Derived(root, inc, exc), t) <==> IsAssignment(root, t) && Respects(t, inc, exc)
  {
    var n := |root|;
    var d := Derived(root, inc, exc);
    if IsAssignment(d, t) {
      forall e | e in inc
        ensures e in t
      {
        ColumnCovered(d, t, e.col);
        var r :| 0 <= r < |t| && t[r].col == e.col;
        assert Edge(r, e.col) in inc;
        assert t[r] == Edge(r, e.col);
      }
      forall e | e in exc
        ensures e !in t
      {
      }
    }
    if IsAssignment(root, t) && Respects(t, inc, exc) {
      forall i | 0 <= i < |t|
        ensures d[i][t[i].col] != Forbidden
      {
        var c := t[i].col;
        if c in Cols(inc) {
          var e :| e in inc && e.col == c;
          var r :| 0 <= r < |t| && t[r] == e;
          assert r == i;
          assert Edge(i, c) in inc;
        }
      }
    }
  }

  // ---------------------------------------------------------------------------------------
  // Building the derived matrix in place

  lemma {:induction false} ColumnIndices(es: seq<Edge>)
    ensures forall j :: j in EdgeIndices(es).1 <==> j in Cols(es)
  {
    forall j | j in Cols(es)
      ensures j in EdgeIndices(es).1
    {
      var e :| e in es && e.col == j;
      var k :| 0 <= k < |es| && es[k] == e;
      assert EdgeIndices(es).1[k] == j;
    }
  }

  /** Marks every column that an included edge enters. */
  method ColumnMask(n: nat, cols: seq<nat>) returns (mask: seq<bool>)
    requires forall k :: 0 <= k < |cols| ==> cols[k] < n
    ensures |mask| == n
    ensures forall j :: 0 <= j < n ==> (mask[j] <==> j in cols)
  {
    mask := seq(n, _ => false);
    for k := 0 to |cols|
      invariant |mask| == n
      invariant forall j :: 0 <= j < n ==> (mask[j] <==> j in cols[..k])
    {
      assert cols[..k + 1] == cols[..k] + [cols[k]];
      mask := mask[cols[k] := true];
    }
    assert cols[..|cols|] == cols;
  }

  /** Sets every entry of a masked column to forbidden, row by row. */
  method MaskColumns(m: Matrix, mask: seq<bool>) returns (sub: Matrix)
    requires Square(m) && |mask| == |m|
    ensures Square(sub) && |sub| == |m|
    ensures forall i, j :: 0 <= i < |m| && 0 <= j < |m| ==> sub[i][j] == if mask[j] then Forbidden else m[i][j]
  {
    var n := |m|;
    sub := m;
    var i := 0;
    while i < n
      invariant 0 <= i <= n
      invariant Square(sub) && |sub| == n
      invariant forall r, j :: 0 <= r < i && 0 <= j < n ==> sub[r][j] == (if mask[j] then Forbidden else m[r][j])
      invariant forall r :: i <= r < n ==> sub[r] == m[r]
    {
      var row := sub[i];
      var j := 0;
      while j < n
        invariant 0 <= j <= n
        invariant |row| == n
        invariant forall c :: 0 <= c < n ==> row[c] == (if c < j && mask[c] then Forbidden else m[i][c])
      {
        if mask[j] {
          row := row[j := Forbidden];
        }
        j := j + 1;
      }
      sub := sub[i := row];
      i := i + 1;
    }
  }

  /** Writes `value(k)` at entry (rows[k], cols[k]) for each k in turn. */
  method RestoreEntries(sub0: Matrix, root: Matrix, es: seq<Edge>) returns (sub: Matrix)
    requires Square(sub0) && Square(root) && |sub0| == |root| && EdgesWithin(es, |root|)
    ensures Square(sub) && |sub| == |root|
    ensures forall i, j :: 0 <= i < |root| && 0 <= j < |root| ==> sub[i][j] == if Edge(i, j) in es then root[i][j] else sub0[i][j]
  {
    var n := |root|;
    var (rowIdx, colIdx) := EdgeIndices(es);
    sub := sub0;
    for k := 0 to |es|
      invariant Square(sub) && |sub| == n
      invariant forall i, j :: 0 <= i < n && 0 <= j < n ==> sub[i][j] == if Edge(i, j) in es[..k] then root[i][j] else sub0[i][j]
    {
      assert es[..k + 1] == es[..k] + [es[k]];
      assert EdgeWithin(es[k], n);
      sub := sub[rowIdx[k] := sub[rowIdx[k]][colIdx[k] := root[rowIdx[k]][colIdx[k]]]];
    }
    assert es[..|es|] == es;
  }

  /** Sets the entry of every listed edge to forbidden. */
  method ForbidEntries(sub0: Matrix, es: seq<Edge>) returns (sub: Matrix)
    requires Square(sub0) && EdgesWithin(es, |sub0|)
    ensures Square(sub) && |sub| == |sub0|
    ensures forall i, j :: 0 <= i < |sub0| && 0 <= j < |sub0| ==> sub[i][j] == if Edge(i, j) in es then Forbidden else sub0[i][j]
  {
    var n := |sub0|;
    var (rowIdx, colIdx) := EdgeIndices(es);
    sub := sub0;
    for k := 0 to |es|
      invariant Square(sub) && |sub| == n
      invariant forall i, j :: 0 <= i < n && 0 <= j < n ==> sub[i][j] == if Edge(i, j) in es[..k] then Forbidden else sub0[i][j]
    {
      assert es[..k + 1] == es[..k] + [es[k]];
      assert EdgeWithin(es[k], n);
      sub := sub[rowIdx[k] := sub[rowIdx[k]][colIdx[k] := Forbidden]];
    }
    assert es[..|es|] == es;
  }

  /** The subproblem's matrix: a copy of the root matrix with the included columns masked, the
    * included entries restored and the excluded entries forbidden, in that order. */
  method CreateSubproblemCostMatrix(costMatrix: Matrix, inc: seq<Edge>, exc: seq<Edge>) returns (sub: Matrix)
    requires Square(costMatrix) && EdgesWithin(inc, |costMatrix|) && EdgesWithin(exc, |costMatrix|)
    ensures sub == Derived(costMatrix, inc, exc)
  {
    var n := |costMatrix|;
    sub := costMatrix;
    if inc != [] {
      var (rowIdx, colIdx) := EdgeIndices(inc);
      var colMask := ColumnMask(n, colIdx);
      ColumnIndices(inc);
      sub := MaskColumns(costMatrix, colMask);
      sub := RestoreEntries(sub, costMatrix, inc);
    }
    if exc != [] {
      sub := ForbidEntries(sub, exc);
    }
    forall i | 0 <= i < n
      ensures sub[i] == Derived(costMatrix, inc, exc)[i]
    {
      assert forall j :: 0 <= j < n ==> sub[i][j] == DerivedCell(costMatrix, inc, exc, i, j);
    }
  }

  // ---------------------------------------------------------------------------------------
  // The node

  /** Status of the node's Assignment Problem relaxation. */
  datatype SolveStatus = Unsolved | FoundOptimal | Infeasible | PossibleOverflow

  /** The solutions a subproblem stands for: tours of the root matrix that respect its edge sets. */
  ghost predicate InSpace(root: Matrix, inc: seq<Edge>, exc: seq<Edge>, t: seq<Edge>)
  {
    IsTour(root, t) && Respects(t, inc, exc)
  }

  class Node {
    const costMatrix: Matrix
    const instanceSize: nat
    const includedEdges: seq<Edge>
    const excludedEdges: seq<Edge>
    const subproblemCostMatrix: Matrix
    /** Creation order, breaking ties between equal bounds in the frontier. */
    const creationTime: nat
    var lowerBound: int
    var mapSolution: seq<Edge>
    var mapMinCost: int
    var mapSolveStatus: SolveStatus

    /** The constant part: edge sets within the matrix, and the derived matrix. */
    ghost predicate Wellformed()
    {
      && Square(costMatrix)
      && EdgesWithin(includedEdges, |costMatrix|)
      && EdgesWithin(excludedEdges, |costMatrix|)
      && ColsFunctional(includedEdges)
      && subproblemCostMatrix == Derived(costMatrix, includedEdges, excludedEdges)
    }

    /** The lower bound is no dearer than any tour in the subproblem's space. */
    ghost predicate BoundValid()
      reads this
      requires Square(costMatrix)
    {
      forall t :: InSpace(costMatrix, includedEdges, excludedEdges, t) ==> lowerBound <= TotalCost(costMatrix, t)
    }

    constructor(costMatrix: Matrix, instanceSize: nat, includedEdges: seq<Edge>, excludedEdges: seq<Edge>,
                lowerBound: int, creationTime: nat)
      requires Square(costMatrix) && EdgesWithin(includedEdges, |costMatrix|) && EdgesWithin(excludedEdges, |costMatrix|)
      ensures this.costMatrix == costMatrix && this.instanceSize == instanceSize
      ensures this.includedEdges == includedEdges && this.excludedEdges == excludedEdges
      ensures this.subproblemCostMatrix == Derived(costMatrix, includedEdges, excludedEdges)
      ensures this.lowerBound == lowerBound && this.creationTime == creationTime
      ensures mapSolveStatus == Unsolved && mapSolution == [] && mapMinCost == -1
    {
      var sub := CreateSubproblemCostMatrix(costMatrix, includedEdges, excludedEdges);
      this.costMatrix := costMatrix;
      this.instanceSize := instanceSize;
      this.includedEdges := includedEdges;
      this.excludedEdges := excludedEdges;
      this.subproblemCostMatrix := sub;
      this.lowerBound := lowerBound;
      this.creationTime := creationTime;
      mapSolution := [];
      mapMinCost := -1;
      mapSolveStatus := Unsolved;
    }

    /** Nodes compare by creation time only. */
    predicate Less(other: Node)
    {
      creationTime < other.creationTime
    }

    predicate Equal(other: Node)
    {
      creationTime == other.creationTime
    }

    /** Raises the bound to the cost-reduction bound, a placeholder constant -1. */
    method GetCostReductionLowerBound()
      modifies this
      ensures lowerBound == if -1 > old(lowerBound) then -1 else old(lowerBound)
      ensures lowerBound >= old(lowerBound)
      ensures mapSolution == old(mapSolution) && mapMinCost == old(mapMinCost) && mapSolveStatus == old(mapSolveStatus)
      ensures Square(costMatrix) && old(BoundValid()) ==> BoundValid()
    {
      var costReductionLB := -1;
      if costReductionLB > lowerBound {
        lowerBound := costReductionLB;
      }
    }

    /** Solves the relaxation of the subproblem with the oracle and raises the bound to its cost. */
    method SolveMAP(ap: Matrix -> APResult)
      requires Wellformed() && BoundValid()
      requires APContract(subproblemCostMatrix, ap(subproblemCostMatrix))
      modifies this
      ensures BoundValid()
      ensures lowerBound >= old(lowerBound)
      ensures match ap(subproblemCostMatrix)
        case Optimal(sol, c) =>
          && mapSolveStatus == FoundOptimal && mapSolution == sol && mapMinCost == c
          && lowerBound == if c > old(lowerBound) then c else old(lowerBound)
        case Infeasible =>
          mapSolveStatus == SolveStatus.Infeasible && mapSolution == [] && mapMinCost == -1 && lowerBound == old(lowerBound)
        case PossibleOverflow =>
          mapSolveStatus == SolveStatus.PossibleOverflow && mapSolution == [] && mapMinCost == -1 && lowerBound == old(lowerBound)
    {
      var r := ap(subproblemCostMatrix);
      match r {
        case Optimal(sol, c) =>
          mapSolution, mapMinCost, mapSolveStatus := sol, c, FoundOptimal;
        case Infeasible =>
          mapSolution, mapMinCost, mapSolveStatus := [], -1, SolveStatus.Infeasible;
        case PossibleOverflow =>
          mapSolution, mapMinCost, mapSolveStatus := [], -1, SolveStatus.PossibleOverflow;
      }
      if mapSolveStatus == SolveStatus.Infeasible || mapSolveStatus == SolveStatus.PossibleOverflow {
        return;
      }
      if mapMinCost > lowerBound {
        RelaxationBoundsSpace(costMatrix, includedEdges, excludedEdges, mapSolution, mapMinCost);
        lowerBound := mapMinCost;
      }
    }

    /** Whether following successors from job 0 for |mapSolution| steps never revisits a job. */
    method MapSolCglspFeasible() returns (feasible: bool)
      requires SuccessorList(mapSolution)
      ensures feasible <==> Hamiltonian(mapSolution)
    {
      var edgeDict := EdgeDict(mapSolution);
      if mapSolution != [] {
        WalkInKeys(mapSolution);
      }
      var curJob: nat := 0;
      var pathLength: nat := 0;
      var tourLength := |mapSolution|;
      var visitedJobs: set<nat> := {};
      while pathLength < tourLength
        invariant pathLength <= tourLength
        invariant curJob == Walk(edgeDict, 0, pathLength)
        invariant visitedJobs == Visited(edgeDict, pathLength)
        invariant forall a, b :: 1 <= a < b <= pathLength ==> Walk(edgeDict, 0, a) != Walk(edgeDict, 0, b)
      {
        var nextJob := edgeDict[curJob];
        assert Walk(edgeDict, 0, pathLength + 1) == nextJob;
        VisitedMembers(edgeDict, pathLength);
        if nextJob in visitedJobs {
          var a :| 1 <= a <= pathLength && Walk(edgeDict, 0, a) == nextJob;
          assert Walk(edgeDict, 0, a) == Walk(edgeDict, 0, pathLength + 1);
          return false;
        }
        visitedJobs := visitedJobs + {nextJob};
        pathLength := pathLength + 1;
        curJob := nextJob;
      }
      return true;
    }

    /** The trivial cyclic sequence of the first instanceSize jobs and the sum of its entries. */
    function GetFeasibleSol(): (r: (EntrySum, seq<Edge>))
      requires Square(costMatrix) && instanceSize <= |costMatrix|
      ensures r.1 == CyclicTour(instanceSize) && EdgesWithin(r.1, |costMatrix|)
      ensures r.0.Total? <==> forall i :: 0 <= i < instanceSize ==> costMatrix[i][(i + 1) % instanceSize] != Forbidden
      ensures r.0.NaText? <==>
        instanceSize > 0 && forall i :: 0 <= i < instanceSize ==> costMatrix[i][(i + 1) % instanceSize] == Forbidden
      ensures r.0.NaText? ==> r.0.copies == instanceSize
    {
      var solution := CyclicTour(instanceSize);
      assert EdgesWithin(solution, |costMatrix|);
      if forall i :: 0 <= i < instanceSize ==> costMatrix[i][(i + 1) % instanceSize] != Forbidden then
        (Total(TotalCost(costMatrix, solution)), solution)
      else if forall i :: 0 <= i < instanceSize ==> costMatrix[i][(i + 1) % instanceSize] == Forbidden then
        (NaText(instanceSize), solution)
      else
        (MixedTypes, solution)
    }
  }

  /** The heuristic solution of a node over the whole matrix is a tour, priced at its cost. */
  lemma {:induction false} FeasibleSolIsTour(node: Node)
    requires Square(node.costMatrix) && node.instanceSize == |node.costMatrix|
    requires node.GetFeasibleSol().0.Total?
    ensures IsTour(node.costMatrix, node.GetFeasibleSol().1)
    ensures node.GetFeasibleSol().0.cost == TotalCost(node.costMatrix, node.GetFeasibleSol().1)
  {
    CyclicTourIsTour(node.costMatrix);
  }

  /** An optimal relaxation of a subproblem bounds every tour in its space from below. */
  lemma {:induction false} RelaxationBoundsSpace(root: Matrix, inc: seq<Edge>, exc: seq<Edge>, sol: seq<Edge>, c: int)
    requires Square(root) && EdgesWithin(inc, |root|) && ColsFunctional(inc)
    requires APContract(Derived(root, inc, exc), Optimal(sol, c))
    ensures forall t :: InSpace(root, inc, exc, t) ==> c <= TotalCost(root, t)
  {
    forall t | InSpace(root, inc, exc, t)
      ensures c <= TotalCost(root, t)
    {
      DerivedAssignments(root, inc, exc, t);
      DerivedCost(root, inc, exc, t);
    }
  }
}
