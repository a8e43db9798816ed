/** The branch-and-bound search tree: a frontier of subproblems, the incumbent, and counters. */
module BnB {
  import opened Wrappers
  import opened CostMatrix
  import opened Tours
  import opened Assignment
  import opened Subproblem
  import opened Frontier
  import opened Subtours
  import opened Branching

  /** How a solve ends. */
  datatype SolveResult =
    | Solved(cost: int, tour: seq<Edge>)
    | NoTour
    | Overflow
    | OutOfFuel

  /** How the root phase of solve ends. */
  datatype RootStep =
    | RaisesOverflow
    | RaisesAttributeError
    | ReportsNoTour
    | ReportsTour(cost: int, tour: seq<Edge>)
    | QueuesRoot

  /** The root phase of solve as written: after the overflow check the tour test runs on the relaxed
    * solution, which is empty when the relaxation is infeasible, and the branch that accepts a tour reads
    * the cost from an attribute the node never sets. */
  function RootStepAsWritten(r: APResult): RootStep
  {
    if r.PossibleOverflow? then RaisesOverflow
    else
      var sol := if r.Optimal? then r.solution else [];
      if Hamiltonian(sol) then RaisesAttributeError else QueuesRoot
  }

  /** The root phase as intended: an infeasible relaxation means no tour, and a relaxed solution that is
    * a tour is the answer, at the relaxation's cost. */
  function RootStepIntended(r: APResult): RootStep
  {
    match r
    case PossibleOverflow => RaisesOverflow
    case Infeasible => ReportsNoTour
    case Optimal(sol, c) => if Hamiltonian(sol) then ReportsTour(c, sol) else QueuesRoot
  }

  /** As written, the root phase never answers: it agrees with the intended one exactly when the
    * relaxation overflows or has subtours, and it raises whenever the intended one answers. */
  lemma {:induction false} RootStepAsWrittenNeverAnswers(r: APResult)
    ensures !RootStepAsWritten(r).ReportsTour? && !RootStepAsWritten(r).ReportsNoTour?
    ensures RootStepAsWritten(r) == RootStepIntended(r) <==> r.PossibleOverflow? || (r.Optimal? && !Hamiltonian(r.solution))
    ensures RootStepIntended(r).ReportsTour? || RootStepIntended(r).ReportsNoTour? ==> RootStepAsWritten(r) == RaisesAttributeError
  {
    if r.Infeasible? {
      assert Hamiltonian([]);
    }
  }

  /** Two jobs that can only follow each other: the root relaxation is already the tour, and the
    * root phase as written raises instead of returning it. */
  lemma {:induction false} TwoJobRootRaises()
    ensures RootStepAsWritten(Optimal([Edge(0, 1), Edge(1, 0)], 0)) == RaisesAttributeError
    ensures RootStepIntended(Optimal([Edge(0, 1), Edge(1, 0)], 0)) == ReportsTour(0, [Edge(0, 1), Edge(1, 0)])
  {
    var es := [Edge(0, 1), Edge(1, 0)];
    assert es[..1][..0] == [] && es[..1] == [Edge(0, 1)];
    assert SuccessorMap(es[..1]) == map[0 := 1];
    var d := SuccessorMap(es);
    assert d == map[0 := 1, 1 := 0];
    assert Walk(d, 0, 1) == 1 && Walk(d, 0, 2) == 0;
    assert Hamiltonian(es);
  }

  /** The intended root phase is sound for a relaxation that keeps the solver's promise on the root's
    * derived matrix: no tour is reported only when there is none, and a reported tour is optimal. */
  lemma {:induction false} RootStepIntendedSound(m: Matrix, r: APResult)
    requires Square(m) && APContract(Derived(m, [], []), r)
    ensures RootStepIntended(r).ReportsNoTour? ==> forall t :: !IsTour(m, t)
    ensures RootStepIntended(r).ReportsTour? ==>
      && IsTour(m, RootStepIntended(r).tour) && RootStepIntended(r).cost == TotalCost(m, RootStepIntended(r).tour)
      && forall t :: IsTour(m, t) ==> RootStepIntended(r).cost <= TotalCost(m, t)
  {
    forall t | IsAssignment(m, t)
      ensures IsAssignment(Derived(m, [], []), t) && TotalCost(Derived(m, [], []), t) == TotalCost(m, t)
    {
      DerivedAssignments(m, [], [], t);
      DerivedCost(m, [], [], t);
    }
    if r.Optimal? {
      DerivedAssignments(m, [], [], r.solution);
    }
  }

  /** The value solve returns as written: the first subtour of the incumbent solution.
    * With no incumbent the solution is empty, it has no subtours, and indexing the empty list raises. */
  function FirstSubtourAsWritten(subtours: seq<seq<Edge>>): Option<seq<Edge>>
  {
    if subtours == [] then None else Some(subtours[0])
  }

  /** A split into cycles has a first subtour exactly when the split solution is not empty, so for the
    * empty solution of a search without incumbent the return as written raises. */
  lemma {:induction false} NoIncumbentRaises(subtours: seq<seq<Edge>>)
    requires forall k :: 0 <= k < |subtours| ==> IsCycle(subtours[k])
    ensures FirstSubtourAsWritten(subtours) == None <==> multiset(Flatten(subtours)) == multiset{}
  {
    if subtours != [] {
      FlattenLength(subtours, 0);
      assert |multiset(Flatten(subtours))| == |Flatten(subtours)| > 0;
    }
  }

  /** Four jobs that pair off (0 and 1 only follow each other, as do 2 and 3): the relaxation has an
    * assignment, yet no tour exists, so the search ends without an incumbent. */
  function PairedJobs(): Matrix
  {
    [[Forbidden, Cost(1), Forbidden, Forbidden],
     [Cost(1), Forbidden, Forbidden, Forbidden],
     [Forbidden, Forbidden, Forbidden, Cost(1)],
     [Forbidden, Forbidden, Cost(1), Forbidden]]
  }

  lemma {:induction false} PairedJobsHaveNoTour()
    ensures IsAssignment(PairedJobs(), [Edge(0, 1), Edge(1, 0), Edge(2, 3), Edge(3, 2)])
    ensures forall t :: !IsTour(PairedJobs(), t)
  {
    var m := PairedJobs();
    var a := [Edge(0, 1), Edge(1, 0), Edge(2, 3), Edge(3, 2)];
    forall t | IsAssignment(m, t)
      ensures !Hamiltonian(t)
    {
      assert t[0] == Edge(0, 1) && t[1] == Edge(1, 0) && t[2] == Edge(2, 3) && t[3] == Edge(3, 2);
      assert t == a;
      assert a[..1][..0] == [] && a[..1] == [Edge(0, 1)];
      assert SuccessorMap(a[..1]) == map[0 := 1];
      assert a[..2][..1] == a[..1] && a[..3][..2] == a[..2] && a[..3][2] == Edge(2, 3);
      assert SuccessorMap(a[..2]) == map[0 := 1, 1 := 0];
      assert SuccessorMap(a[..3]) == map[0 := 1, 1 := 0, 2 := 3];
      var d := SuccessorMap(a);
      assert d == map[0 := 1, 1 := 0, 2 := 3, 3 := 2];
      assert Walk(d, 0, 1) == 1 && Walk(d, 0, 2) == 0 && Walk(d, 0, 3) == 1;
    }
  }

  class BnBTree {
    const rootCostMatrix: Matrix
    const instanceSize: nat
    const rootNode: Node
    var unprunedNodes: seq<Entry>
    var bestCost: Bound
    var bestSolution: seq<Edge>
    var exploredSubproblems: nat
    var optimalSubproblemSolutionsFound: nat
    var prunedSubproblems: nat
    var branchedSubproblems: nat
    /** The creation time the next node receives. */
    var nodeCounter: nat

    constructor(rootCostMatrix: Matrix, instanceSize: nat)
      requires Square(rootCostMatrix)
      ensures this.rootCostMatrix == rootCostMatrix && this.instanceSize == instanceSize
      ensures fresh(rootNode) && rootNode.costMatrix == rootCostMatrix && rootNode.instanceSize == instanceSize
      ensures rootNode.includedEdges == [] && rootNode.excludedEdges == [] && rootNode.lowerBound == 0
      ensures rootNode.subproblemCostMatrix == Derived(rootCostMatrix, [], [])
      ensures rootNode.mapSolveStatus == Unsolved && rootNode.creationTime == 0
      ensures unprunedNodes == [] && bestCost == Infinity && bestSolution == []
      ensures exploredSubproblems == 0 && optimalSubproblemSolutionsFound == 0
      ensures prunedSubproblems == 0 && branchedSubproblems == 0 && nodeCounter == 1
    {
      this.rootCostMatrix := rootCostMatrix;
      this.instanceSize := instanceSize;
      rootNode := new Node(rootCostMatrix, instanceSize, [], [], 0, 0);
      unprunedNodes := [];
      bestCost := Infinity;
      bestSolution := [];
      exploredSubproblems := 0;
      optimalSubproblemSolutionsFound := 0;
      prunedSubproblems := 0;
      branchedSubproblems := 0;
      nodeCounter := 1;
    }

    /** Splits a permutation into its cycles, following successors from the first remaining edge. */
    method FindSubtours(nodeMapSol: seq<Edge>) returns (subtours: seq<seq<Edge>>)
      requires Permutation(nodeMapSol)
      ensures multiset(Flatten(subtours)) == multiset(nodeMapSol)
      ensures forall k :: 0 <= k < |subtours| ==> IsCycle(subtours[k]) && EdgesOf(nodeMapSol, subtours[k])
      ensures nodeMapSol != [] ==> subtours != [] && subtours[0] != [] && subtours[0][0] == nodeMapSol[0]
      ensures StartsAscending(subtours)
    {
      var sol := nodeMapSol;
      var consecutiveVertexMapping := EdgeDict(nodeMapSol);
      RowOrderedSuccessor(nodeMapSol);
      SplittingStart(nodeMapSol);
      RowOrderedIncreasing(nodeMapSol);
      subtours := [];
      while sol != []
        invariant Splitting(nodeMapSol, subtours, sol)
        invariant IncreasingRows(sol) && StartsAscending(subtours) && StartsBelow(subtours, sol)
        decreases |sol|
      {
        ghost var sol0 := sol;
        var subtour := [];
        var outVertex := sol[0].row;
        ghost var start := outVertex;
        var visitedVertices := {outVertex};
        TracingStart(nodeMapSol, subtours, sol);
        while true
          invariant Tracing(nodeMapSol, sol0, sol, subtour, outVertex, start, visitedVertices)
          invariant IncreasingRows(sol) && IncreasingRows(sol0)
          invariant StartsAscending(subtours) && StartsBelow(subtours, sol0)
          decreases |sol|
        {
          var inVertex := consecutiveVertexMapping[outVertex];
          assert Edge(outVertex, inVertex) == nodeMapSol[outVertex];
          if inVertex in visitedVertices {
            TracingClose(nodeMapSol, sol0, sol, subtour, outVertex, start, visitedVertices);
          } else {
            TracingStep(nodeMapSol, sol0, sol, subtour, outVertex, start, visitedVertices);
          }
          RemoveFirstIncreasing(sol, Edge(outVertex, inVertex));
          subtour := subtour + [Edge(outVertex, inVertex)];
          sol := RemoveFirst(sol, Edge(outVertex, inVertex));
          if inVertex in visitedVertices {
            SplittingStep(nodeMapSol, subtours, sol0, subtour, sol);
            StartsStep(subtours, sol0, subtour, sol);
            subtours := subtours + [subtour];
            break;
          }
          visitedVertices := visitedVertices + {inVertex};
          outVertex := inVertex;
        }
      }
    }
  
    /** list(set(...)): the elements of a set in some order. */
    method SetToSeq(s: set<Edge>) returns (r: seq<Edge>)
      ensures Elements(r) == s && Distinct(r) && |r| == |s|
    {
      r := [];
      var rest := s;
      while rest != {}
        invariant rest <= s && Elements(r) == s - rest && Distinct(r) && |r| + |rest| == |s|
        decreases |rest|
      {
        var x :| x in rest;
        assert x !in r;
        assert Elements(r + [x]) == Elements(r) + {x};
        r := r + [x];
        rest := rest - {x};
      }
    }

    /** The scan of minimal_subtour_edges: the free edges of the first subtour with strictly fewest of
      * them, the running minimum starting at instanceSize; None when no subtour goes below it. */
    method FewestFreeEdges(subtours: seq<seq<Edge>>, nodeIncludedEdges: seq<Edge>)
        returns (result: Option<seq<Edge>>, ghost chosen: nat)
      ensures result.None? <==> forall k :: 0 <= k < |subtours| ==> FreeCounts(subtours, nodeIncludedEdges)[k] >= instanceSize
      ensures result.Some? ==>
        && |result.value| < instanceSize && Distinct(result.value)
        && FirstMinimal(FreeCounts(subtours, nodeIncludedEdges), |subtours|, chosen, |result.value|)
        && Elements(result.value) == NonIncluded(subtours[chosen], nodeIncludedEdges)
    {
      var minNonIncludedEdges: nat := instanceSize;
      result := None;
      chosen := 0;
      ghost var counts := FreeCounts(subtours, nodeIncludedEdges);
      for k := 0 to |subtours|
        invariant result.None? ==> minNonIncludedEdges == instanceSize && forall j :: 0 <= j < k ==> counts[j] >= instanceSize
        invariant result.Some? ==>
          && minNonIncludedEdges < instanceSize && FirstMinimal(counts, k, chosen, minNonIncludedEdges)
          && Distinct(result.value) && |result.value| == minNonIncludedEdges
          && Elements(result.value) == NonIncluded(subtours[chosen], nodeIncludedEdges)
      {
        var subtourNonIncludedEdges := NonIncluded(subtours[k], nodeIncludedEdges);
        var numNonIncludedEdges := |subtourNonIncludedEdges|;
        assert numNonIncludedEdges == counts[k];
        if numNonIncludedEdges < minNonIncludedEdges {
          if result.Some? {
            FirstMinimalBound(counts, k, chosen, minNonIncludedEdges);
          }
          FirstMinimalStart(counts, k);
          minNonIncludedEdges := numNonIncludedEdges;
          var edges := SetToSeq(subtourNonIncludedEdges);
          result := Some(edges);
          chosen := k;
        } else if result.Some? {
          FirstMinimalKeep(counts, k, chosen, minNonIncludedEdges);
        }
      }
    }

    /** The free edges of the subtour chosen for branching, with the subtours they come from. */
    method MinimalSubtourEdges(nodeIncludedEdges: seq<Edge>, nodeMapSol: seq<Edge>)
        returns (result: Option<seq<Edge>>, ghost subtours: seq<seq<Edge>>, ghost chosen: nat)
      requires Permutation(nodeMapSol)
      ensures multiset(Flatten(subtours)) == multiset(nodeMapSol)
      ensures forall k :: 0 <= k < |subtours| ==> IsCycle(subtours[k]) && EdgesOf(nodeMapSol, subtours[k])
      ensures nodeMapSol != [] ==> subtours != [] && subtours[0] != [] && subtours[0][0] == nodeMapSol[0]
      ensures StartsAscending(subtours)
      ensures result.None? <==> forall k :: 0 <= k < |subtours| ==> FreeCounts(subtours, nodeIncludedEdges)[k] >= instanceSize
      ensures result.Some? ==>
        && |result.value| < instanceSize && Distinct(result.value)
        && FirstMinimal(FreeCounts(subtours, nodeIncludedEdges), |subtours|, chosen, |result.value|)
        && Elements(result.value) == NonIncluded(subtours[chosen], nodeIncludedEdges)
    {
      var found := FindSubtours(nodeMapSol);
      subtours := found;
      result, chosen := FewestFreeEdges(found, nodeIncludedEdges);
    }
  
    /** A solved subproblem that still needs branching: its relaxation is an assignment but no tour. */
    ghost predicate Expandable(node: Node)
      reads node
    {
      && node.costMatrix == rootCostMatrix && node.instanceSize == instanceSize
      && node.Wellformed() && Disjoint(node.includedEdges, node.excludedEdges)
      && node.BoundValid()
      && node.mapSolveStatus == FoundOptimal
      && IsAssignment(node.subproblemCostMatrix, node.mapSolution)
      && !Hamiltonian(node.mapSolution)
    }

    /** A subproblem ready to be processed: well formed, disjoint constraint sets, a valid bound. */
    ghost predicate ChildReady(child: Node)
      reads child
    {
      && child.costMatrix == rootCostMatrix && child.instanceSize == instanceSize
      && child.Wellformed() && Disjoint(child.includedEdges, child.excludedEdges)
      && child.BoundValid()
    }

    /** Child i of `parent` for the free-edge list `edges`, created at time `time + i`. */
    ghost predicate ChildOf(parent: Node, child: Node, edges: seq<Edge>, i: nat, time: nat)
      reads parent, child
      requires i < |edges|
    {
      && child.includedEdges == edges[..i] + parent.includedEdges
      && child.excludedEdges == [edges[i]] + parent.excludedEdges
      && child.lowerBound == parent.lowerBound
      && child.mapSolveStatus == Unsolved
      && child.creationTime == time + i
    }

    /** Builds child i of `node` for the free-edge list `edges`. */
    method NewChild(node: Node, childIncludedEdges: seq<Edge>, childExcludedEdges: seq<Edge>,
                    ghost edges: seq<Edge>, ghost i: nat, time: nat) returns (childNode: Node)
      requires Square(rootCostMatrix) && Expandable(node)
      requires forall e :: e in edges ==> e in node.mapSolution && e !in node.includedEdges
      requires Distinct(edges) && i < |edges|
      requires childIncludedEdges == edges[..i] + node.includedEdges
      requires childExcludedEdges == [edges[i]] + node.excludedEdges
      requires i <= time
      ensures fresh(childNode) && ChildReady(childNode) && ChildOf(node, childNode, edges, i, time - i)
    {
      var inc := node.includedEdges;
      var exc := node.excludedEdges;
      DerivedAssignments(rootCostMatrix, inc, exc, node.mapSolution);
      ChildConstraints(rootCostMatrix, inc, exc, node.mapSolution, edges, i);
      childNode := new Node(rootCostMatrix, instanceSize, childIncludedEdges, childExcludedEdges, node.lowerBound, time);
      forall t | InSpace(rootCostMatrix, childIncludedEdges, childExcludedEdges, t)
        ensures childNode.lowerBound <= TotalCost(rootCostMatrix, t)
      {
        ChildWithinParent(rootCostMatrix, inc, exc, edges, i, t);
      }
    }

    /** The free edges of the subtour that `branch` splits on: of the subtours of the node's relaxed
      * solution, the first with strictly fewest free edges, which is a proper subtour; each of its
      * edges not yet included appears once. */
    method BranchingEdges(node: Node) returns (edges: seq<Edge>, ghost subtours: seq<seq<Edge>>, ghost chosen: nat,
                                               ghost subtour: seq<Edge>)
      requires Square(rootCostMatrix) && instanceSize == |rootCostMatrix|
      requires Expandable(node)
      ensures SplitOf(node.mapSolution, subtours)
      ensures FirstMinimal(FreeCounts(subtours, node.includedEdges), |subtours|, chosen, |edges|)
      ensures subtour == subtours[chosen]
      ensures IsCycle(subtour) && EdgesOf(node.mapSolution, subtour) && |subtour| < |rootCostMatrix|
      ensures Distinct(edges) && Elements(edges) == NonIncluded(subtour, node.includedEdges)
      ensures forall e :: e in edges ==> e in node.mapSolution && e !in node.includedEdges
    {
      var sol := node.mapSolution;
      var inc := node.includedEdges;
      assert IsAssignment(rootCostMatrix, sol) && Permutation(sol) by {
        AssignmentIsPermutation(node.subproblemCostMatrix, sol);
        DerivedAssignments(rootCostMatrix, inc, node.excludedEdges, sol);
      }
      var minimal;
      minimal, subtours, chosen := MinimalSubtourEdges(inc, sol);
      SubtoursAreProper(sol, subtours, 0);
      NonIncludedCard(subtours[0], inc);
      assert FreeCounts(subtours, inc)[0] < instanceSize;
      edges := minimal.value;
      subtour := subtours[chosen];
      SubtoursAreProper(sol, subtours, chosen);
      forall e | e in edges
        ensures e in sol && e !in inc
      {
        assert e in Elements(edges);
      }
    }

    /** The loop of branch: child i includes the first i free edges and excludes edge i. */
    method MakeChildren(node: Node, edges: seq<Edge>) returns (childrenNodes: seq<Node>)
      requires Square(rootCostMatrix) && Expandable(node)
      requires Distinct(edges) && forall e :: e in edges ==> e in node.mapSolution && e !in node.includedEdges
      modifies this`nodeCounter
      ensures nodeCounter == old(nodeCounter) + |childrenNodes| && |childrenNodes| == |edges|
      ensures forall a :: 0 <= a < |edges| ==> fresh(childrenNodes[a])
      ensures forall a :: 0 <= a < |edges| ==> ChildReady(childrenNodes[a])
      ensures forall a :: 0 <= a < |edges| ==> ChildOf(node, childrenNodes[a], edges, a, old(nodeCounter))
      ensures forall a, b :: 0 <= a < b < |edges| ==> childrenNodes[a] != childrenNodes[b]
    {
      var inc := node.includedEdges;
      var exc := node.excludedEdges;
      var numChildrenNodes := |edges|;
      childrenNodes := [];
      for i := 0 to numChildrenNodes
        invariant |childrenNodes| == i && nodeCounter == old(nodeCounter) + i
        invariant forall a :: 0 <= a < i ==> fresh(childrenNodes[a])
        invariant forall a :: 0 <= a < i ==> ChildReady(childrenNodes[a])
        invariant forall a :: 0 <= a < i ==> ChildOf(node, childrenNodes[a], edges, a, old(nodeCounter))
        invariant forall a, b :: 0 <= a < b < i ==> childrenNodes[a] != childrenNodes[b]
      {
        var newIncludedEdges := edges[0..i];
        var newExcludedEdge := edges[i..i + 1];
        var childNode := NewChild(node, newIncludedEdges + inc, newExcludedEdge + exc, edges, i, nodeCounter);
        nodeCounter := nodeCounter + 1;
        childrenNodes := childrenNodes + [childNode];
      }
    }

    /** Splits a subproblem on the free edges of its chosen subtour; the most constrained child comes first. */
    method Branch(node: Node)
        returns (children: seq<Node>, ghost subtours: seq<seq<Edge>>, ghost chosen: nat, ghost subtour: seq<Edge>,
                 ghost edges: seq<Edge>)
      requires Square(rootCostMatrix) && instanceSize == |rootCostMatrix|
      requires Expandable(node)
      modifies this`nodeCounter
      ensures nodeCounter == old(nodeCounter) + |children|
      ensures SplitOf(node.mapSolution, subtours)
      ensures FirstMinimal(FreeCounts(subtours, node.includedEdges), |subtours|, chosen, |edges|)
      ensures subtour == subtours[chosen]
      ensures IsCycle(subtour) && EdgesOf(node.mapSolution, subtour) && |subtour| < |rootCostMatrix|
      ensures Distinct(edges) && Elements(edges) == NonIncluded(subtour, node.includedEdges)
      ensures |children| == |edges|
      ensures forall j :: 0 <= j < |children| ==> fresh(children[j]) && ChildReady(children[j])
      ensures forall a, b :: 0 <= a < b < |children| ==> children[a] != children[b]
      ensures forall j :: 0 <= j < |children| ==> ChildOf(node, children[j], edges, |edges| - 1 - j, old(nodeCounter))
      ensures forall t :: InSpace(rootCostMatrix, node.includedEdges, node.excludedEdges, t) ==>
        exists j :: 0 <= j < |children| && InSpace(rootCostMatrix, children[j].includedEdges, children[j].excludedEdges, t)
    {
      var minimalSubtourNonIncludedEdges;
      minimalSubtourNonIncludedEdges, subtours, chosen, subtour := BranchingEdges(node);
      edges := minimalSubtourNonIncludedEdges;
      children := ReversedChildren(node, subtour, minimalSubtourNonIncludedEdges);
    }

    /** The children of branch on the free edges of a proper subtour, the last one made first. Every tour
      * in the node's space lies in the space of one of them. */
    method ReversedChildren(node: Node, ghost subtour: seq<Edge>, edges: seq<Edge>) returns (children: seq<Node>)
      requires Square(rootCostMatrix) && instanceSize == |rootCostMatrix|
      requires Expandable(node)
      requires IsCycle(subtour) && EdgesOf(node.mapSolution, subtour) && |subtour| < |rootCostMatrix|
      requires Distinct(edges) && Elements(edges) == NonIncluded(subtour, node.includedEdges)
      requires forall e :: e in edges ==> e in node.mapSolution && e !in node.includedEdges
      modifies this`nodeCounter
      ensures nodeCounter == old(nodeCounter) + |children|
      ensures |children| == |edges|
      ensures forall j :: 0 <= j < |children| ==> fresh(children[j]) && ChildReady(children[j])
      ensures forall a, b :: 0 <= a < b < |children| ==> children[a] != children[b]
      ensures forall j :: 0 <= j < |children| ==> ChildOf(node, children[j], edges, |edges| - 1 - j, old(nodeCounter))
      ensures forall t :: InSpace(rootCostMatrix, node.includedEdges, node.excludedEdges, t) ==>
        exists j :: 0 <= j < |children| && InSpace(rootCostMatrix, children[j].includedEdges, children[j].excludedEdges, t)
    {
      ghost var time := nodeCounter;
      var childrenNodes := MakeChildren(node, edges);
      children := seq(|childrenNodes|, j requires 0 <= j < |childrenNodes| => childrenNodes[|childrenNodes| - 1 - j]);
      ReversedCover(node, subtour, edges, childrenNodes, children, time);
    }

    /** Whatever order the children come in, every tour of the parent's space lies in the space of one
      * of them. */
    lemma {:induction false} ReversedCover(node: Node, subtour: seq<Edge>, edges: seq<Edge>, made: seq<Node>,
                                           children: seq<Node>, time: nat)
      requires IsCycle(subtour) && |subtour| < |rootCostMatrix|
      requires Elements(edges) == NonIncluded(subtour, node.includedEdges)
      requires |made| == |edges| && |children| == |made|
      requires forall a :: 0 <= a < |edges| ==> ChildOf(node, made[a], edges, a, time)
      requires forall j :: 0 <= j < |children| ==> children[j] == made[|made| - 1 - j]
      ensures forall t :: InSpace(rootCostMatrix, node.includedEdges, node.excludedEdges, t) ==>
        exists j :: 0 <= j < |children| && InSpace(rootCostMatrix, children[j].includedEdges, children[j].excludedEdges, t)
    {
      forall t | InSpace(rootCostMatrix, node.includedEdges, node.excludedEdges, t)
        ensures exists j :: 0 <= j < |children| && InSpace(rootCostMatrix, children[j].includedEdges, children[j].excludedEdges, t)
      {
        var i := BranchCoverage(rootCostMatrix, node.includedEdges, node.excludedEdges, subtour, edges, t);
        assert children[|edges| - 1 - i] == made[i];
      }
    }

    // -------------------------------------------------------------------------------------
    // The search state

    /** The incumbent: no tour yet and an empty solution, or a tour priced at the incumbent cost. */
    ghost predicate IncumbentOk(best: Bound, solution: seq<Edge>)
    {
      && (best.Infinity? ==> solution == [])
      && (best.Finite? ==> IsTour(rootCostMatrix, solution) && best.value == TotalCost(rootCostMatrix, solution))
    }

    /** The frontier is in key order and holds expandable subproblems, each queued under its
      * lower bound, which is below the incumbent. */
    ghost predicate QueueReady(q: seq<Entry>, best: Bound)
      reads NodesOf(q)
    {
      && Sorted(q)
      && forall e :: e in q ==> Expandable(e.node) && e.priority == e.node.lowerBound && Below(e.priority, best)
    }

    /** The invariant of the search: a ready frontier and a sound incumbent. */
    ghost predicate Valid()
      reads this`unprunedNodes, this`bestCost, this`bestSolution, NodesOf(unprunedNodes)
    {
      && Square(rootCostMatrix) && instanceSize == |rootCostMatrix|
      && QueueReady(unprunedNodes, bestCost)
      && IncumbentOk(bestCost, bestSolution)
    }

    /** Every explored subproblem was pruned, improved the incumbent, waits in the frontier or was branched. */
    ghost predicate Accounted()
      reads this`unprunedNodes, this`exploredSubproblems, this`prunedSubproblems,
        this`optimalSubproblemSolutionsFound, this`branchedSubproblems
    {
      exploredSubproblems == prunedSubproblems + optimalSubproblemSolutionsFound + |unprunedNodes| + branchedSubproblems
    }

    /** Tour t lies in the space of a queued subproblem or of a subproblem still to be processed. */
    ghost predicate Covered(q: seq<Entry>, pending: seq<Node>, t: seq<Edge>)
    {
      || (exists e :: e in q && InSpace(rootCostMatrix, e.node.includedEdges, e.node.excludedEdges, t))
      || (exists j :: 0 <= j < |pending| && InSpace(rootCostMatrix, pending[j].includedEdges, pending[j].excludedEdges, t))
    }

    /** No tour cheaper than the incumbent has been lost. */
    ghost predicate Complete(q: seq<Entry>, best: Bound, pending: seq<Node>)
    {
      forall t {:trigger Covered(q, pending, t)} ::
        IsTour(rootCostMatrix, t) && Below(TotalCost(rootCostMatrix, t), best) ==> Covered(q, pending, t)
    }

    /** prune_queue: keeps the queued pairs below the incumbent, in order, and counts the rest as pruned. */
    method PruneQueue()
      requires Sorted(unprunedNodes)
      modifies this`unprunedNodes, this`prunedSubproblems
      ensures unprunedNodes == PrefixBelow(old(unprunedNodes), bestCost)
      ensures prunedSubproblems == old(prunedSubproblems) + |old(unprunedNodes)| - |unprunedNodes|
    {
      ghost var q0 := unprunedNodes;
      var newQueue: seq<Entry> := [];
      while unprunedNodes != []
        invariant |newQueue| <= |q0| && newQueue == q0[..|newQueue|] && unprunedNodes == q0[|newQueue|..]
        invariant forall i :: 0 <= i < |newQueue| ==> Below(q0[i].priority, bestCost)
        invariant prunedSubproblems == old(prunedSubproblems)
        decreases |unprunedNodes|
      {
        var entry := unprunedNodes[0];
        unprunedNodes := unprunedNodes[1..];
        if Below(entry.priority, bestCost) {
          assert entry == q0[|newQueue|];
          forall x | x in newQueue
            ensures !KeyLess(entry, x)
          {
            var i :| 0 <= i < |newQueue| && newQueue[i] == x;
            assert KeyLe(q0[i], q0[|newQueue|]);
          }
          PutAtEnd(newQueue, entry);
          newQueue := Put(newQueue, entry);
        } else {
          prunedSubproblems := prunedSubproblems + |unprunedNodes| + 1;
          break;
        }
      }
      PrefixBelowUnique(q0, bestCost, |newQueue|);
      unprunedNodes := newQueue;
    }

    /** Completeness carries over to a new frontier and a bound no weaker when the first pending
      * subproblem's tours below the new bound are queued and every queued entry that holds one is kept. */
    lemma {:induction false} CompleteAfter(q0: seq<Entry>, b0: Bound, q1: seq<Entry>, b1: Bound, pending: seq<Node>)
      requires pending != [] && Complete(q0, b0, pending)
      requires b1 == b0 || (b1.Finite? && Below(b1.value, b0))
      requires forall t :: (InSpace(rootCostMatrix, pending[0].includedEdges, pending[0].excludedEdges, t) &&
        Below(TotalCost(rootCostMatrix, t), b1)) ==> Covered(q1, [], t)
      requires forall e, t :: (e in q0 && InSpace(rootCostMatrix, e.node.includedEdges, e.node.excludedEdges, t) &&
        Below(TotalCost(rootCostMatrix, t), b1)) ==> e in q1
      ensures Complete(q1, b1, pending[1..])
    {
      forall t | IsTour(rootCostMatrix, t) && Below(TotalCost(rootCostMatrix, t), b1)
        ensures Covered(q1, pending[1..], t)
      {
        assert Covered(q0, pending, t);
        if !InSpace(rootCostMatrix, pending[0].includedEdges, pending[0].excludedEdges, t) {
          KeepCovered(q0, q1, pending, t);
        }
      }
    }

    /** Pruning a ready frontier against a bound keeps every entry whose space holds a tour below it. */
    lemma {:induction false} KeptEntries(q: seq<Entry>, b0: Bound, b: Bound)
      requires Square(rootCostMatrix) && QueueReady(q, b0)
      ensures forall e, t :: (e in q && InSpace(rootCostMatrix, e.node.includedEdges, e.node.excludedEdges, t) &&
        Below(TotalCost(rootCostMatrix, t), b)) ==> e in PrefixBelow(q, b)
    {
      PrefixBelowDropsOnlyHigh(q, b);
      forall e, t | e in q && InSpace(rootCostMatrix, e.node.includedEdges, e.node.excludedEdges, t) &&
        Below(TotalCost(rootCostMatrix, t), b)
        ensures e in PrefixBelow(q, b)
      {
        assert e.node.BoundValid();
      }
    }

    /** A tour covered outside the first pending subproblem stays covered when the queue keeps those entries. */
    lemma {:induction false} KeepCovered(q0: seq<Entry>, q1: seq<Entry>, pending: seq<Node>, t: seq<Edge>)
      requires pending != [] && Covered(q0, pending, t)
      requires !InSpace(rootCostMatrix, pending[0].includedEdges, pending[0].excludedEdges, t)
      requires forall e :: e in q0 && InSpace(rootCostMatrix, e.node.includedEdges, e.node.excludedEdges, t) ==> e in q1
      ensures Covered(q1, pending[1..], t)
    {
      if !exists e :: e in q0 && InSpace(rootCostMatrix, e.node.includedEdges, e.node.excludedEdges, t) {
        var j :| 0 <= j < |pending| && InSpace(rootCostMatrix, pending[j].includedEdges, pending[j].excludedEdges, t);
        assert pending[1..][j - 1] == pending[j];
      }
    }

    /** A subproblem whose lower bound is not below the incumbent holds no tour below it. */
    lemma {:induction false} BoundPrunes(node: Node, best: Bound)
      requires Square(node.costMatrix) && node.BoundValid() && !Below(node.lowerBound, best)
      ensures forall t :: InSpace(node.costMatrix, node.includedEdges, node.excludedEdges, t) ==>
        !Below(TotalCost(node.costMatrix, t), best)
    {
    }

    /** Prunes a subproblem whose space holds no tour below the incumbent. */
    method PruneChild(child: Node, ghost pending: seq<Node>)
      requires pending != [] && pending[0] == child && Complete(unprunedNodes, bestCost, pending)
      requires forall t :: InSpace(rootCostMatrix, child.includedEdges, child.excludedEdges, t) ==>
        !Below(TotalCost(rootCostMatrix, t), bestCost)
      modifies this`prunedSubproblems
      ensures prunedSubproblems == old(prunedSubproblems) + 1
      ensures Complete(unprunedNodes, bestCost, pending[1..])
    {
      prunedSubproblems := prunedSubproblems + 1;
      CompleteAfter(unprunedNodes, bestCost, unprunedNodes, bestCost, pending);
    }

    /** The relaxed solution of a subproblem is a tour cheaper than the incumbent: it becomes the
      * incumbent and the frontier is pruned against it. */
    method UpdateIncumbent(child: Node, ghost pending: seq<Node>)
      requires Valid() && NotQueued(unprunedNodes, child)
      requires ChildReady(child) && child.mapSolveStatus == FoundOptimal
      requires APContract(child.subproblemCostMatrix, Optimal(child.mapSolution, child.mapMinCost))
      requires Hamiltonian(child.mapSolution) && child.mapMinCost <= child.lowerBound && Below(child.lowerBound, bestCost)
      requires pending != [] && pending[0] == child && Complete(unprunedNodes, bestCost, pending)
      modifies this`bestCost, this`bestSolution, this`optimalSubproblemSolutionsFound, this`unprunedNodes, this`prunedSubproblems
      ensures Valid() && Complete(unprunedNodes, bestCost, pending[1..])
      ensures bestCost == Finite(child.mapMinCost) && bestSolution == child.mapSolution
      ensures optimalSubproblemSolutionsFound == old(optimalSubproblemSolutionsFound) + 1
      ensures prunedSubproblems + |unprunedNodes| == old(prunedSubproblems) + old(|unprunedNodes|)
      ensures forall e :: e in unprunedNodes ==> e in old(unprunedNodes)
    {
      ghost var q0 := unprunedNodes;
      ghost var b0 := bestCost;
      KeptEntries(q0, b0, Finite(child.mapMinCost));
      optimalSubproblemSolutionsFound := optimalSubproblemSolutionsFound + 1;
      assert IsTour(rootCostMatrix, child.mapSolution) by {
        DerivedAssignments(rootCostMatrix, child.includedEdges, child.excludedEdges, child.mapSolution);
      }
      assert child.mapMinCost == TotalCost(rootCostMatrix, child.mapSolution) by {
        DerivedCost(rootCostMatrix, child.includedEdges, child.excludedEdges, child.mapSolution);
      }
      bestCost := Finite(child.mapMinCost);
      bestSolution := child.mapSolution;
      PruneQueue();
      CompleteAfter(q0, b0, unprunedNodes, bestCost, pending);
    }

    /** put: queues a subproblem that needs branching under its lower bound. */
    method QueueChild(child: Node, ghost pending: seq<Node>)
      requires Valid() && NotQueued(unprunedNodes, child)
      requires Expandable(child) && Below(child.lowerBound, bestCost)
      requires pending != [] && pending[0] == child && Complete(unprunedNodes, bestCost, pending)
      modifies this`unprunedNodes
      ensures unprunedNodes == Put(old(unprunedNodes), Entry(child.lowerBound, child))
      ensures Valid() && Complete(unprunedNodes, bestCost, pending[1..])
      ensures forall e :: e in unprunedNodes ==> e in old(unprunedNodes) || e.node == child
    {
      ghost var q0 := unprunedNodes;
      var entry := Entry(child.lowerBound, child);
      PutSorted(unprunedNodes, entry);
      unprunedNodes := Put(unprunedNodes, entry);
      assert forall e :: e in unprunedNodes <==> e in q0 || e == entry by {
        forall e
          ensures e in unprunedNodes <==> e in q0 || e == entry
        {
          assert e in unprunedNodes <==> e in multiset(unprunedNodes);
        }
      }
      forall t | InSpace(rootCostMatrix, child.includedEdges, child.excludedEdges, t)
        ensures Covered(unprunedNodes, [], t)
      {
        assert entry in unprunedNodes;
      }
      CompleteAfter(q0, bestCost, unprunedNodes, bestCost, pending);
    }

    /** Solves the relaxation of a child that survived the cost-reduction test and acts on it: prunes it
      * when the relaxation is infeasible or its bound reaches the incumbent, makes its relaxed solution the
      * new incumbent when that solution is a tour, and queues it otherwise. Reports a possible overflow. */
    method ExploreRelaxation(child: Node, ap: Matrix -> APResult, ghost pending: seq<Node>) returns (overflow: bool)
      requires Oracle(ap) && Valid() && ChildReady(child) && NotQueued(unprunedNodes, child)
      requires Below(child.lowerBound, bestCost)
      requires pending != [] && pending[0] == child && Complete(unprunedNodes, bestCost, pending)
      modifies this`unprunedNodes, this`bestCost, this`bestSolution, this`prunedSubproblems,
        this`optimalSubproblemSolutionsFound, child
      ensures !overflow ==> Valid() && Complete(unprunedNodes, bestCost, pending[1..])
      ensures !overflow ==> (prunedSubproblems + optimalSubproblemSolutionsFound + |unprunedNodes| ==
        old(prunedSubproblems + optimalSubproblemSolutionsFound + |unprunedNodes|) + 1)
      ensures forall e :: e in unprunedNodes ==> e in old(unprunedNodes) || e.node == child
      ensures bestCost == old(bestCost) || (bestCost.Finite? && Below(bestCost.value, old(bestCost)))
    {
      child.SolveMAP(ap);
      if child.mapSolveStatus == SolveStatus.Infeasible {
        forall t | InSpace(rootCostMatrix, child.includedEdges, child.excludedEdges, t)
          ensures false
        {
          DerivedAssignments(rootCostMatrix, child.includedEdges, child.excludedEdges, t);
        }
        PruneChild(child, pending);
        return false;
      }
      if child.mapSolveStatus == SolveStatus.PossibleOverflow {
        return true;
      }
      if !Below(child.lowerBound, bestCost) {
        BoundPrunes(child, bestCost);
        PruneChild(child, pending);
        return false;
      }
      SettleChild(child, pending);
      return false;
    }

    /** A child whose relaxed bound is below the incumbent: its relaxed solution becomes the incumbent
      * when it is a tour, and the child is queued for branching otherwise. */
    method SettleChild(child: Node, ghost pending: seq<Node>)
      requires Valid() && ChildReady(child) && NotQueued(unprunedNodes, child)
      requires child.mapSolveStatus == FoundOptimal
      requires APContract(child.subproblemCostMatrix, Optimal(child.mapSolution, child.mapMinCost))
      requires child.mapMinCost <= child.lowerBound && Below(child.lowerBound, bestCost)
      requires pending != [] && pending[0] == child && Complete(unprunedNodes, bestCost, pending)
      modifies this`unprunedNodes, this`bestCost, this`bestSolution, this`prunedSubproblems,
        this`optimalSubproblemSolutionsFound
      ensures Valid() && Complete(unprunedNodes, bestCost, pending[1..])
      ensures (prunedSubproblems + optimalSubproblemSolutionsFound + |unprunedNodes| ==
        old(prunedSubproblems + optimalSubproblemSolutionsFound + |unprunedNodes|) + 1)
      ensures forall e :: e in unprunedNodes ==> e in old(unprunedNodes) || e.node == child
      ensures bestCost == old(bestCost) || (bestCost.Finite? && Below(bestCost.value, old(bestCost)))
    {
      AssignmentIsPermutation(child.subproblemCostMatrix, child.mapSolution);
      var feasible := child.MapSolCglspFeasible();
      if feasible {
        UpdateIncumbent(child, pending);
      } else {
        QueueChild(child, pending);
      }
    }

    /** Processes one child of a branched subproblem (the body of the loop over the children in solve):
      * counts it as explored, raises its bound by cost reduction, prunes it when that bound reaches the
      * incumbent, and otherwise explores its relaxation. Reports a possible overflow. */
    method ProcessChild(child: Node, ap: Matrix -> APResult, ghost pending: seq<Node>) returns (overflow: bool)
      requires Oracle(ap) && Valid() && Accounted() && ChildReady(child) && NotQueued(unprunedNodes, child)
      requires pending != [] && pending[0] == child && Complete(unprunedNodes, bestCost, pending)
      modifies this`unprunedNodes, this`bestCost, this`bestSolution, this`exploredSubproblems,
        this`prunedSubproblems, this`optimalSubproblemSolutionsFound, child
      ensures !overflow ==> Valid() && Accounted() && Complete(unprunedNodes, bestCost, pending[1..])
      ensures exploredSubproblems == old(exploredSubproblems) + 1
      ensures forall e :: e in unprunedNodes ==> e in old(unprunedNodes) || e.node == child
      ensures bestCost == old(bestCost) || (bestCost.Finite? && Below(bestCost.value, old(bestCost)))
    {
      exploredSubproblems := exploredSubproblems + 1;
      child.GetCostReductionLowerBound();
      if !Below(child.lowerBound, bestCost) {
        BoundPrunes(child, bestCost);
        PruneChild(child, pending);
        return false;
      }
      overflow := ExploreRelaxation(child, ap, pending);
    }

    /** The state the constructor leaves: the unsolved root over the whole matrix, an empty frontier,
      * no incumbent and zero counters. */
    ghost predicate Initial()
      reads this, rootNode
    {
      && Square(rootCostMatrix) && instanceSize == |rootCostMatrix|
      && rootNode.costMatrix == rootCostMatrix && rootNode.instanceSize == instanceSize
      && rootNode.includedEdges == [] && rootNode.excludedEdges == [] && rootNode.lowerBound == 0
      && rootNode.subproblemCostMatrix == Derived(rootCostMatrix, [], [])
      && unprunedNodes == [] && bestCost == Infinity && bestSolution == []
      && exploredSubproblems == 0 && optimalSubproblemSolutionsFound == 0
      && prunedSubproblems == 0 && branchedSubproblems == 0
    }

    /** The state once the root has been counted as explored and bounded: nothing else has changed. */
    ghost predicate RootExplored()
      reads this, rootNode
    {
      && Square(rootCostMatrix) && instanceSize == |rootCostMatrix|
      && rootNode.costMatrix == rootCostMatrix && rootNode.instanceSize == instanceSize
      && rootNode.includedEdges == [] && rootNode.excludedEdges == []
      && rootNode.subproblemCostMatrix == Derived(rootCostMatrix, [], [])
      && unprunedNodes == [] && bestCost == Infinity && bestSolution == []
      && exploredSubproblems == 1 && optimalSubproblemSolutionsFound == 0
      && prunedSubproblems == 0 && branchedSubproblems == 0
    }

    /** Every tour of the whole matrix lies in the root's space and is an assignment of the root's
      * derived matrix at the same cost. */
    lemma {:induction false} RootSpace(t: seq<Edge>)
      requires Square(rootCostMatrix) && IsTour(rootCostMatrix, t)
      ensures InSpace(rootCostMatrix, [], [], t)
      ensures IsAssignment(Derived(rootCostMatrix, [], []), t)
      ensures TotalCost(Derived(rootCostMatrix, [], []), t) == TotalCost(rootCostMatrix, t)
    {
      DerivedAssignments(rootCostMatrix, [], [], t);
      DerivedCost(rootCostMatrix, [], [], t);
    }

    /** The head of the main loop: pops the subproblem with the least key and branches it. Every tour
      * below the incumbent stays in the space of a queued subproblem or of one of the children. */
    method PopAndBranch() returns (childrenNodes: seq<Node>)
      requires Valid() && Accounted() && unprunedNodes != [] && Complete(unprunedNodes, bestCost, [])
      modifies this`unprunedNodes, this`branchedSubproblems, this`nodeCounter
      ensures unprunedNodes == old(unprunedNodes)[1..]
      ensures branchedSubproblems == old(branchedSubproblems) + 1
      ensures Valid() && Accounted() && Complete(unprunedNodes, bestCost, childrenNodes)
      ensures forall j :: 0 <= j < |childrenNodes| ==>
        fresh(childrenNodes[j]) && ChildReady(childrenNodes[j]) && NotQueued(unprunedNodes, childrenNodes[j])
      ensures forall a, b :: 0 <= a < b < |childrenNodes| ==> childrenNodes[a] != childrenNodes[b]
    {
      var curNode := PopHead();
      childrenNodes := BranchPopped(curNode);
    }

    /** Branches a popped subproblem: the tours below the incumbent that were pending in its space are
      * pending in the spaces of its children. */
    method BranchPopped(node: Node) returns (children: seq<Node>)
      requires Square(rootCostMatrix) && instanceSize == |rootCostMatrix| && Expandable(node)
      requires Complete(unprunedNodes, bestCost, [node])
      modifies this`nodeCounter
      ensures Complete(unprunedNodes, bestCost, children)
      ensures forall j :: 0 <= j < |children| ==> fresh(children[j]) && ChildReady(children[j])
      ensures forall a, b :: 0 <= a < b < |children| ==> children[a] != children[b]
    {
      ghost var subtours, chosen, subtour, edges;
      children, subtours, chosen, subtour, edges := Branch(node);
      BranchCovered(unprunedNodes, bestCost, node, children);
    }

    /** Pops the pair with the least key and counts its subproblem as branched; every tour below the
      * incumbent stays in the space of a queued subproblem or of the popped one. */
    method PopHead() returns (curNode: Node)
      requires Valid() && Accounted() && unprunedNodes != [] && Complete(unprunedNodes, bestCost, [])
      modifies this`unprunedNodes, this`branchedSubproblems
      ensures curNode == old(unprunedNodes)[0].node && unprunedNodes == old(unprunedNodes)[1..]
      ensures branchedSubproblems == old(branchedSubproblems) + 1
      ensures Valid() && Accounted() && Expandable(curNode) && Complete(unprunedNodes, bestCost, [curNode])
    {
      ghost var q0 := unprunedNodes;
      curNode := unprunedNodes[0].node;
      unprunedNodes := unprunedNodes[1..];
      branchedSubproblems := branchedSubproblems + 1;
      assert Expandable(curNode) by {
        assert q0[0] in q0;
      }
      PopCovered(q0, bestCost);
    }

    /** Popping the head of a complete frontier leaves its subproblem pending. */
    lemma {:induction false} PopCovered(q: seq<Entry>, best: Bound)
      requires q != [] && Complete(q, best, [])
      ensures Complete(q[1..], best, [q[0].node])
    {
      forall t | IsTour(rootCostMatrix, t) && Below(TotalCost(rootCostMatrix, t), best)
        ensures Covered(q[1..], [q[0].node], t)
      {
        assert Covered(q, [], t);
        var e :| e in q && InSpace(rootCostMatrix, e.node.includedEdges, e.node.excludedEdges, t);
        if e != q[0] {
          assert e in q[1..];
        } else {
          assert [q[0].node][0] == e.node;
        }
      }
    }

    /** A pending subproblem may be replaced by children whose spaces cover its space. */
    lemma {:induction false} BranchCovered(q: seq<Entry>, best: Bound, node: Node, children: seq<Node>)
      requires Complete(q, best, [node])
      requires forall t :: InSpace(rootCostMatrix, node.includedEdges, node.excludedEdges, t) ==>
        exists j :: 0 <= j < |children| && InSpace(rootCostMatrix, children[j].includedEdges, children[j].excludedEdges, t)
      ensures Complete(q, best, children)
    {
      forall t | IsTour(rootCostMatrix, t) && Below(TotalCost(rootCostMatrix, t), best)
        ensures Covered(q, children, t)
      {
        assert Covered(q, [node], t);
      }
    }

    /** The loop over the children of a branched subproblem, most constrained first. Reports a possible
      * overflow. */
    method ProcessChildren(childrenNodes: seq<Node>, ap: Matrix -> APResult) returns (overflow: bool)
      requires Oracle(ap) && Valid() && Accounted() && Complete(unprunedNodes, bestCost, childrenNodes)
      requires forall j :: 0 <= j < |childrenNodes| ==> ChildReady(childrenNodes[j]) && NotQueued(unprunedNodes, childrenNodes[j])
      requires forall a, b :: 0 <= a < b < |childrenNodes| ==> childrenNodes[a] != childrenNodes[b]
      modifies this`unprunedNodes, this`bestCost, this`bestSolution, this`exploredSubproblems,
        this`prunedSubproblems, this`optimalSubproblemSolutionsFound, childrenNodes
      ensures !overflow ==> Valid() && Accounted() && Complete(unprunedNodes, bestCost, [])
      ensures bestCost == old(bestCost) || (bestCost.Finite? && Below(bestCost.value, old(bestCost)))
    {
      for k := 0 to |childrenNodes|
        invariant Valid() && Accounted() && Complete(unprunedNodes, bestCost, childrenNodes[k..])
        invariant forall j :: k <= j < |childrenNodes| ==> ChildReady(childrenNodes[j]) && NotQueued(unprunedNodes, childrenNodes[j])
        invariant bestCost == old(bestCost) || (bestCost.Finite? && Below(bestCost.value, old(bestCost)))
      {
        overflow := ProcessChild(childrenNodes[k], ap, childrenNodes[k..]);
        if overflow {
          return;
        }
        assert childrenNodes[k..][1..] == childrenNodes[k + 1..];
      }
      overflow := false;
    }

    /** One round of the main loop: pops the subproblem with the least key, branches it and processes
      * its children. Reports a possible overflow. */
    method ExpandNext(ap: Matrix -> APResult) returns (overflow: bool)
      requires Oracle(ap) && Valid() && Accounted() && unprunedNodes != []
      requires Complete(unprunedNodes, bestCost, [])
      modifies this
      ensures !overflow ==> Valid() && Accounted() && Complete(unprunedNodes, bestCost, [])
      ensures bestCost == old(bestCost) || (bestCost.Finite? && Below(bestCost.value, old(bestCost)))
    {
      var childrenNodes := PopAndBranch();
      overflow := ProcessChildren(childrenNodes, ap);
    }

    /** The root phase of solve: explores the root, bounds it by cost reduction and its relaxation, and
      * either finishes (overflow, no tour, or a relaxed solution that is already a tour) or queues it. */
    method ProcessRoot(ap: Matrix -> APResult) returns (done: bool, result: SolveResult)
      requires Oracle(ap) && Initial()
      modifies this`unprunedNodes, this`bestCost, this`bestSolution, this`exploredSubproblems,
        this`prunedSubproblems, this`optimalSubproblemSolutionsFound, rootNode
      ensures done <==> !result.OutOfFuel?
      ensures result.Solved? ==>
        && IsTour(rootCostMatrix, bestSolution) && result.tour == bestSolution
        && bestCost == Finite(result.cost) && result.cost == TotalCost(rootCostMatrix, bestSolution)
        && forall t :: IsTour(rootCostMatrix, t) ==> result.cost <= TotalCost(rootCostMatrix, t)
      ensures result.NoTour? ==> forall t :: !IsTour(rootCostMatrix, t)
      ensures result.Solved? || result.NoTour? ==> Valid() && Accounted()
      ensures !done ==> Valid() && Accounted() && Complete(unprunedNodes, bestCost, []) && |rootCostMatrix| > 0
      ensures var s := RootStepIntended(ap(Derived(rootCostMatrix, [], [])));
        && (result.Overflow? <==> s.RaisesOverflow?)
        && (result.NoTour? <==> s.ReportsNoTour?)
        && (!done <==> s.QueuesRoot?)
        && (s.ReportsTour? ==> result == Solved(s.cost, s.tour))
    {
      exploredSubproblems := exploredSubproblems + 1;
      rootNode.GetCostReductionLowerBound();
      rootNode.SolveMAP(ap);
      if rootNode.mapSolveStatus == SolveStatus.PossibleOverflow {
        return true, Overflow;
      }
      if rootNode.mapSolveStatus == SolveStatus.Infeasible {
        prunedSubproblems := prunedSubproblems + 1;
        forall t | IsTour(rootCostMatrix, t)
          ensures false
        {
          RootSpace(t);
        }
        return true, NoTour;
      }
      AssignmentIsPermutation(rootNode.subproblemCostMatrix, rootNode.mapSolution);
      var feasible := rootNode.MapSolCglspFeasible();
      if feasible {
        result := AcceptRoot();
        return true, result;
      }
      QueueRoot();
      return false, OutOfFuel;
    }

    /** The root's relaxed solution is a tour: it is the incumbent and optimal. */
    method AcceptRoot() returns (result: SolveResult)
      requires RootExplored() && rootNode.mapSolveStatus == FoundOptimal
      requires APContract(rootNode.subproblemCostMatrix, Optimal(rootNode.mapSolution, rootNode.mapMinCost))
      requires Hamiltonian(rootNode.mapSolution)
      modifies this`bestCost, this`bestSolution, this`optimalSubproblemSolutionsFound
      ensures result == Solved(rootNode.mapMinCost, rootNode.mapSolution) && bestSolution == rootNode.mapSolution
      ensures IsTour(rootCostMatrix, bestSolution)
      ensures bestCost == Finite(result.cost) && result.cost == TotalCost(rootCostMatrix, bestSolution)
      ensures forall t :: IsTour(rootCostMatrix, t) ==> result.cost <= TotalCost(rootCostMatrix, t)
      ensures Valid() && Accounted()
    {
      optimalSubproblemSolutionsFound := optimalSubproblemSolutionsFound + 1;
      RootSpace(rootNode.mapSolution);
      bestCost := Finite(rootNode.mapMinCost);
      bestSolution := rootNode.mapSolution;
      forall t | IsTour(rootCostMatrix, t)
        ensures rootNode.mapMinCost <= TotalCost(rootCostMatrix, t)
      {
        RootSpace(t);
      }
      return Solved(rootNode.mapMinCost, rootNode.mapSolution);
    }

    /** The root's relaxed solution has subtours: the root is queued under its bound. */
    method QueueRoot()
      requires RootExplored() && Expandable(rootNode)
      modifies this`unprunedNodes
      ensures unprunedNodes == [Entry(rootNode.lowerBound, rootNode)]
      ensures Valid() && Accounted() && Complete(unprunedNodes, bestCost, []) && |rootCostMatrix| > 0
    {
      unprunedNodes := [Entry(rootNode.lowerBound, rootNode)];
      forall t | IsTour(rootCostMatrix, t) && Below(TotalCost(rootCostMatrix, t), bestCost)
        ensures Covered(unprunedNodes, [], t)
      {
        RootSpace(t);
        assert unprunedNodes[0] in unprunedNodes;
      }
    }

    /** The return of solve once the frontier is empty: the incumbent, as the first subtour of its
      * solution (its edges in visiting order from the solution's first edge), or no tour when no
      * incumbent was ever found. */
    method Finish() returns (result: SolveResult)
      requires Valid() && Complete([], bestCost, []) && |rootCostMatrix| > 0
      ensures result.Solved? || result.NoTour?
      ensures result.Solved? ==>
        && IsTour(rootCostMatrix, bestSolution) && multiset(result.tour) == multiset(bestSolution)
        && bestCost == Finite(result.cost) && result.cost == TotalCost(rootCostMatrix, bestSolution)
        && forall t :: IsTour(rootCostMatrix, t) ==> result.cost <= TotalCost(rootCostMatrix, t)
      ensures result.Solved? ==>
        bestSolution != [] && result.tour != [] && IsCycle(result.tour) && result.tour[0] == bestSolution[0]
      ensures result.NoTour? ==> forall t :: !IsTour(rootCostMatrix, t)
    {
      forall t | IsTour(rootCostMatrix, t)
        ensures !Below(TotalCost(rootCostMatrix, t), bestCost)
      {
        assert !Covered([], [], t);
      }
      if bestSolution == [] {
        return NoTour;
      }
      AssignmentIsPermutation(rootCostMatrix, bestSolution);
      var subtours := FindSubtours(bestSolution);
      TourIsOneSubtour(rootCostMatrix, bestSolution, subtours);
      return Solved(bestCost.value, subtours[0]);
    }

    /** solve: explores the branch-and-bound tree from the root. A solved instance comes with a tour of
      * least cost; no tour is reported only when the matrix has none. */
    method Solve(ap: Matrix -> APResult, fuel: nat) returns (result: SolveResult)
      requires Oracle(ap) && Initial()
      modifies this, rootNode
      ensures result.Solved? ==>
        && IsTour(rootCostMatrix, bestSolution) && multiset(result.tour) == multiset(bestSolution)
        && bestCost == Finite(result.cost) && result.cost == TotalCost(rootCostMatrix, bestSolution)
        && forall t :: IsTour(rootCostMatrix, t) ==> result.cost <= TotalCost(rootCostMatrix, t)
      ensures result.Solved? ==>
        || result.tour == bestSolution
        || (bestSolution != [] && result.tour != [] && IsCycle(result.tour) && result.tour[0] == bestSolution[0])
      ensures result.NoTour? ==> forall t :: !IsTour(rootCostMatrix, t)
      ensures result.Solved? || result.NoTour? || result.OutOfFuel? ==> Valid() && Accounted()
      ensures result.OutOfFuel? ==> Complete(unprunedNodes, bestCost, [])
    {
      var done;
      done, result := ProcessRoot(ap);
      if done {
        return;
      }
      var fuelLeft := fuel;
      while unprunedNodes != []
        invariant Valid() && Accounted() && Complete(unprunedNodes, bestCost, []) && |rootCostMatrix| > 0
        decreases fuelLeft
      {
        if fuelLeft == 0 {
          return OutOfFuel;
        }
        fuelLeft := fuelLeft - 1;
        var overflow := ExpandNext(ap);
        if overflow {
          return Overflow;
        }
      }
      result := Finish();
    }
  }
}
