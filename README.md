# CGLSP branch and bound, modelled in Dafny

This project models the exact solver for the coil sequencing problem (CGLSP): an asymmetric
travelling-salesman search over jobs 0..n-1, where entry (i, j) of the cost matrix is the time
of a transition from job i to job j, or the forbidden marker `"NA"`. It models four parts and
proves properties about them:

- **The branch-and-bound tree** (`BnB`, `Frontier`, `Branching`, `Subtours`, `Tours`).
  - The tree keeps a frontier of (lower bound, node) pairs in priority order, the incumbent cost
    and solution, and four counters.
  - It pops the subproblem with the least key and branches it on the minimal subtour of its
    relaxed solution.
  - Each child is then pruned, made the new incumbent (which purges the frontier), or queued.
- **The subproblem** (`Subproblem`).
  - Derives the subproblem's matrix from the root matrix plus the included and excluded edges.
  - Raises its lower bound from the Assignment Problem (AP) relaxation.
  - Tests whether the relaxed solution is a single Hamiltonian cycle.
  - Builds the trivial cyclic tour.
- **The brute-force AP solver** (`BruteForce`).
  - A breadth-first worklist enumeration of the column choices.
  - A scan for the first cheapest choice.
- **The instance augmentation** (`InstanceParser`).
  - Adds a dummy job 0 with free transitions to and from every real job.
  - Maps -1 to forbidden.

Modelling choices:

- **The AP solver (OR-Tools)** is a function parameter `ap` with a contract (`Assignment.APContract`):
  - an optimal answer is a least-cost perfect assignment avoiding forbidden entries;
  - infeasible means that no such assignment exists;
  - a possible overflow promises nothing.
- **`Solve`** proves two things:
  - a solved instance comes with a tour of least cost over the root matrix;
  - "no tour" is reported only when no tour exists.

  The loop invariant behind this (`Complete`) says that every tour cheaper than the incumbent lies
  in the space of a queued subproblem or of a child still to be processed.
- **Forbidden entries** are `Cell.Forbidden`, and costs are `nat`.
- **The incumbent cost**, +infinity at first, is `Bound.Infinity`.
- **Creation timestamps** become a counter that increases with every new node.
- **Sets iterated in Python's unspecified order** are drawn with `:|`:
  - the columns of the brute-force inner loop;
  - the `list(set(...))` of the branching edges.

Where the specification and the code disagree, the model follows the code:

- **Included edges.** For an included edge (i, j) the code masks column j, not row i, and then
  restores the included entries (node.py:66-77). `Subproblem.DerivedAssignments` proves that this
  admits exactly the assignments that respect the constraints.
- **Infeasible root.** The code never checks for an infeasible root, where the specification
  reports one. This is under "Findings".

## Model

| member | source | states |
|---|---|---|
| Tours.EdgeDict | node.py:141-143 | the dictionary built edge by edge is the successor map of the edge list, where a later edge from the same job overwrites an earlier one |
| Tours.FullCycleIsHamiltonian | node.py:138-139 | a subtour through all n jobs of a row-ordered solution makes the walk from job 0 visit n distinct jobs |
| Tours.ProperCycleNotInTour | src/bnb_tree.py:297-300 | a tour cannot contain every edge of a subtour shorter than n, so a proper subtour always has an edge some tour avoids |
| Tours.SubtoursAreProper | src/bnb_tree.py:297-300 | when the relaxed solution is not Hamiltonian, every subtour of its split has fewer than n edges |
| Subtours.RemoveFirst | src/bnb_tree.py:349 | `list.remove` drops exactly one occurrence: the multiset loses x and the length drops by one |
| Subtours.TracingStep | src/bnb_tree.py:355-359 | following the successor to an unvisited job extends the traced chain, keeps the loop state, and shrinks the remaining edges |
| Subtours.TracingClose | src/bnb_tree.py:350-354 | reaching a visited job closes the chain into a cycle through its start, and the edges removed are exactly that cycle |
| Subtours.SplittingStep | src/bnb_tree.py:352-353 | appending a closed subtour keeps the outer loop's invariant (the subtours plus the remaining edges are the input) and shrinks the remaining edges |
| Subtours.SubtoursDisjoint | src/bnb_tree.py:319-361 | no edge of the input lies in two different subtours |
| Subtours.SubtoursCover | src/bnb_tree.py:319-361 | every edge of the input lies in some subtour |
| Subtours.TourIsOneSubtour | src/bnb_tree.py:235 | the first subtour of a tour's split holds all of the tour's edges |
| Subproblem.EdgeIndicesRoundTrip | node.py:198-210 | the row and column lists have the input's length, and zipping them gives back the input edge by edge |
| Subproblem.CyclicTourHamiltonian | node.py:185-188 | the sequence 0→1→…→n-1→0 is row-ordered and its walk from job 0 never repeats a job |
| Subproblem.CyclicTourIsTour | node.py:185-190 | where it avoids forbidden entries, the cyclic sequence is a tour of the matrix |
| Subproblem.DerivedNeverChangesCost | node.py:52-89 | a derived entry is the root entry or forbidden; an excluded edge's entry is forbidden; an entry that is not excluded, not included and not in an included column is the root entry |
| Subproblem.DerivedCost | node.py:52-89 | edges avoiding the derived matrix's forbidden entries cost the same as at the root |
| Subproblem.DerivedAssignments | node.py:40-51 | the assignments of the derived matrix are exactly the root assignments that use every included edge and no excluded one |
| Subproblem.ColumnMask | node.py:69-70 | the boolean mask has length n and marks exactly the columns of the included edges |
| Subproblem.MaskColumns | node.py:71 | every entry of a masked column becomes forbidden; every other entry is unchanged |
| Subproblem.RestoreEntries | node.py:74-77 | each included edge's entry gets its root cost back; every other entry is unchanged |
| Subproblem.ForbidEntries | node.py:81-89 | each excluded edge's entry becomes forbidden; every other entry is unchanged |
| Subproblem.CreateSubproblemCostMatrix | node.py:37-91 | the in-place mask, restore and forbid steps yield the derived matrix: excluded wins over included, included entries keep the root cost, other entries of included columns are forbidden, the rest is the root |
| Subproblem.Node.constructor | node.py:8-26 | stores the inputs, derives the subproblem matrix and records the creation counter |
| Subproblem.Node.GetCostReductionLowerBound | node.py:166-178 | the bound becomes max(-1, old); it never decreases and stays a valid bound; the relaxation fields are unchanged |
| Subproblem.Node.SolveMAP | node.py:93-129 | on an optimal result it stores solution and cost and sets bound := max(old, cost); on infeasible or overflow it stores the empty solution with cost -1 and keeps the bound; the bound remains no dearer than every tour in the node's space |
| Subproblem.Node.MapSolCglspFeasible | node.py:131-164 | the walk from job 0 for \|solution\| steps returns true exactly when it never meets a job twice; true on the empty solution |
| Subproblem.Node.GetFeasibleSol | node.py:180-196 | the heuristic solution is the cyclic sequence of the first n jobs; numpy's sum of its entries is an integer exactly when none is "NA", the concatenation of n copies of "NA" exactly when n > 0 and all are, and a type error otherwise |
| Subproblem.FeasibleSolIsTour | node.py:185-190 | when the sum is an integer, over the whole matrix the heuristic solution is a tour and the sum is its total cost |
| Subproblem.RelaxationBoundsSpace | node.py:123-127 | an optimal relaxation cost is no dearer than any tour that respects the node's edges |
| Frontier.KeyOrderTotal | node.py:28-35 | (bound, node) keys are totally ordered; nodes of equal bound compare by creation time only |
| Frontier.Put | src/bnb_tree.py:217-218 | put adds exactly the new pair to the queue's multiset |
| Frontier.PutSorted | src/bnb_tree.py:217-218 | put keeps the queue in key order |
| Frontier.HeadIsMinimal | src/bnb_tree.py:104-106 | the popped head has a key no larger than any queued pair |
| Frontier.PrefixBelow | src/bnb_tree.py:378-386 | the kept pairs are a prefix of the queue, all priced below the incumbent, stopping at the first pair that is not |
| Frontier.PrefixBelowDropsOnlyHigh | src/bnb_tree.py:371-377 | in a sorted queue every dropped pair has priority at least the incumbent, and every pair below it is kept |
| Branching.NonIncludedCard | src/bnb_tree.py:297-300 | a subtour never has more free (non-included) edges than edges |
| Branching.BranchCoverage | src/bnb_tree.py:250-263 | every tour of the parent's space lies in the space of some child |
| Branching.ChildWithinParent | src/bnb_tree.py:260-263 | a child's space lies inside its parent's |
| Branching.ChildrenDisjoint | src/bnb_tree.py:260-263 | no tour lies in the spaces of two different children |
| Branching.ChildConstraints | src/bnb_tree.py:260-263 | a child's included edges enter distinct columns, and its included and excluded edges are disjoint when the parent's are |
| BnB.BnBTree.constructor | src/bnb_tree.py:8-26 | an unsolved root node over the whole matrix with bound 0, an empty frontier, incumbent +infinity with the empty solution, zero counters |
| BnB.BnBTree.FindSubtours | src/bnb_tree.py:319-361 | on a permutation: the subtours together have exactly the input's edges (a partition); each is a closed cycle of input edges; the first starts with the first input edge; each opens at its least row and the subtours come in increasing order of their opening rows, since each one starts at the first edge left |
| Subtours.StartsStep | src/bnb_tree.py:337-353 | closing a subtour at the first edge left keeps the subtours in order of their opening rows, each opening at its least row, below every edge still left |
| Subtours.RemoveFirstIncreasing | src/bnb_tree.py:349 | `list.remove` keeps the order of the edges it leaves, so the first edge left has the least row left |
| BnB.BnBTree.SetToSeq | src/bnb_tree.py:314-315 | `list(set(...))`: a list of distinct elements holding exactly the set |
| BnB.BnBTree.FewestFreeEdges | src/bnb_tree.py:301-317 | the free edges of the first subtour whose count is strictly smallest and below instance_size; None exactly when no count is below instance_size |
| BnB.BnBTree.MinimalSubtourEdges | src/bnb_tree.py:287-317 | the split of the relaxed solution as `FindSubtours` states it (a partition into cycles, in order of their opening rows) and, on that split, the choice `FewestFreeEdges` states: the free edges of the first subtour with strictly fewest of them |
| BnB.BnBTree.BranchingEdges | src/bnb_tree.py:243-245 | for an expandable node: the ordered split of its relaxed solution, the first subtour of that split with strictly fewest free edges, which is proper, and that subtour's free edges listed once each |
| BnB.BnBTree.NewChild | src/bnb_tree.py:260-272 | child i includes E[0:i] ++ parent.included, excludes [E[i]] ++ parent.excluded and inherits the parent's bound, which stays valid |
| BnB.BnBTree.MakeChildren | src/bnb_tree.py:248-275 | exactly \|E\| fresh, distinct children, child i as above, created at consecutive counter values |
| BnB.BnBTree.Branch | src/bnb_tree.py:237-285 | branches on the subtour chosen as in `BranchingEdges` (the first in the ordered split with strictly fewest free edges); the children in reverse order (most inclusions first), each ready for processing, whose spaces together cover the parent's |
| BnB.BnBTree.ReversedChildren | src/bnb_tree.py:248-285 | for the free edges of a proper subtour: \|E\| fresh, distinct children, child j being the one made at step \|E\|-1-j, whose spaces together cover the parent's |
| BnB.BnBTree.ReversedCover | src/bnb_tree.py:276-285 | reversing the children loses no tour: every tour of the parent's space lies in some child's space |
| BnB.BnBTree.PruneQueue | src/bnb_tree.py:363-388 | the new frontier is the longest prefix priced below the incumbent; the pruned counter grows by the number of pairs dropped |
| BnB.BnBTree.KeptEntries | src/bnb_tree.py:378-386 | pruning against a lower incumbent keeps every queued pair whose space holds a tour that beats it |
| BnB.BnBTree.BoundPrunes | src/bnb_tree.py:147-149 | a node whose bound is not below the incumbent holds no tour that beats it |
| BnB.BnBTree.PruneChild | src/bnb_tree.py:147-149 | pruning counts one more pruned subproblem and loses no tour that beats the incumbent |
| BnB.BnBTree.UpdateIncumbent | src/bnb_tree.py:204-212 | the relaxed tour becomes the incumbent at its cost, strictly below the old one; one more update is counted and the frontier is pruned against it |
| BnB.BnBTree.QueueChild | src/bnb_tree.py:214-218 | the child is put under its bound; the frontier stays sorted and keeps only expandable nodes below the incumbent |
| BnB.BnBTree.ExploreRelaxation | src/bnb_tree.py:168-218 | infeasible or a bound at least the incumbent: pruned; overflow: reported; a relaxed tour: new incumbent; otherwise queued; the search invariant and the counter balance hold |
| BnB.BnBTree.SettleChild | src/bnb_tree.py:203-218 | a child below the incumbent becomes the incumbent when its relaxed solution is a tour, and is queued otherwise |
| BnB.BnBTree.ProcessChild | src/bnb_tree.py:133-218 | one more explored subproblem; the incumbent never rises; no tour that beats the incumbent is lost |
| BnB.BnBTree.PopAndBranch | src/bnb_tree.py:104-130 | pops the head, counts one more branch, and the children cover the popped node's space |
| BnB.BnBTree.PopHead | src/bnb_tree.py:104-107 | the popped node is the head of the frontier, the rest stays queued, one more branch is counted, and the popped node's space still covers the tours it held |
| BnB.BnBTree.BranchPopped | src/bnb_tree.py:129-130 | the tours below the incumbent that were pending in the popped node's space are pending in its children's |
| BnB.BnBTree.ProcessChildren | src/bnb_tree.py:132-218 | after all children the search invariant and the coverage of cheaper tours by the frontier hold again |
| BnB.BnBTree.ExpandNext | src/bnb_tree.py:94-218 | one round of the main loop keeps the invariant; the incumbent only decreases |
| BnB.BnBTree.ProcessRoot | src/bnb_tree.py:28-90 | the corrected root phase: overflow raises, an infeasible root means no tour, a Hamiltonian relaxation is the optimal answer, otherwise the root is queued |
| BnB.BnBTree.AcceptRoot | src/bnb_tree.py:77-82 | the relaxed root tour is returned at the relaxation cost; it is a tour, and no tour is cheaper |
| BnB.BnBTree.QueueRoot | src/bnb_tree.py:88-90 | the frontier is exactly the root under its bound, and it covers every tour |
| BnB.BnBTree.Finish | src/bnb_tree.py:235 | with the frontier empty: the incumbent is returned as the first subtour of its solution, a least-cost tour: its edges in visiting order, a cycle opening at the solution's first edge; with no incumbent, no tour exists |
| BnB.BnBTree.Solve | src/bnb_tree.py:28-235 | a solved instance returns a tour of least cost over the root matrix, either the root's relaxed solution itself or the incumbent in visiting order from its first edge; no tour is reported only when none exists; the counters balance |
| BnB.RootStepAsWrittenNeverAnswers | src/bnb_tree.py:53-90 | as written, the root phase never answers: it equals the intended phase exactly on overflow or subtours, and raises whenever the intended phase answers |
| BnB.TwoJobRootRaises | src/bnb_tree.py:77-80 | for two jobs following each other, the relaxation is already the tour, yet the written code raises on `MAP_best_cost` |
| BnB.RootStepIntendedSound | src/bnb_tree.py:53-90 | the intended root phase reports no tour only when none exists, and reports an optimal tour at its cost |
| BnB.NoIncumbentRaises | src/bnb_tree.py:235 | a split into cycles has no first subtour exactly when the solution is empty, as it is without an incumbent |
| BnB.PairedJobsHaveNoTour | src/bnb_tree.py:235 | a 4-job matrix in which jobs pair off has an assignment but no tour, so its search ends with no incumbent |
| BruteForce.UsedColsMembers | src/MAP_other/MAP_brute_force_solver.py:89 | the used columns threaded through the worklist are exactly the columns of the path |
| BruteForce.ExtendOk | src/MAP_other/MAP_brute_force_solver.py:81-84 | appending an allowed, unused, non-diagonal column of the next row keeps the path well formed |
| BruteForce.InitialOk | src/MAP_other/MAP_brute_force_solver.py:72 | the initial worklist (row 0 to each of columns 1..n-1) is well formed and breadth-first ordered, and every candidate extends one of its paths |
| BruteForce.BfsProgress | src/MAP_other/MAP_brute_force_solver.py:73-92 | popping the head and appending its extensions keeps the worklist breadth-first and lowers the termination measure |
| BruteForce.TryColumn | src/MAP_other/MAP_brute_force_solver.py:83-92 | a complete extension is recorded, an incomplete one queued with its used columns, and no candidate is lost |
| BruteForce.ExtendPath | src/MAP_other/MAP_brute_force_solver.py:81-92 | after every next-row column is tried, each candidate extending the popped path is found or queued |
| BruteForce.GenerateFeasibleSolutions | src/MAP_other/MAP_brute_force_solver.py:62-96 | the result holds exactly the candidates: n edges in row order, distinct columns, no job following itself, and no forbidden entry in rows 1..n-1 |
| BruteForce.CandidateIsFixedPointFreeAssignment | src/MAP_other/MAP_brute_force_solver.py:72-86 | with row 0 open, the candidates are exactly the perfect assignments without fixed points |
| BruteForce.SumOfEdgeCosts | src/MAP_other/MAP_brute_force_solver.py:107-109 | the sum of the per-edge costs is the total cost |
| BruteForce.FeasibleSolCost | src/MAP_other/MAP_brute_force_solver.py:99-111 | per-edge costs aligned with the solution, and their sum as the total |
| BruteForce.MinCostSolution | src/MAP_other/MAP_brute_force_solver.py:20-33 | None exactly on an empty list; otherwise the first solution of least cost with its per-edge costs and total |
| BruteForce.CandidatesPriced | src/MAP_other/MAP_brute_force_solver.py:28 | with row 0 open, every candidate can be priced (no forbidden entry) |
| BruteForce.BruteForceAPSolver | src/MAP_other/MAP_brute_force_solver.py:6-58 | None exactly when there is no candidate; otherwise a candidate no dearer than any other |
| BruteForce.CandidatesAreAssignments | src/MAP_other/MAP_brute_force_solver.py:62-96 | with a forbidden diagonal and row 0 open, the candidates are exactly the perfect assignments |
| BruteForce.BruteForceKeepsAPContract | src/MAP_other/compare_MAP_solvers.py:40-51 | under those conditions the brute-force answer keeps the promise of the AP solver it is compared against |
| BruteForce.AugmentedCandidatesAreAssignments | src/instance_parser.py:15-25 | on an augmented instance whose real jobs may not follow themselves, the enumeration ranges over exactly its perfect assignments |
| InstanceParser.Augmented | src/instance_parser.py:13-25 | (n+1)×(n+1); (0,0) forbidden; the rest of row and column 0 costs 0; interior (i+1, j+1) is raw(i, j) with -1 forbidden; nothing else forbidden |
| InstanceParser.GetCglspInstanceCostMatrix | src/instance_parser.py:4-27 | the zero array, (0,0) := -1, the copied interior and the in-place -1 → forbidden pass produce a fresh array whose contents are the augmented matrix |

## Left out

- The OR-Tools wrapper (MAP_solver.py) is a foreign library. It is the oracle parameter `ap`,
  described by `Assignment.APContract` and required to hold on every square matrix.
  - Its reports of per-edge costs are not modelled, since the search never reads them.
- Not modelled (I/O and plumbing):
  - command-line handling, timing, CSV logging and progress printing (CGLSP.py, src/CGLSP.py, src/bnb_tree.py:113-127 and 221-233);
  - the random instance generator;
  - the br17 loader;
  - the comparison script, which serves only as the reason for `BruteForce.BruteForceKeepsAPContract`.
- `np.loadtxt` in src/instance_parser.py: the raw matrix is an input sequence. The parser
  requires a square matrix with entries ≥ -1, since a negative cost is an invariant violation
  of the instance format.
- `time.time()` creation stamps become a counter that increases with every new node, so equal
  stamps never occur.
- The disabled heuristic seeding and the two `best_cost` tests that depend on it
  (src/bnb_tree.py:35-49 and 66-68) are left out. With the incumbent at +infinity they can never
  fire: the first returns on `best_cost == -1` and the other two compare a finite bound with
  +infinity.
  - The heuristic itself is modelled as `Subproblem.Node.GetFeasibleSol`.
- BnB.BnBTree.Solve: the main loop takes a fuel bound and returns `OutOfFuel` when it runs out.
  - The loop of `solve` terminates only because the space of constraint sets is finite.
  - On `OutOfFuel` the contract still states the invariant and that no tour cheaper than the
    incumbent has been lost.
- BnB.BnBTree.Solve: a possible overflow at a child is returned as `Overflow` instead of raising
  `PossibleOverflowException`. The search state is then left as it is.
- BnB.BnBTree.ProcessRoot: it models the corrected root phase (see "Findings"); the root phase
  as written is modelled by `BnB.RootStepAsWritten`.
- BnB.BnBTree.Finish: with no incumbent it returns `NoTour` instead of raising on the empty
  list (see "Findings").
- BnB.BnBTree.FewestFreeEdges: Python does not define the order of `list(set(...))`. The
  model takes any order without repetitions.
- BruteForce.FeasibleSolCost and BruteForce.BruteForceAPSolver require the priced entries to
  be finite (row 0 open off the diagonal).
  - `brute_force_AP_solver` would add the string "NA" to an integer and fail.
  - Every augmented instance meets this requirement.
- BruteForce.BruteForceAPSolver: with no candidate `brute_force_AP_solver` returns names it never bound,
  which raises a NameError. The model returns None.
- The console output of the brute-force solver is left out.
- `brute_force_AP_solver` converts its numpy matrix to a list; the model uses the value throughout.
- The numpy copy of the root matrix (node.py:52): matrices are values, so the root matrix can
  never be changed by a subproblem.
  - For the same reason `find_subtours` works on a copy and cannot modify its argument.

## Findings

| source | as written | input that shows it | evidently intended | confidence | as-written member | corrected member |
|---|---|---|---|---|---|---|
| src/bnb_tree.py:53-90 | the root phase never checks for an infeasible relaxation, so the walk test runs on the empty solution and passes vacuously; the branch that accepts a root tour reads `root_node.MAP_best_cost`, which Node never sets (it sets `MAP_min_cost`), and raises AttributeError | two jobs that can only follow each other: the root relaxation is the tour [(0,1),(1,0)] at cost 0 | an infeasible root reports that no tour exists; a Hamiltonian root relaxation is returned as the optimum at `MAP_min_cost` | not executed | BnB.RootStepAsWrittenNeverAnswers, BnB.TwoJobRootRaises | BnB.RootStepIntendedSound, BnB.BnBTree.ProcessRoot |
| src/bnb_tree.py:235 | when no incumbent was ever found, `best_solution` is empty, `find_subtours([])` is empty, and indexing it raises IndexError | four jobs pairing off (0↔1, 2↔3): the relaxation is the assignment [(0,1),(1,0),(2,3),(3,2)], no tour exists, every child is eventually pruned | report that the instance has no tour | not executed | BnB.NoIncumbentRaises, BnB.PairedJobsHaveNoTour | BnB.BnBTree.Finish |
