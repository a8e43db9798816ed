/** The brute-force Assignment Problem solver: a breadth-first enumeration of every fixed-point-free
  * column choice, followed by a scan for the cheapest one. */
module BruteForce {
  import opened Wrappers
  import opened CostMatrix
  import opened Assignment
  import opened InstanceParser

  /** A partial solution on the worklist: the edges of rows 0..curRow and the columns they use. */
  datatype Partial = Partial(path: seq<Edge>, usedCols: set<nat>, curRow: nat)

  /** Edges of rows 0..|p|-1 in order, with distinct columns below n and no job following itself.
    * Rows after 0 avoid forbidden entries; row 0 draws its column without looking at the matrix. */
  ghost predicate PartialOk(m: Matrix, p: seq<Edge>)
  {
    && Square(m) && 0 < |p| <= |m|
    && (forall k :: 0 <= k < |p| ==> p[k].row == k && p[k].col < |m| && p[k].col != k)
    && (forall k :: 1 <= k < |p| ==> m[k][p[k].col] != Forbidden)
    && (forall i, j :: 0 <= i < j < |p| ==> p[i].col != p[j].col)
  }

  /** A complete solution the enumeration is meant to produce. */
  ghost predicate Candidate(m: Matrix, s: seq<Edge>)
  {
    PartialOk(m, s) && |s| == |m|
  }

  /** A queued partial solution: incomplete, with its used columns and its last row recorded. */
  ghost predicate ItemOk(m: Matrix, it: Partial)
  {
    PartialOk(m, it.path) && |it.path| < |m| && it.usedCols == UsedCols(it.path) && it.curRow == |it.path| - 1
  }

  /** Breadth-first order: path lengths never decrease along the worklist and differ by at most one. */
  ghost predicate Layered(w: seq<Partial>)
  {
    forall i, j :: 0 <= i < j < |w| ==> |w[i].path| <= |w[j].path| <= |w[i].path| + 1
  }

  /** Candidate, named apart so that the coverage invariants below are only instantiated for the
    * solutions a proof asks about. */
  ghost predicate Sought(m: Matrix, s: seq<Edge>)
  {
    Candidate(m, s)
  }

  /** Every candidate has been found or extends a queued partial solution. */
  ghost predicate Reached(m: Matrix, work: seq<Partial>, found: seq<seq<Edge>>)
  {
    forall s: seq<Edge> {:trigger Sought(m, s)} :: Sought(m, s) ==> s in found || exists i :: 0 <= i < |work| && work[i].path <= s
  }

  /** While the extensions of p are being generated: every candidate has been found, extends a queued
    * partial solution, or extends p by a column still to be tried. */
  ghost predicate ReachedWhile(m: Matrix, work: seq<Partial>, found: seq<seq<Edge>>, p: seq<Edge>, pending: set<nat>)
  {
    forall s: seq<Edge> {:trigger Sought(m, s)} :: Sought(m, s) ==>
      || s in found
      || (exists i :: 0 <= i < |work| && work[i].path <= s)
      || (p <= s && |p| < |s| && s[|p|].col in pending)
  }

  /** The termination measure of the enumeration: the level of the head of the worklist, counted
    * down, and the number of queued partial solutions on that level. */
  function Level(w: seq<Partial>, n: nat): nat
  {
    if w == [] || |w[0].path| > n then 0 else n + 1 - |w[0].path|
  }

  function CountLen(w: seq<Partial>, len: nat): nat
  {
    if w == [] then 0 else (if |w[0].path| == len then 1 else 0) + CountLen(w[1..], len)
  }

  function Width(w: seq<Partial>): nat
  {
    if w == [] then 0 else CountLen(w, |w[0].path|)
  }

  lemma {:induction false} CountLenAppend(a: seq<Partial>, b: seq<Partial>, len: nat)
    ensures CountLen(a + b, len) == CountLen(a, len) + CountLen(b, len)
  {
    if a == [] {
      assert a + b == b;
    } else {
      assert (a + b)[1..] == a[1..] + b;
      CountLenAppend(a[1..], b, len);
    }
  }

  lemma {:induction false} CountLenNone(w: seq<Partial>, len: nat)
    requires forall i :: 0 <= i < |w| ==> |w[i].path| != len
    ensures CountLen(w, len) == 0
  {
    if w != [] {
      CountLenNone(w[1..], len);
    }
  }

  /** Popping the head and appending its extensions keeps the worklist layered and lowers the measure. */
  lemma {:induction false} BfsProgress(item: Partial, rest: seq<Partial>, kids: seq<Partial>, n: nat)
    requires |item.path| < n && Layered([item] + rest)
    requires forall i :: 0 <= i < |kids| ==> |kids[i].path| == |item.path| + 1
    ensures Layered(rest + kids)
    ensures || Level(rest + kids, n) < Level([item] + rest, n)
            || (Level(rest + kids, n) == Level([item] + rest, n) && Width(rest + kids) < Width([item] + rest))
  {
    var len := |item.path|;
    var w := [item] + rest;
    assert w[0] == item && w[1..] == rest;
    forall i | 0 <= i < |rest|
      ensures len <= |rest[i].path| <= len + 1
    {
      assert w[i + 1] == rest[i];
    }
    forall i, j | 0 <= i < j < |rest + kids|
      ensures |(rest + kids)[i].path| <= |(rest + kids)[j].path| <= |(rest + kids)[i].path| + 1
    {
      if j < |rest| {
        assert w[i + 1] == rest[i] && w[j + 1] == rest[j];
      }
    }
    if rest != [] && |rest[0].path| == len {
      CountLenAppend(rest, kids, len);
      CountLenNone(kids, len);
      assert (rest + kids)[0] == rest[0];
    }
  }

  /** The columns of a path, gathered edge by edge as the enumeration does. */
  function UsedCols(p: seq<Edge>): set<nat>
  {
    if p == [] then {} else UsedCols(p[..|p| - 1]) + {p[|p| - 1].col}
  }

  lemma {:induction false} UsedColsMembers(p: seq<Edge>, c: nat)
    ensures c in UsedCols(p) <==> exists k :: 0 <= k < |p| && p[k].col == c
  {
    if p != [] {
      var q := p[..|p| - 1];
      UsedColsMembers(q, c);
      if exists k :: 0 <= k < |q| && q[k].col == c {
        var k :| 0 <= k < |q| && q[k].col == c;
        assert p[k] == q[k];
      }
      if exists k :: 0 <= k < |p| && p[k].col == c {
        var k :| 0 <= k < |p| && p[k].col == c;
        if k < |q| {
          assert q[k] == p[k];
        }
      }
    }
  }

  /** Extending a partial solution by an unused, allowed, non-diagonal column of the next row. */
  lemma {:induction false} ExtendOk(m: Matrix, p: seq<Edge>, col: nat)
    requires PartialOk(m, p) && |p| < |m|
    requires col < |m| && col != |p| && m[|p|][col] != Forbidden && col !in UsedCols(p)
    ensures PartialOk(m, p + [Edge(|p|, col)])
    ensures UsedCols(p + [Edge(|p|, col)]) == UsedCols(p) + {col}
  {
    var q := p + [Edge(|p|, col)];
    assert q[..|q| - 1] == p;
    UsedColsMembers(p, col);
    forall i, j | 0 <= i < j < |q|
      ensures q[i].col != q[j].col
    {
      if j == |p| {
        assert q[i] == p[i];
      }
    }
  }

  /** The first row's columns are 1..n-1, each starting one partial solution. */
  function InitialPartials(n: nat): (w: seq<Partial>)
  {
    if n == 0 then [] else seq(n - 1, k requires 0 <= k < n - 1 => Partial([Edge(0, k + 1)], {k + 1}, 0))
  }

  lemma {:induction false} InitialOk(m: Matrix)
    requires Square(m)
    ensures forall i :: 0 <= i < |InitialPartials(|m|)| ==> ItemOk(m, InitialPartials(|m|)[i])
    ensures Layered(InitialPartials(|m|))
    ensures Reached(m, InitialPartials(|m|), [])
  {
    var w := InitialPartials(|m|);
    forall i | 0 <= i < |w|
      ensures ItemOk(m, w[i])
    {
      assert w[i].path == [Edge(0, i + 1)];
      assert w[i].path[..0] == [];
    }
    forall s: seq<Edge> | Sought(m, s)
      ensures exists i :: 0 <= i < |w| && w[i].path <= s
    {
      var c := s[0].col;
      assert w[c - 1].path == [s[0]];
    }
  }

  /** The columns tried for the row after p: allowed, not diagonal, not yet used. */
  ghost predicate NextCols(m: Matrix, p: seq<Edge>, cols: set<nat>)
    requires Square(m) && |p| < |m|
  {
    forall c: nat :: c in cols <==> c < |m| && m[|p|][c] != Forbidden && c != |p| && c !in UsedCols(p)
  }

  lemma {:induction false} ReachedStart(m: Matrix, item: Partial, rest: seq<Partial>, found: seq<seq<Edge>>, cols: set<nat>)
    requires Reached(m, [item] + rest, found) && ItemOk(m, item) && NextCols(m, item.path, cols)
    ensures ReachedWhile(m, rest, found, item.path, cols)
  {
    var p := item.path;
    var w := [item] + rest;
    forall s: seq<Edge> | Sought(m, s) && s !in found
      ensures || (exists i :: 0 <= i < |rest| && rest[i].path <= s)
              || (p <= s && |p| < |s| && s[|p|].col in cols)
    {
      var i :| 0 <= i < |w| && w[i].path <= s;
      if i > 0 {
        assert rest[i - 1] == w[i];
      } else {
        UsedColsMembers(p, s[|p|].col);
        forall k | 0 <= k < |p|
          ensures p[k].col != s[|p|].col
        {
          assert s[k] == p[k];
        }
      }
    }
  }

  lemma {:induction false} ReachedNext(m: Matrix, work: seq<Partial>, found: seq<seq<Edge>>, p: seq<Edge>, cols: set<nat>,
                                       col: nat, work': seq<Partial>, found': seq<seq<Edge>>)
    requires ReachedWhile(m, work, found, p, cols) && Square(m) && |p| < |m|
    requires |p| + 1 == |m| ==> found' == found + [p + [Edge(|p|, col)]] && work' == work
    requires |p| + 1 < |m| ==>
      found' == found && |work'| == |work| + 1 && work'[..|work|] == work && work'[|work|].path == p + [Edge(|p|, col)]
    ensures ReachedWhile(m, work', found', p, cols - {col})
  {
    var q := p + [Edge(|p|, col)];
    forall s: seq<Edge> | Sought(m, s)
      ensures
        || s in found'
        || (exists i :: 0 <= i < |work'| && work'[i].path <= s)
        || (p <= s && |p| < |s| && s[|p|].col in cols - {col})
    {
      if exists i :: 0 <= i < |work| && work[i].path <= s {
        var i :| 0 <= i < |work| && work[i].path <= s;
        assert work'[i] == work[i];
      } else if p <= s && |p| < |s| && s[|p|].col == col {
        assert s[|p|] == Edge(|p|, col);
        assert q <= s by {
          assert forall k :: 0 <= k < |q| ==> q[k] == s[k];
        }
        if |p| + 1 == |m| {
          assert q == s;
          assert q in found';
        } else {
          assert work'[|work|].path == q;
        }
      } else if s in found {
        assert s in found';
      }
    }
  }

  lemma {:induction false} ReachedEnd(m: Matrix, work: seq<Partial>, found: seq<seq<Edge>>, p: seq<Edge>)
    requires ReachedWhile(m, work, found, p, {})
    ensures Reached(m, work, found)
  {
  }

  /** One column of the inner loop: the extended path is recorded when complete and queued otherwise. */
  method TryColumn(m: Matrix, currPath: seq<Edge>, usedCols: set<nat>, nextRow: nat, col: nat,
                   work: seq<Partial>, found: seq<seq<Edge>>, ghost pending: set<nat>)
    returns (partialSolutions: seq<Partial>, feasibleSolutions: seq<seq<Edge>>, ghost kid: seq<Partial>, ghost done: seq<seq<Edge>>)
    requires PartialOk(m, currPath) && |currPath| < |m| && usedCols == UsedCols(currPath) && nextRow == |currPath|
    requires col < |m| && col != nextRow && m[nextRow][col] != Forbidden && col !in usedCols
    requires ReachedWhile(m, work, found, currPath, pending)
    ensures ReachedWhile(m, partialSolutions, feasibleSolutions, currPath, pending - {col})
    ensures partialSolutions == work + kid && feasibleSolutions == found + done
    ensures |currPath| + 1 == |m| ==> kid == [] && done == [currPath + [Edge(nextRow, col)]]
    ensures |currPath| + 1 < |m| ==> done == [] && kid == [Partial(currPath + [Edge(nextRow, col)], usedCols + {col}, nextRow)]
    ensures forall i :: 0 <= i < |kid| ==> ItemOk(m, kid[i]) && |kid[i].path| == |currPath| + 1
    ensures forall k :: 0 <= k < |done| ==> Candidate(m, done[k])
  {
    partialSolutions, feasibleSolutions := work, found;
    ExtendOk(m, currPath, col);
    var updatedPath := currPath + [Edge(nextRow, col)];
    if |updatedPath| == |m| {
      feasibleSolutions := feasibleSolutions + [updatedPath];
      kid, done := [], [updatedPath];
    } else {
      var newUsedCols := usedCols + {col};
      var updatedPathObject := Partial(updatedPath, newUsedCols, nextRow);
      partialSolutions := partialSolutions + [updatedPathObject];
      kid, done := [updatedPathObject], [];
    }
    ReachedNext(m, work, found, currPath, pending, col, partialSolutions, feasibleSolutions);
  }

  /** The inner loop of generate_feasible_solutions: every column tried for the row after the popped
    * path extends it; a complete extension is recorded, an incomplete one is queued. */
  method ExtendPath(m: Matrix, item: Partial, nextRowFeasibleCols: set<nat>, work0: seq<Partial>, found0: seq<seq<Edge>>)
    returns (partialSolutions: seq<Partial>, feasibleSolutions: seq<seq<Edge>>, ghost kids: seq<Partial>, ghost newFound: seq<seq<Edge>>)
    requires ItemOk(m, item) && NextCols(m, item.path, nextRowFeasibleCols)
    requires ReachedWhile(m, work0, found0, item.path, nextRowFeasibleCols)
    ensures partialSolutions == work0 + kids && feasibleSolutions == found0 + newFound
    ensures forall i :: 0 <= i < |kids| ==> ItemOk(m, kids[i]) && |kids[i].path| == |item.path| + 1
    ensures forall k :: 0 <= k < |newFound| ==> Candidate(m, newFound[k])
    ensures ReachedWhile(m, partialSolutions, feasibleSolutions, item.path, {})
  {
    partialSolutions, feasibleSolutions, kids, newFound := work0, found0, [], [];
    var currPath := item.path;
    var nextRow := item.curRow + 1;
    var usedCols := item.usedCols;
    var cols := nextRowFeasibleCols;
    while cols != {}
      invariant cols <= nextRowFeasibleCols
      invariant partialSolutions == work0 + kids && feasibleSolutions == found0 + newFound
      invariant forall i :: 0 <= i < |kids| ==> ItemOk(m, kids[i]) && |kids[i].path| == |currPath| + 1
      invariant forall k :: 0 <= k < |newFound| ==> Candidate(m, newFound[k])
      invariant ReachedWhile(m, partialSolutions, feasibleSolutions, currPath, cols)
      decreases |cols|
    {
      var col :| col in cols;
      ghost var pending := cols;
      cols := cols - {col};
      ghost var kid, done;
      partialSolutions, feasibleSolutions, kid, done :=
        TryColumn(m, currPath, usedCols, nextRow, col, partialSolutions, feasibleSolutions, pending);
      kids, newFound := kids + kid, newFound + done;
    }
  }

  /** generate_feasible_solutions: exactly the candidates are produced. */
  method GenerateFeasibleSolutions(m: Matrix) returns (feasibleSolutions: seq<seq<Edge>>)
    requires Square(m)
    ensures forall s: seq<Edge> :: s in feasibleSolutions <==> Candidate(m, s)
  {
    var n := |m|;
    feasibleSolutions := [];
    var partialSolutions := InitialPartials(n);
    InitialOk(m);
    while partialSolutions != []
      invariant forall i :: 0 <= i < |partialSolutions| ==> ItemOk(m, partialSolutions[i])
      invariant Layered(partialSolutions)
      invariant forall k :: 0 <= k < |feasibleSolutions| ==> Candidate(m, feasibleSolutions[k])
      invariant Reached(m, partialSolutions, feasibleSolutions)
      decreases Level(partialSolutions, n), Width(partialSolutions)
    {
      var currPathObject := partialSolutions[0];
      ghost var w0 := partialSolutions;
      partialSolutions := partialSolutions[1..];
      assert w0 == [currPathObject] + partialSolutions;
      ghost var rest := partialSolutions;
      var nextRow := currPathObject.curRow + 1;
      assert ItemOk(m, currPathObject);
      var nextRowFeasibleCols := (set index: nat | index < n && m[nextRow][index] != Forbidden && index != nextRow)
        - currPathObject.usedCols;
      ReachedStart(m, currPathObject, rest, feasibleSolutions, nextRowFeasibleCols);
      ghost var found0, kids, newFound := feasibleSolutions, [], [];
      partialSolutions, feasibleSolutions, kids, newFound :=
        ExtendPath(m, currPathObject, nextRowFeasibleCols, partialSolutions, feasibleSolutions);
      ReachedEnd(m, partialSolutions, feasibleSolutions, currPathObject.path);
      BfsProgress(currPathObject, rest, kids, n);
    }
    forall s: seq<Edge> | Candidate(m, s)
      ensures s in feasibleSolutions
    {
      assert Sought(m, s);
    }
  }

  /** Row 0's entries off the diagonal are allowed, as in every augmented instance. */
  ghost predicate RowZeroOpen(m: Matrix)
    requires Square(m)
  {
    |m| > 0 ==> forall j :: 1 <= j < |m| ==> m[0][j] != Forbidden
  }

  /** Every job is forbidden to follow itself. */
  ghost predicate DiagonalForbidden(m: Matrix)
    requires Square(m)
  {
    forall i :: 0 <= i < |m| ==> m[i][i] == Forbidden
  }

  /** With row 0 open, a candidate is a perfect assignment none of whose jobs follows itself, and
    * every such assignment is a candidate. */
  lemma {:induction false} CandidateIsFixedPointFreeAssignment(m: Matrix, s: seq<Edge>)
    requires Square(m) && RowZeroOpen(m) && |m| > 0
    ensures Candidate(m, s) <==> IsAssignment(m, s) && forall k :: 0 <= k < |s| ==> s[k].col != k
  {
    if IsAssignment(m, s) && forall k :: 0 <= k < |s| ==> s[k].col != k {
      assert PartialOk(m, s);
    }
    if Candidate(m, s) {
      assert s[0].col != 0;
    }
  }

  /** The sum of a list of costs. */
  function Sum(xs: seq<nat>): nat
  {
    if xs == [] then 0 else xs[0] + Sum(xs[1..])
  }

  lemma {:induction false} SumOfEdgeCosts(m: Matrix, sol: seq<Edge>)
    requires Square(m) && EdgesWithin(sol, |m|)
    ensures Sum(seq(|sol|, k requires 0 <= k < |sol| => EdgeCost(m, sol[k]))) == TotalCost(m, sol)
  {
    var costs := seq(|sol|, k requires 0 <= k < |sol| => EdgeCost(m, sol[k]));
    if sol != [] {
      SumOfEdgeCosts(m, sol[1..]);
      assert costs[1..] == seq(|sol[1..]|, k requires 0 <= k < |sol[1..]| => EdgeCost(m, sol[1..][k]));
    }
  }

  /** feasible_sol_cost: the cost of each edge, in the solution's order, and their sum. */
  function FeasibleSolCost(m: Matrix, sol: seq<Edge>): (r: (nat, seq<nat>))
    requires Square(m) && EdgesWithin(sol, |m|) && Avoids(m, sol)
    ensures |r.1| == |sol| && forall k :: 0 <= k < |sol| ==> m[sol[k].row][sol[k].col] == Cost(r.1[k])
    ensures r.0 == TotalCost(m, sol)
  {
    var costs := seq(|sol|, k requires 0 <= k < |sol| => EdgeCost(m, sol[k]));
    SumOfEdgeCosts(m, sol);
    (Sum(costs), costs)
  }

  /** What the solver returns: the best solution, its per-edge costs and its total cost. */
  datatype APSolution = APSolution(solution: seq<Edge>, assignmentCosts: seq<nat>, minCost: nat)

  ghost predicate Priced(m: Matrix, sols: seq<seq<Edge>>)
  {
    Square(m) && forall i :: 0 <= i < |sols| ==> EdgesWithin(sols[i], |m|) && Avoids(m, sols[i])
  }

  /** sols[i] is no dearer than any listed solution and strictly cheaper than every earlier one. */
  ghost predicate FirstCheapest(m: Matrix, sols: seq<seq<Edge>>, i: nat)
    requires Priced(m, sols) && i < |sols|
  {
    forall j :: 0 <= j < |sols| ==>
      TotalCost(m, sols[i]) <= TotalCost(m, sols[j]) && (j < i ==> TotalCost(m, sols[i]) < TotalCost(m, sols[j]))
  }

  /** The minimum scan of brute_force_AP_solver: the first solution of least cost, or nothing when
    * there is no solution (where brute_force_AP_solver returns a name it never bound). */
  method MinCostSolution(m: Matrix, sols: seq<seq<Edge>>) returns (best: Option<APSolution>)
    requires Priced(m, sols)
    ensures best.None? <==> sols == []
    ensures best.Some? ==>
      exists i :: 0 <= i < |sols| && FirstCheapest(m, sols, i)
        && best.value == APSolution(sols[i], FeasibleSolCost(m, sols[i]).1, TotalCost(m, sols[i]))
  {
    best := None;
    ghost var bestIndex := 0;
    for i := 0 to |sols|
      invariant best.None? <==> i == 0
      invariant best.Some? ==>
        && bestIndex < i
        && best.value == APSolution(sols[bestIndex], FeasibleSolCost(m, sols[bestIndex]).1, TotalCost(m, sols[bestIndex]))
        && FirstCheapest(m, sols[..i], bestIndex)
    {
      var cost, assignmentCosts := FeasibleSolCost(m, sols[i]).0, FeasibleSolCost(m, sols[i]).1;
      if best.None? || cost < best.value.minCost {
        best := Some(APSolution(sols[i], assignmentCosts, cost));
        bestIndex := i;
      }
      assert sols[..i + 1] == sols[..i] + [sols[i]];
    }
    assert sols[..|sols|] == sols;
  }

  /** A cheapest candidate, with its per-edge costs and total. */
  ghost predicate BestCandidate(m: Matrix, a: APSolution)
  {
    && Candidate(m, a.solution)
    && |a.assignmentCosts| == |a.solution|
    && (forall k :: 0 <= k < |a.solution| ==> m[k][a.solution[k].col] == Cost(a.assignmentCosts[k]))
    && a.minCost == TotalCost(m, a.solution)
    && forall s: seq<Edge> :: Candidate(m, s) ==> a.minCost <= TotalCost(m, s)
  }

  lemma {:induction false} CandidatesPriced(m: Matrix, sols: seq<seq<Edge>>)
    requires Square(m) && RowZeroOpen(m)
    requires forall s: seq<Edge> :: s in sols ==> Candidate(m, s)
    ensures Priced(m, sols)
  {
    forall i | 0 <= i < |sols|
      ensures EdgesWithin(sols[i], |m|) && Avoids(m, sols[i])
    {
      assert sols[i] in sols;
      assert sols[i][0].col != 0;
    }
  }

  /** brute_force_AP_solver: a cheapest candidate, or nothing when there is none. */
  method BruteForceAPSolver(m: Matrix) returns (best: Option<APSolution>)
    requires Square(m) && RowZeroOpen(m)
    ensures best.None? <==> forall s: seq<Edge> :: !Candidate(m, s)
    ensures best.Some? ==> BestCandidate(m, best.value)
  {
    var feasibleSols := GenerateFeasibleSolutions(m);
    CandidatesPriced(m, feasibleSols);
    best := MinCostSolution(m, feasibleSols);
    if best.Some? {
      ghost var i :| 0 <= i < |feasibleSols| && FirstCheapest(m, feasibleSols, i)
        && best.value == APSolution(feasibleSols[i], FeasibleSolCost(m, feasibleSols[i]).1, TotalCost(m, feasibleSols[i]));
      assert feasibleSols[i] in feasibleSols;
      forall s: seq<Edge> | Candidate(m, s)
        ensures best.value.minCost <= TotalCost(m, s)
      {
        var j :| 0 <= j < |feasibleSols| && feasibleSols[j] == s;
      }
    } else {
      forall s: seq<Edge>
        ensures !Candidate(m, s)
      {
        assert s !in feasibleSols;
      }
    }
  }

  /** The solver-report view of the brute-force answer. */
  function AsAPResult(best: Option<APSolution>): APResult
  {
    match best
    case None => Infeasible
    case Some(a) => Optimal(a.solution, a.minCost)
  }

  /** When no job may follow itself and row 0 is open, the candidates are exactly the perfect assignments. */
  lemma {:induction false} CandidatesAreAssignments(m: Matrix)
    requires Square(m) && |m| > 0 && RowZeroOpen(m) && DiagonalForbidden(m)
    ensures forall s: seq<Edge> :: Candidate(m, s) <==> IsAssignment(m, s)
  {
    forall s: seq<Edge>
      ensures Candidate(m, s) <==> IsAssignment(m, s)
    {
      CandidateIsFixedPointFreeAssignment(m, s);
      if IsAssignment(m, s) {
        forall k | 0 <= k < |s|
          ensures s[k].col != k
        {
          assert m[k][s[k].col] != Forbidden;
        }
      }
    }
  }

  /** Under the same conditions the brute-force answer keeps the promise of the assignment solver it
    * is compared against. */
  lemma {:induction false} BruteForceKeepsAPContract(m: Matrix, best: Option<APSolution>)
    requires Square(m) && |m| > 0 && RowZeroOpen(m) && DiagonalForbidden(m)
    requires best.None? <==> forall s: seq<Edge> :: !Candidate(m, s)
    requires best.Some? ==> BestCandidate(m, best.value)
    ensures APContract(m, AsAPResult(best))
  {
    CandidatesAreAssignments(m);
  }

  /** On an augmented instance whose real jobs may not follow themselves, row 0 is open, no job may
    * follow itself, and the enumeration ranges over exactly the perfect assignments. */
  lemma {:induction false} AugmentedCandidatesAreAssignments(raw: seq<seq<int>>)
    requires RawSquare(raw) && RawEntriesOk(raw)
    requires forall i :: 0 <= i < |raw| ==> raw[i][i] == -1
    ensures RowZeroOpen(Augmented(raw)) && DiagonalForbidden(Augmented(raw))
    ensures forall s: seq<Edge> :: Candidate(Augmented(raw), s) <==> IsAssignment(Augmented(raw), s)
  {
    var m := Augmented(raw);
    forall i | 0 <= i < |m|
      ensures m[i][i] == Forbidden
    {
      if i > 0 {
        assert raw[i - 1][i - 1] == -1;
      }
    }
    CandidatesAreAssignments(m);
  }
}
