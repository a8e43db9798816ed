/** Successor walks, cycles and tours: when an assignment is one Hamiltonian cycle. */
module Tours {
  import opened CostMatrix

  /** The successor dictionary of an edge list (a later edge from the same job overwrites an earlier one). */
  function SuccessorMap(es: seq<Edge>): map<nat, nat>
  {
    if es == [] then map[] else SuccessorMap(es[..|es| - 1])[es[|es| - 1].row := es[|es| - 1].col]
  }

  /** The job reached after k successor steps from v (a job without successor stays put). */
  function Walk(d: map<nat, nat>, v: nat, k: nat): nat
  {
    if k == 0 then v else var u := Walk(d, v, k - 1); if u in d then d[u] else u
  }

  /** Following successors from job 0 for |es| steps never reaches the same job twice. */
  predicate Hamiltonian(es: seq<Edge>)
  {
    forall a, b :: 1 <= a < b <= |es| ==> Walk(SuccessorMap(es), 0, a) != Walk(SuccessorMap(es), 0, b)
  }

  /** A feasible sequencing: a perfect assignment that is one cycle through every job. */
  predicate IsTour(m: Matrix, t: seq<Edge>)
  {
    IsAssignment(m, t) && Hamiltonian(t)
  }

  /** Each edge starts where the previous one ends. */
  predicate IsChain(c: seq<Edge>)
  {
    forall k :: 0 <= k < |c| - 1 ==> c[k].col == c[k + 1].row
  }

  /** A closed chain through distinct jobs: a subtour. */
  predicate IsCycle(c: seq<Edge>)
  {
    && |c| > 0
    && IsChain(c)
    && c[|c| - 1].col == c[0].row
    && forall i, j :: 0 <= i < j < |c| ==> c[i].row != c[j].row
  }

  function Flatten(ss: seq<seq<Edge>>): seq<Edge>
  {
    if ss == [] then [] else ss[0] + Flatten(ss[1..])
  }

  predicate RowOrdered(es: seq<Edge>)
  {
    forall i :: 0 <= i < |es| ==> es[i].row == i
  }

  lemma {:induction false} RowOrderedSuccessor(es: seq<Edge>)
    requires RowOrdered(es)
    ensures forall v: nat :: v in SuccessorMap(es) <==> v < |es|
    ensures forall i :: 0 <= i < |es| ==> SuccessorMap(es)[i] == es[i].col
  {
    if es != [] {
      RowOrderedSuccessor(es[..|es| - 1]);
    }
  }

  lemma {:induction false} WalkShift(d: map<nat, nat>, v: nat, a: nat, b: nat)
    ensures Walk(d, Walk(d, v, a), b) == Walk(d, v, a + b)
  {
    if b > 0 {
      WalkShift(d, v, a, b - 1);
    }
  }

  /** Position reached after j steps around a cycle of length len, starting at position q. */
  function Around(q: nat, j: nat, len: nat): nat
    requires q < len
  {
    if j == 0 then q else var p := Around(q, j - 1, len); if p + 1 == len then 0 else p + 1
  }

  lemma {:induction false} AroundBound(q: nat, j: nat, len: nat)
    requires q < len
    ensures Around(q, j, len) < len
  {
    if j > 0 {
      AroundBound(q, j - 1, len);
    }
  }

  lemma {:induction false} AroundClosed(q: nat, j: nat, len: nat)
    requires q < len && j <= len
    ensures Around(q, j, len) == if q + j < len then q + j else q + j - len
  {
    if j > 0 {
      AroundClosed(q, j - 1, len);
    }
  }

  /** Walking along the successors of a cycle's edges stays on the cycle. */
  lemma {:induction false} WalkAlongCycle(d: map<nat, nat>, c: seq<Edge>, q: nat, j: nat)
    requires IsCycle(c) && q < |c|
    requires forall k :: 0 <= k < |c| ==> c[k].row in d && d[c[k].row] == c[k].col
    ensures Around(q, j, |c|) < |c| && Walk(d, c[q].row, j) == c[Around(q, j, |c|)].row
  {
    AroundBound(q, j, |c|);
    if j > 0 {
      WalkAlongCycle(d, c, q, j - 1);
      var p := Around(q, j - 1, |c|);
      if p + 1 < |c| {
        assert c[p].col == c[p + 1].row;
      }
    }
  }

  lemma {:induction false} WalkStaysBelow(es: seq<Edge>, n: nat, k: nat)
    requires RowOrdered(es) && |es| == n && n > 0
    requires forall i :: 0 <= i < n ==> es[i].col < n
    ensures Walk(SuccessorMap(es), 0, k) < n
  {
    RowOrderedSuccessor(es);
    if k > 0 {
      WalkStaysBelow(es, n, k - 1);
    }
  }

  /** An edge of a row-ordered list from job r is the r-th edge. */
  lemma {:induction false} MemberOfRowOrdered(es: seq<Edge>, e: Edge)
    requires RowOrdered(es) && e in es
    ensures e.row < |es| && es[e.row] == e
  {
  }

  /** Within |t| steps from job 0, the walk along a tour visits every job. */
  lemma {:induction false} TourReachesAll(m: Matrix, t: seq<Edge>, x: nat)
    requires IsTour(m, t) && x < |t|
    ensures exists i :: 1 <= i <= |t| && Walk(SuccessorMap(t), 0, i) == x
  {
    var n := |t|;
    var d := SuccessorMap(t);
    var s := seq(n, i requires 0 <= i < n => Walk(d, 0, i + 1));
    forall i | 0 <= i < n
      ensures s[i] < n
    {
      WalkStaysBelow(t, n, i + 1);
    }
    assert Distinct(s) by {
      forall i, j | 0 <= i < j < n
        ensures s[i] != s[j]
      {
        assert Walk(d, 0, i + 1) != Walk(d, 0, j + 1);
      }
    }
    Pigeonhole(s, n, x);
    var i :| 0 <= i < n && s[i] == x;
    assert Walk(d, 0, i + 1) == x;
  }

  /** The walk along a tour does not come back to job 0 before step |t|. */
  lemma {:induction false} NoEarlyReturn(m: Matrix, t: seq<Edge>, k: nat)
    requires IsTour(m, t) && 1 <= k < |t|
    ensures Walk(SuccessorMap(t), 0, k) != 0
  {
    var d := SuccessorMap(t);
    if Walk(d, 0, k) == 0 {
      assert Walk(d, 0, k + 1) == Walk(d, 0, 1);
    }
  }

  /** The walk along a tour is back at job 0 after exactly |t| steps. */
  lemma {:induction false} TourReturnsToZero(m: Matrix, t: seq<Edge>)
    requires IsTour(m, t) && |t| > 0
    ensures Walk(SuccessorMap(t), 0, |t|) == 0
  {
    TourReachesAll(m, t, 0);
    var i :| 1 <= i <= |t| && Walk(SuccessorMap(t), 0, i) == 0;
    if i < |t| {
      NoEarlyReturn(m, t, i);
    }
  }

  /** Successors of the cycle's edges, read off a row-ordered list holding all of them. */
  lemma {:induction false} CycleSuccessors(es: seq<Edge>, c: seq<Edge>)
    requires RowOrdered(es)
    requires forall k :: 0 <= k < |c| ==> c[k] in es
    ensures forall k :: 0 <= k < |c| ==> c[k].row in SuccessorMap(es) && SuccessorMap(es)[c[k].row] == c[k].col
  {
    RowOrderedSuccessor(es);
    forall k | 0 <= k < |c|
      ensures c[k].row in SuccessorMap(es) && SuccessorMap(es)[c[k].row] == c[k].col
    {
      MemberOfRowOrdered(es, c[k]);
    }
  }

  /** Along a tour, job 0 is reached again from every job. */
  lemma {:induction false} WalkBackToZero(m: Matrix, t: seq<Edge>, x: nat) returns (j: nat)
    requires IsTour(m, t) && x < |t|
    ensures Walk(SuccessorMap(t), x, j) == 0
  {
    var n := |t|;
    var d := SuccessorMap(t);
    TourReturnsToZero(m, t);
    TourReachesAll(m, t, x);
    var i :| 1 <= i <= n && Walk(d, 0, i) == x;
    WalkShift(d, 0, i, n - i);
    j := n - i;
  }

  /** A cycle whose edges all lie on a tour passes through job 0. */
  lemma {:induction false} CycleInTourHitsZero(m: Matrix, t: seq<Edge>, c: seq<Edge>) returns (q: nat)
    requires IsTour(m, t) && IsCycle(c)
    requires forall k :: 0 <= k < |c| ==> c[k] in t
    ensures q < |c| && c[q].row == 0
  {
    MemberOfRowOrdered(t, c[0]);
    var j := WalkBackToZero(m, t, c[0].row);
    CycleSuccessors(t, c);
    WalkAlongCycle(SuccessorMap(t), c, 0, j);
    q := Around(0, j, |c|);
  }

  /** A tour cannot contain every edge of a subtour that misses some job. */
  lemma {:induction false} ProperCycleNotInTour(m: Matrix, t: seq<Edge>, c: seq<Edge>)
    requires IsTour(m, t)
    requires IsCycle(c) && |c| < |t|
    ensures exists k :: 0 <= k < |c| && c[k] !in t
  {
    if forall k :: 0 <= k < |c| ==> c[k] in t {
      var q := CycleInTourHitsZero(m, t, c);
      // From job 0 the walk is back at 0 after |c| < |t| steps.
      CycleSuccessors(t, c);
      WalkAlongCycle(SuccessorMap(t), c, q, |c|);
      AroundClosed(q, |c|, |c|);
      NoEarlyReturn(m, t, |c|);
    }
  }

  /** A subtour through all n jobs of a row-ordered edge list makes that list Hamiltonian. */
  lemma {:induction false} FullCycleIsHamiltonian(es: seq<Edge>, c: seq<Edge>)
    requires RowOrdered(es)
    requires IsCycle(c) && |c| == |es|
    requires forall k :: 0 <= k < |c| ==> c[k] in es
    ensures Hamiltonian(es)
  {
    var n := |es|;
    var d := SuccessorMap(es);
    RowOrderedSuccessor(es);
    forall k | 0 <= k < |c|
      ensures c[k].row in d && d[c[k].row] == c[k].col
    {
      MemberOfRowOrdered(es, c[k]);
    }
    var rows := seq(n, i requires 0 <= i < n => c[i].row);
    forall i | 0 <= i < n
      ensures rows[i] < n
    {
      MemberOfRowOrdered(es, c[i]);
    }
    Pigeonhole(rows, n, 0);
    var q :| 0 <= q < n && c[q].row == 0;
    forall a, b | 1 <= a < b <= n
      ensures Walk(d, 0, a) != Walk(d, 0, b)
    {
      WalkAlongCycle(d, c, q, a);
      WalkAlongCycle(d, c, q, b);
      AroundClosed(q, a, n);
      AroundClosed(q, b, n);
    }
  }

  lemma {:induction false} FlattenMember(ss: seq<seq<Edge>>, k: nat, e: Edge)
    requires k < |ss| && e in ss[k]
    ensures e in Flatten(ss)
  {
    if k > 0 {
      FlattenMember(ss[1..], k - 1, e);
    }
  }

  lemma {:induction false} FlattenLength(ss: seq<seq<Edge>>, k: nat)
    requires k < |ss|
    ensures |ss[k]| <= |Flatten(ss)|
  {
    if k > 0 {
      FlattenLength(ss[1..], k - 1);
    }
  }

  /** When an assignment is not one Hamiltonian cycle, each of its subtours misses some job. */
  lemma {:induction false} SubtoursAreProper(es: seq<Edge>, subtours: seq<seq<Edge>>, k: nat)
    requires RowOrdered(es) && !Hamiltonian(es)
    requires multiset(Flatten(subtours)) == multiset(es)
    requires k < |subtours| && IsCycle(subtours[k])
    ensures |subtours[k]| < |es|
  {
    FlattenLength(subtours, k);
    assert |Flatten(subtours)| == |es| by {
      assert |multiset(Flatten(subtours))| == |multiset(es)|;
    }
    if |subtours[k]| == |es| {
      forall j | 0 <= j < |subtours[k]|
        ensures subtours[k][j] in es
      {
        FlattenMember(subtours, k, subtours[k][j]);
        assert subtours[k][j] in multiset(Flatten(subtours));
      }
      FullCycleIsHamiltonian(es, subtours[k]);
    }
  }

  /** Builds the successor dictionary edge by edge. */
  method EdgeDict(es: seq<Edge>) returns (d: map<nat, nat>)
    ensures d == SuccessorMap(es)
  {
    d := map[];
    for k := 0 to |es|
      invariant d == SuccessorMap(es[..k])
    {
      assert es[..k + 1][..k] == es[..k];
      d := d[es[k].row := es[k].col];
    }
    assert es[..|es|] == es;
  }

  /** A successor list over jobs 0..n-1: edge i leaves job i and enters a job below n. */
  predicate SuccessorList(es: seq<Edge>)
  {
    RowOrdered(es) && forall k :: 0 <= k < |es| ==> es[k].col < |es|
  }

  /** On a successor list the walk from job 0 only meets jobs that have a successor. */
  lemma {:induction false} WalkInKeys(es: seq<Edge>)
    requires SuccessorList(es) && es != []
    ensures forall k: nat :: Walk(SuccessorMap(es), 0, k) in SuccessorMap(es)
  {
    RowOrderedSuccessor(es);
    forall k: nat
      ensures Walk(SuccessorMap(es), 0, k) in SuccessorMap(es)
    {
      WalkStaysBelow(es, |es|, k);
    }
  }

  /** The jobs reached in steps 1..k of the walk from job 0. */
  function Visited(d: map<nat, nat>, k: nat): set<nat>
  {
    if k == 0 then {} else Visited(d, k - 1) + {Walk(d, 0, k)}
  }

  /** Job x is reached in one of the steps 1..k of the walk from job 0. */
  predicate Reached(d: map<nat, nat>, k: nat, x: nat)
  {
    exists a: nat :: 1 <= a <= k && Walk(d, 0, a) == x
  }

  lemma {:induction false} VisitedMembers(d: map<nat, nat>, k: nat)
    ensures forall x: nat :: x in Visited(d, k) <==> Reached(d, k, x)
  {
    if k > 0 {
      VisitedMembers(d, k - 1);
      forall x: nat
        ensures x in Visited(d, k) <==> Reached(d, k, x)
      {
        if x in Visited(d, k - 1) {
          var a: nat :| 1 <= a <= k - 1 && Walk(d, 0, a) == x;
          assert 1 <= a <= k;
        } else if x == Walk(d, 0, k) {
          assert 1 <= k <= k && Walk(d, 0, k) == x;
        } else if Reached(d, k, x) {
          var a: nat :| 1 <= a <= k && Walk(d, 0, a) == x;
          assert a < k;
          assert Reached(d, k - 1, x);
        }
      }
    }
  }
}
