/** The subtour-elimination branching rule: include a prefix of a subtour's free edges, exclude the next one. */
module Branching {
  import opened CostMatrix
  import opened Tours
  import opened Subproblem

  function Elements(s: seq<Edge>): set<Edge>
  {
    set e | e in s
  }

  /** The edges of a subtour that the subproblem does not already include. */
  function NonIncluded(subtour: seq<Edge>, inc: seq<Edge>): set<Edge>
  {
    Elements(subtour) - Elements(inc)
  }

  /** The number of free edges of each subtour. */
  function FreeCounts(subtours: seq<seq<Edge>>, inc: seq<Edge>): seq<nat>
  {
    seq(|subtours|, k requires 0 <= k < |subtours| => |NonIncluded(subtours[k], inc)|)
  }

  /** Among the first `len` counts, `chosen` holds the value m, every earlier count is strictly larger
    * and no later one is smaller: the position a scan with a strict `<` settles on. */
  ghost predicate FirstMinimal(counts: seq<nat>, len: nat, chosen: nat, m: nat)
  {
    && chosen < len <= |counts| && counts[chosen] == m
    && (forall j :: 0 <= j < chosen ==> counts[j] > m)
    && (forall j :: chosen < j < len ==> counts[j] >= m)
  }

  /** Every count the scan has passed is at least the minimum it settled on. */
  lemma {:induction false} FirstMinimalBound(counts: seq<nat>, len: nat, chosen: nat, m: nat)
    requires FirstMinimal(counts, len, chosen, m)
    ensures forall j :: 0 <= j < len ==> counts[j] >= m
  {
  }

  /** A count below every earlier one is where the scan settles next. */
  lemma {:induction false} FirstMinimalStart(counts: seq<nat>, len: nat)
    requires len < |counts| && forall j :: 0 <= j < len ==> counts[j] > counts[len]
    ensures FirstMinimal(counts, len + 1, len, counts[len])
  {
  }

  /** A count no smaller than the minimum leaves the scan where it was. */
  lemma {:induction false} FirstMinimalKeep(counts: seq<nat>, len: nat, chosen: nat, m: nat)
    requires FirstMinimal(counts, len, chosen, m) && len < |counts| && counts[len] >= m
    ensures FirstMinimal(counts, len + 1, chosen, m)
  {
  }

  lemma {:induction false} ElementsCard(s: seq<Edge>)
    ensures |Elements(s)| <= |s|
  {
    if s != [] {
      ElementsCard(s[1..]);
      assert Elements(s) == Elements(s[1..]) + {s[0]};
    } else {
      assert Elements(s) == {};
    }
  }

  /** A subtour never has more free edges than edges. */
  lemma {:induction false} NonIncludedCard(subtour: seq<Edge>, inc: seq<Edge>)
    ensures |NonIncluded(subtour, inc)| <= |subtour|
  {
    ElementsCard(subtour);
    SubsetCard(NonIncluded(subtour, inc), Elements(subtour));
  }

  /** The first edge of the list that the tour does not use. */
  lemma {:induction false} FirstMissing(es: seq<Edge>, t: seq<Edge>, k: nat) returns (i: nat)
    requires k < |es| && es[k] !in t
    ensures i <= k && es[i] !in t && forall j :: 0 <= j < i ==> es[j] in t
  {
    if es[0] !in t {
      i := 0;
    } else {
      var i' := FirstMissing(es[1..], t, k - 1);
      i := i' + 1;
    }
  }

  /** Child i of a subproblem: the first i free edges join the included ones and edge i is excluded. */
  ghost predicate InChild(root: Matrix, inc: seq<Edge>, exc: seq<Edge>, edges: seq<Edge>, i: nat, t: seq<Edge>)
    requires i < |edges|
  {
    InSpace(root, edges[..i] + inc, [edges[i]] + exc, t)
  }

  /** Every tour of the subproblem lies in one of the children: it cannot use the whole proper subtour,
    * so it misses a free edge of it, and the first free edge it misses names its child. */
  lemma {:induction false} BranchCoverage(root: Matrix, inc: seq<Edge>, exc: seq<Edge>, subtour: seq<Edge>, edges: seq<Edge>, t: seq<Edge>)
      returns (i: nat)
    requires InSpace(root, inc, exc, t)
    requires IsCycle(subtour) && |subtour| < |root|
    requires Elements(edges) == NonIncluded(subtour, inc)
    ensures i < |edges| && InChild(root, inc, exc, edges, i, t)
  {
    ProperCycleNotInTour(root, t, subtour);
    var k :| 0 <= k < |subtour| && subtour[k] !in t;
    assert subtour[k] !in inc;
    assert subtour[k] in Elements(edges);
    var m :| 0 <= m < |edges| && edges[m] == subtour[k];
    i := FirstMissing(edges, t, m);
    assert forall e :: e in edges[..i] ==> e in t;
  }

  /** A child's space lies inside its parent's. */
  lemma {:induction false} ChildWithinParent(root: Matrix, inc: seq<Edge>, exc: seq<Edge>, edges: seq<Edge>, i: nat, t: seq<Edge>)
    requires i < |edges| && InChild(root, inc, exc, edges, i, t)
    ensures InSpace(root, inc, exc, t)
  {
  }

  /** Distinct children have disjoint spaces: child i excludes the edge that every later child includes. */
  lemma {:induction false} ChildrenDisjoint(root: Matrix, inc: seq<Edge>, exc: seq<Edge>, edges: seq<Edge>, i: nat, j: nat, t: seq<Edge>)
    requires i < j < |edges|
    ensures !(InChild(root, inc, exc, edges, i, t) && InChild(root, inc, exc, edges, j, t))
  {
    if InChild(root, inc, exc, edges, j, t) {
      assert edges[i] in edges[..j] + inc;
      assert edges[i] in [edges[i]] + exc;
    }
  }

  /** The constraint sets of a child built from an assignment that respects the parent: the included
    * edges enter distinct columns, and the two sets are disjoint when the parent's are. */
  lemma {:induction false} ChildConstraints(root: Matrix, inc: seq<Edge>, exc: seq<Edge>, sol: seq<Edge>, edges: seq<Edge>, i: nat)
    requires IsAssignment(root, sol) && Respects(sol, inc, exc) && EdgesWithin(exc, |root|)
    requires forall e :: e in edges ==> e in sol && e !in inc
    requires Distinct(edges) && i < |edges|
    ensures EdgesWithin(edges[..i] + inc, |root|) && EdgesWithin([edges[i]] + exc, |root|)
    ensures ColsFunctional(edges[..i] + inc)
    ensures Disjoint(inc, exc) ==> Disjoint(edges[..i] + inc, [edges[i]] + exc)
  {
    var ci := edges[..i] + inc;
    assert forall e :: e in ci ==> e in sol;
    forall k | 0 <= k < |ci|
      ensures EdgeWithin(ci[k], |root|)
    {
      assert ci[k] in sol;
    }
    assert edges[i] in sol;
    forall a, b | a in ci && b in ci && a.col == b.col
      ensures a == b
    {
      var p :| 0 <= p < |sol| && sol[p] == a;
      var q :| 0 <= q < |sol| && sol[q] == b;
      assert p == q;
    }
    if Disjoint(inc, exc) {
      forall e | e in ci
        ensures e !in [edges[i]] + exc
      {
        if e in edges[..i] {
          var p :| 0 <= p < i && edges[p] == e;
          assert e != edges[i];
        }
      }
    }
  }
}
