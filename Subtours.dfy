/** Facts about splitting a permutation of the jobs into its subtours. */
module Subtours {
  import opened CostMatrix
  import opened Tours

  /** A successor list whose targets are pairwise distinct: a permutation of the jobs. */
  predicate Permutation(es: seq<Edge>)
  {
    SuccessorList(es) && forall i, j :: 0 <= i < j < |es| ==> es[i].col != es[j].col
  }

  /** An assignment's successor list is a permutation of the jobs. */
  lemma {:induction false} AssignmentIsPermutation(m: Matrix, es: seq<Edge>)
    requires IsAssignment(m, es)
    ensures Permutation(es)
  {
  }

  /** Every edge of `sol` is the edge its source has in `orig`. */
  predicate EdgesOf(orig: seq<Edge>, sol: seq<Edge>)
  {
    forall e :: e in sol ==> e.row < |orig| && orig[e.row] == e
  }

  /** Every target of an edge of `sol` is also the source of an edge of `sol`: with `EdgesOf`,
    * the edge leaving the target of each edge of `sol` is itself in `sol`. */
  predicate SuccessorClosed(sol: seq<Edge>)
  {
    Cols(sol) <= Rows(sol)
  }

  /** list.remove: drops the first occurrence of x. */
  function RemoveFirst(s: seq<Edge>, x: Edge): (r: seq<Edge>)
    requires x in s
    ensures multiset(r) == multiset(s) - multiset{x}
    ensures |r| == |s| - 1
  {
    if s[0] == x then
      assert s == [s[0]] + s[1..];
      s[1..]
    else
      assert s == [s[0]] + s[1..];
      [s[0]] + RemoveFirst(s[1..], x)
  }

  lemma {:induction false} FlattenAppend(ss: seq<seq<Edge>>, c: seq<Edge>)
    ensures Flatten(ss + [c]) == Flatten(ss) + c
  {
    if ss != [] {
      assert (ss + [c])[1..] == ss[1..] + [c];
      FlattenAppend(ss[1..], c);
    } else {
      assert Flatten([c]) == c + Flatten([]);
    }
  }

  /** A list with distinct rows holds each edge at most once. */
  lemma {:induction false} RowOrderedOnce(es: seq<Edge>, base: nat)
    requires forall i :: 0 <= i < |es| ==> es[i].row == base + i
    ensures forall e :: multiset(es)[e] <= 1
  {
    if es != [] {
      RowOrderedOnce(es[1..], base + 1);
      assert es == [es[0]] + es[1..];
      assert es[0] !in es[1..];
    }
  }

  /** Removing a whole subtour from a successor-closed part of a permutation leaves it successor-closed. */
  lemma {:induction false} RemoveCycle(orig: seq<Edge>, sol0: seq<Edge>, c: seq<Edge>, sol: seq<Edge>)
    requires Permutation(orig) && EdgesOf(orig, sol0) && SuccessorClosed(sol0)
    requires forall e :: multiset(sol0)[e] <= 1
    requires multiset(sol) + multiset(c) == multiset(sol0)
    requires EdgesOf(orig, c) && Rows(c) == Cols(c)
    ensures EdgesOf(orig, sol) && SuccessorClosed(sol)
  {
    forall e | e in sol
      ensures e.row < |orig| && orig[e.row] == e
    {
      assert e in multiset(sol0);
    }
    forall x | x in Cols(sol)
      ensures x in Rows(sol)
    {
      var e :| e in sol && e.col == x;
      assert e in multiset(sol0);
      assert x in Rows(sol0);
      forall g | g in c
        ensures g.col != x
      {
        assert g in multiset(c);
        assert multiset(sol0)[g] == multiset(sol)[g] + multiset(c)[g];
        assert g.row != e.row;
      }
      assert x !in Rows(c);
      var f :| f in sol0 && f.row == x;
      assert f !in c;
      assert f in multiset(sol0);
      assert multiset(c)[f] == 0;
      assert f in multiset(sol);
    }
  }

  /** The edge leaving a job outside a chain of a permutation targets no job the chain enters. */
  lemma {:induction false} ChainTargetIsNew(orig: seq<Edge>, chain: seq<Edge>, e: Edge)
    requires Permutation(orig) && EdgesOf(orig, chain)
    requires e.row < |orig| && orig[e.row] == e && e.row !in Rows(chain)
    ensures e.col !in Cols(chain)
  {
    forall x | x in chain
      ensures x.col != e.col
    {
      assert x.row in Rows(chain);
      assert x.row != e.row;
    }
  }

  lemma {:induction false} FlattenCount(ss: seq<seq<Edge>>, i: nat, j: nat, e: Edge)
    requires i < j < |ss| && e in ss[i] && e in ss[j]
    ensures multiset(Flatten(ss))[e] >= 2
  {
    assert Flatten(ss) == ss[0] + Flatten(ss[1..]);
    if i == 0 {
      FlattenMember(ss[1..], j - 1, e);
    } else {
      FlattenCount(ss[1..], i - 1, j - 1, e);
    }
  }

  /** The subtours of a list with distinct edges share no edge. */
  lemma {:induction false} SubtoursDisjoint(orig: seq<Edge>, ss: seq<seq<Edge>>)
    requires RowOrdered(orig) && multiset(Flatten(ss)) == multiset(orig)
    ensures forall i, j, e :: 0 <= i < j < |ss| && e in ss[i] ==> e !in ss[j]
  {
    RowOrderedOnce(orig, 0);
    forall i, j, e | 0 <= i < j < |ss| && e in ss[i] && e in ss[j]
      ensures false
    {
      FlattenCount(ss, i, j, e);
    }
  }

  /** Every edge of the list lies in some subtour. */
  lemma {:induction false} SubtoursCover(orig: seq<Edge>, ss: seq<seq<Edge>>, e: Edge)
    requires multiset(Flatten(ss)) == multiset(orig) && e in orig
    ensures exists k :: 0 <= k < |ss| && e in ss[k]
  {
    assert e in multiset(Flatten(ss));
    FlattenSplit(ss, e);
  }

  lemma {:induction false} FlattenSplit(ss: seq<seq<Edge>>, e: Edge)
    requires e in Flatten(ss)
    ensures exists k :: 0 <= k < |ss| && e in ss[k]
  {
    if e !in ss[0] {
      FlattenSplit(ss[1..], e);
      var k :| 0 <= k < |ss[1..]| && e in ss[1..][k];
      assert e in ss[k + 1];
    }
  }

  /** The state of the outer loop of find_subtours: the subtours found so far and the edges left
    * together make up the permutation, and the edges left are closed under successors. */
  ghost predicate Splitting(orig: seq<Edge>, subtours: seq<seq<Edge>>, sol: seq<Edge>)
  {
    && Permutation(orig)
    && multiset(Flatten(subtours)) + multiset(sol) == multiset(orig)
    && EdgesOf(orig, sol) && SuccessorClosed(sol)
    && (forall k :: 0 <= k < |subtours| ==> IsCycle(subtours[k]) && EdgesOf(orig, subtours[k]))
    && (subtours == [] ==> sol == orig)
    && (orig != [] && subtours != [] ==> subtours[0] != [] && subtours[0][0] == orig[0])
  }

  /** The state of the inner loop: a chain traced from `start` to `out` whose edges have left `sol`. */
  ghost predicate Tracing(orig: seq<Edge>, sol0: seq<Edge>, sol: seq<Edge>, subtour: seq<Edge>,
                          out: nat, start: nat, visited: set<nat>)
  {
    && Permutation(orig) && EdgesOf(orig, sol0) && SuccessorClosed(sol0)
    && (forall e :: multiset(sol0)[e] <= 1)
    && sol0 != [] && start == sol0[0].row
    && multiset(sol) + multiset(subtour) == multiset(sol0)
    && out < |orig| && orig[out] in sol
    && IsChain(subtour) && EdgesOf(orig, subtour)
    && (subtour == [] ==> out == start && sol == sol0)
    && (subtour != [] ==> subtour[0] == sol0[0] && subtour[|subtour| - 1].col == out)
    && visited == Rows(subtour) + {out} && out !in Rows(subtour)
    && visited == Cols(subtour) + {start} && start !in Cols(subtour)
    && forall i, j :: 0 <= i < j < |subtour| ==> subtour[i].row != subtour[j].row
  }

  lemma {:induction false} SplittingStart(orig: seq<Edge>)
    requires Permutation(orig)
    ensures Splitting(orig, [], orig)
  {
    assert forall e :: e in orig ==> e.row < |orig| && orig[e.row] == e;
    forall x | x in Cols(orig)
      ensures x in Rows(orig)
    {
      var e :| e in orig && e.col == x;
      assert orig[x] in orig;
    }
  }

  lemma {:induction false} TracingStart(orig: seq<Edge>, subtours: seq<seq<Edge>>, sol: seq<Edge>)
    requires Splitting(orig, subtours, sol) && sol != []
    ensures Tracing(orig, sol, sol, [], sol[0].row, sol[0].row, {sol[0].row})
  {
    RowOrderedOnce(orig, 0);
    assert forall e :: multiset(sol)[e] <= multiset(orig)[e];
    assert sol[0] in sol;
  }

  /** The edge leaving the successor of `out`, when that successor is new, is still left to trace. */
  lemma {:induction false} NextEdgeLeft(orig: seq<Edge>, sol0: seq<Edge>, sol: seq<Edge>, subtour: seq<Edge>,
                     out: nat, start: nat, visited: set<nat>)
    requires Tracing(orig, sol0, sol, subtour, out, start, visited)
    requires orig[out].col !in visited
    ensures orig[out].col < |orig| && orig[orig[out].col] in RemoveFirst(sol, orig[out])
  {
    var e := orig[out];
    var inV := e.col;
    var sol' := RemoveFirst(sol, e);
    var sub' := subtour + [e];
    assert Rows(sub') == Rows(subtour) + {out};
    assert e in multiset(sol);
    assert multiset(sol0)[e] == multiset(sol)[e] + multiset(subtour)[e];
    assert e in sol0;
    assert inV in Cols(sol0);
    assert inV in Rows(sol0);
    var g :| g in sol0 && g.row == inV;
    var f := orig[inV];
    assert g == f;
    if f in sub' {
      assert false;
    }
    assert multiset(sol') + multiset(sub') == multiset(sol0);
    assert f in multiset(sol0);
    assert multiset(sub')[f] == 0;
    assert f in multiset(sol');
  }

  /** Following the successor of `out` to a new vertex extends the chain. */
  lemma {:induction false} TracingStep(orig: seq<Edge>, sol0: seq<Edge>, sol: seq<Edge>, subtour: seq<Edge>,
                    out: nat, start: nat, visited: set<nat>)
    requires Tracing(orig, sol0, sol, subtour, out, start, visited)
    requires orig[out].col !in visited
    ensures orig[out].row == out
    ensures Tracing(orig, sol0, RemoveFirst(sol, orig[out]), subtour + [orig[out]], orig[out].col, start,
                    visited + {orig[out].col})
    ensures |RemoveFirst(sol, orig[out])| < |sol|
  {
    var e := orig[out];
    var sub' := subtour + [e];
    NextEdgeLeft(orig, sol0, sol, subtour, out, start, visited);
    assert Rows(sub') == Rows(subtour) + {out};
    assert Cols(sub') == Cols(subtour) + {e.col};
    assert multiset(RemoveFirst(sol, e)) + multiset(sub') == multiset(sol0) by {
      assert e in multiset(sol);
    }
    if subtour == [] {
      assert sol0[0] in sol0;
    }
  }

  /** Following the successor of `out` back into the chain closes it into a cycle through `start`. */
  lemma {:induction false} TracingClose(orig: seq<Edge>, sol0: seq<Edge>, sol: seq<Edge>, subtour: seq<Edge>,
                     out: nat, start: nat, visited: set<nat>)
    requires Tracing(orig, sol0, sol, subtour, out, start, visited)
    requires orig[out].col in visited
    ensures orig[out].row == out
    ensures IsCycle(subtour + [orig[out]]) && EdgesOf(orig, subtour + [orig[out]])
    ensures Rows(subtour + [orig[out]]) == Cols(subtour + [orig[out]])
    ensures multiset(RemoveFirst(sol, orig[out])) + multiset(subtour + [orig[out]]) == multiset(sol0)
    ensures (subtour + [orig[out]])[0] == sol0[0]
  {
    var e := orig[out];
    var sub' := subtour + [e];
    assert Rows(sub') == Rows(subtour) + {out};
    assert Cols(sub') == Cols(subtour) + {e.col};
    ChainTargetIsNew(orig, subtour, e);
    assert e.col == start;
    if subtour == [] {
      assert sol0[0] in sol0;
      assert orig[sol0[0].row] == sol0[0];
    }
    CloseChain(subtour, e);
    assert e in multiset(sol);
  }

  /** An edge from the end of a chain back to its start, leaving a job the chain does not leave,
    * closes the chain into a cycle. */
  lemma {:induction false} CloseChain(c: seq<Edge>, e: Edge)
    requires IsChain(c) && forall i, j :: 0 <= i < j < |c| ==> c[i].row != c[j].row
    requires c != [] ==> c[|c| - 1].col == e.row && e.col == c[0].row
    requires c == [] ==> e.col == e.row
    requires e.row !in Rows(c)
    ensures IsCycle(c + [e])
  {
    var c' := c + [e];
    forall i, j | 0 <= i < j < |c'|
      ensures c'[i].row != c'[j].row
    {
      if j == |c| {
        assert c[i] in c;
      }
    }
  }

  /** Removing a closed subtour keeps the outer loop's state and shrinks the remaining edges. */
  lemma {:induction false} SplittingStep(orig: seq<Edge>, subtours: seq<seq<Edge>>, sol0: seq<Edge>, c: seq<Edge>, sol: seq<Edge>)
    requires Splitting(orig, subtours, sol0) && sol0 != []
    requires IsCycle(c) && EdgesOf(orig, c) && Rows(c) == Cols(c)
    requires multiset(sol) + multiset(c) == multiset(sol0) && c[0] == sol0[0]
    ensures Splitting(orig, subtours + [c], sol) && |sol| < |sol0|
  {
    RowOrderedOnce(orig, 0);
    assert forall e :: multiset(sol0)[e] <= multiset(orig)[e];
    RemoveCycle(orig, sol0, c, sol);
    FlattenAppend(subtours, c);
    CyclesAppend(orig, subtours, c, sol0);
    assert |multiset(sol)| + |multiset(c)| == |multiset(sol0)|;
  }

  /** Appending a subtour that starts at the first remaining edge keeps the subtours' shape. */
  lemma {:induction false} CyclesAppend(orig: seq<Edge>, subtours: seq<seq<Edge>>, c: seq<Edge>, sol0: seq<Edge>)
    requires forall k :: 0 <= k < |subtours| ==> IsCycle(subtours[k]) && EdgesOf(orig, subtours[k])
    requires IsCycle(c) && EdgesOf(orig, c)
    requires subtours == [] ==> sol0 == orig
    requires orig != [] && subtours != [] ==> subtours[0] != [] && subtours[0][0] == orig[0]
    requires sol0 != [] && c[0] == sol0[0]
    ensures forall k :: 0 <= k < |subtours + [c]| ==> IsCycle((subtours + [c])[k]) && EdgesOf(orig, (subtours + [c])[k])
    ensures orig != [] ==> (subtours + [c])[0] != [] && (subtours + [c])[0][0] == orig[0]
  {
    var ss := subtours + [c];
    forall k | 0 <= k < |ss|
      ensures IsCycle(ss[k]) && EdgesOf(orig, ss[k])
    {
      if k < |subtours| {
        assert ss[k] == subtours[k];
      }
    }
    if subtours == [] {
      assert ss[0] == c;
    } else {
      assert ss[0] == subtours[0];
    }
  }

  /** The rows increase along `s`: a successor list, and what is left of it after list.remove calls. */
  predicate IncreasingRows(s: seq<Edge>)
  {
    forall i, j :: 0 <= i < j < |s| ==> s[i].row < s[j].row
  }

  /** The order find_subtours produces: each subtour opens at its least row, and the subtours come
    * in increasing order of their opening rows. */
  predicate StartsAscending(ss: seq<seq<Edge>>)
  {
    && (forall k, i :: 0 <= k < |ss| && 0 < i < |ss[k]| ==> ss[k][0].row < ss[k][i].row)
    && (forall k, j :: 0 <= k < j < |ss| && ss[k] != [] && ss[j] != [] ==> ss[k][0].row < ss[j][0].row)
  }

  /** Every subtour found so far opens below every edge still left. */
  predicate StartsBelow(ss: seq<seq<Edge>>, sol: seq<Edge>)
  {
    forall k, e :: 0 <= k < |ss| && ss[k] != [] && e in sol ==> ss[k][0].row < e.row
  }

  lemma {:induction false} RowOrderedIncreasing(es: seq<Edge>)
    requires RowOrdered(es)
    ensures IncreasingRows(es)
  {
  }

  /** list.remove keeps the order of the edges it leaves. */
  lemma {:induction false} RemoveFirstIncreasing(s: seq<Edge>, x: Edge)
    requires IncreasingRows(s) && x in s
    ensures IncreasingRows(RemoveFirst(s, x))
  {
    if s[0] != x {
      var tail := s[1..];
      assert IncreasingRows(tail);
      RemoveFirstIncreasing(tail, x);
      var r := RemoveFirst(tail, x);
      PrependLeast(s[0], r, tail);
    }
  }

  /** Putting an edge below every edge of an increasing list drawn from `from` in front keeps it increasing. */
  lemma {:induction false} PrependLeast(e: Edge, r: seq<Edge>, from: seq<Edge>)
    requires IncreasingRows(r) && multiset(r) <= multiset(from)
    requires forall f :: f in from ==> e.row < f.row
    ensures IncreasingRows([e] + r)
  {
    var t := [e] + r;
    forall j | 0 < j < |t|
      ensures e.row < t[j].row
    {
      assert t[j] == r[j - 1];
      assert r[j - 1] in multiset(r);
      assert r[j - 1] in multiset(from);
    }
    forall i, j | 0 < i < j < |t|
      ensures t[i].row < t[j].row
    {
      assert t[i] == r[i - 1] && t[j] == r[j - 1];
    }
  }

  /** The first edge of a list with increasing rows has the least row of the list. */
  lemma {:induction false} FirstIsLeast(s: seq<Edge>, e: Edge)
    requires IncreasingRows(s) && e in s && e != s[0]
    ensures s[0].row < e.row
  {
    var p :| 0 <= p < |s| && s[p] == e;
  }

  /** Closing a subtour at the first edge left keeps the subtours in the order of their opening rows. */
  lemma {:induction false} StartsStep(ss: seq<seq<Edge>>, sol0: seq<Edge>, c: seq<Edge>, sol: seq<Edge>)
    requires StartsAscending(ss) && StartsBelow(ss, sol0) && IncreasingRows(sol0)
    requires forall e :: multiset(sol0)[e] <= 1
    requires sol0 != [] && IsCycle(c) && c[0] == sol0[0]
    requires multiset(sol) + multiset(c) == multiset(sol0)
    ensures StartsAscending(ss + [c]) && StartsBelow(ss + [c], sol)
  {
    var ss': seq<seq<Edge>> := ss + [c];
    assert sol0[0] in sol0;
    forall i | 0 < i < |c|
      ensures c[0].row < c[i].row
    {
      assert c[i] in multiset(c);
      assert multiset(sol0)[c[i]] == multiset(sol)[c[i]] + multiset(c)[c[i]];
      assert c[i] in sol0;
      assert c[i] != sol0[0];
      FirstIsLeast(sol0, c[i]);
    }
    forall k: int, j: int | 0 <= k < j < |ss'| && ss'[k] != [] && ss'[j] != []
      ensures ss'[k][0].row < ss'[j][0].row
    {
      if j == |ss| {
        assert ss'[k] == ss[k];
      }
    }
    forall k: int, e: Edge | 0 <= k < |ss'| && ss'[k] != [] && e in sol
      ensures ss'[k][0].row < e.row
    {
      assert e in multiset(sol);
      assert multiset(sol0)[e] == multiset(sol)[e] + multiset(c)[e];
      assert e in sol0;
      if k == |ss| {
        assert c[0] in multiset(c);
        assert multiset(sol0)[sol0[0]] == multiset(sol)[sol0[0]] + multiset(c)[sol0[0]];
        assert multiset(sol)[sol0[0]] == 0;
        FirstIsLeast(sol0, e);
      } else {
        assert ss'[k] == ss[k];
      }
    }
  }

  /** `subtours` is the split find_subtours makes of `sol`: cycles of edges of `sol` that together
    * hold each of its edges once, in order of their opening rows. */
  predicate SplitOf(sol: seq<Edge>, subtours: seq<seq<Edge>>)
  {
    && multiset(Flatten(subtours)) == multiset(sol)
    && (forall k :: 0 <= k < |subtours| ==> IsCycle(subtours[k]) && EdgesOf(sol, subtours[k]))
    && StartsAscending(subtours)
  }

  /** A tour splits into one subtour holding all of its edges. */
  lemma {:induction false} TourIsOneSubtour(m: Matrix, t: seq<Edge>, subtours: seq<seq<Edge>>)
    requires IsTour(m, t)
    requires multiset(Flatten(subtours)) == multiset(t)
    requires subtours != [] && IsCycle(subtours[0]) && EdgesOf(t, subtours[0])
    ensures multiset(subtours[0]) == multiset(t)
  {
    var c := subtours[0];
    assert |Flatten(subtours)| == |t| by {
      assert |multiset(Flatten(subtours))| == |multiset(t)|;
    }
    FlattenLength(subtours, 0);
    if |c| < |t| {
      ProperCycleNotInTour(m, t, c);
      assert false;
    }
    assert Flatten(subtours) == c + Flatten(subtours[1..]);
    assert Flatten(subtours[1..]) == [];
  }
}
