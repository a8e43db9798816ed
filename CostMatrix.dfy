/** Cost matrices, edges and assignments: the data shared by every part of the solver. */
module CostMatrix {

  /** One matrix entry: a finite transition cost, or the forbidden marker (the string "NA"). */
  datatype Cell = Cost(value: nat) | Forbidden

  /** Edge (row, col): job `row` is immediately followed by job `col`; also entry (row, col). */
  datatype Edge = Edge(row: nat, col: nat)

  type Matrix = seq<seq<Cell>>

  /** Every row of `m` has |m| entries. */
  predicate Square(m: Matrix) {
    forall i :: 0 <= i < |m| ==> |m[i]| == |m|
  }

  predicate EdgeWithin(e: Edge, n: nat) {
    e.row < n && e.col < n
  }

  predicate EdgesWithin(es: seq<Edge>, n: nat) {
    forall k :: 0 <= k < |es| ==> EdgeWithin(es[k], n)
  }

  /** The cost of one edge; a forbidden entry contributes nothing (callers rule it out). */
  function EdgeCost(m: Matrix, e: Edge): nat
    requires Square(m) && EdgeWithin(e, |m|)
  {
    match m[e.row][e.col]
    case Cost(v) => v
    case Forbidden => 0
  }

  /** The total cost of a list of edges. */
  function TotalCost(m: Matrix, es: seq<Edge>): nat
    requires Square(m) && EdgesWithin(es, |m|)
  {
    if es == [] then 0 else EdgeCost(m, es[0]) + TotalCost(m, es[1..])
  }

  /** No edge of `es` uses a forbidden entry of `m`. */
  predicate Avoids(m: Matrix, es: seq<Edge>)
    requires Square(m) && EdgesWithin(es, |m|)
  {
    forall k :: 0 <= k < |es| ==> m[es[k].row][es[k].col] != Forbidden
  }

  /** A perfect assignment of `m`: edge i leaves row i, no entry is forbidden, columns are distinct. */
  predicate IsAssignment(m: Matrix, es: seq<Edge>) {
    && Square(m)
    && |es| == |m|
    && (forall i :: 0 <= i < |es| ==> es[i].row == i && es[i].col < |m| && m[i][es[i].col] != Forbidden)
    && (forall i, j :: 0 <= i < j < |es| ==> es[i].col != es[j].col)
  }

  /** The rows (sources) and the columns (targets) used by a list of edges. */
  function Rows(es: seq<Edge>): set<nat> {
    set e | e in es :: e.row
  }

  function Cols(es: seq<Edge>): set<nat> {
    set e | e in es :: e.col
  }

  /** Pairwise distinct elements. */
  predicate Distinct<T(==)>(s: seq<T>) {
    forall i, j :: 0 <= i < j < |s| ==> s[i] != s[j]
  }

  lemma {:induction false} CostAppend(m: Matrix, a: seq<Edge>, b: seq<Edge>)
    requires Square(m) && EdgesWithin(a, |m|) && EdgesWithin(b, |m|)
    ensures EdgesWithin(a + b, |m|) && TotalCost(m, a + b) == TotalCost(m, a) + TotalCost(m, b)
  {
    if a != [] {
      assert (a + b)[1..] == a[1..] + b;
      CostAppend(m, a[1..], b);
    } else {
      assert a + b == b;
    }
  }

  lemma {:induction false} CostRemoveAt(m: Matrix, b: seq<Edge>, k: nat)
    requires Square(m) && EdgesWithin(b, |m|) && k < |b|
    ensures EdgesWithin(b[..k] + b[k+1..], |m|)
    ensures TotalCost(m, b) == EdgeCost(m, b[k]) + TotalCost(m, b[..k] + b[k+1..])
  {
    assert b == b[..k] + ([b[k]] + b[k+1..]);
    CostAppend(m, b[..k], [b[k]] + b[k+1..]);
    assert ([b[k]] + b[k+1..])[1..] == b[k+1..];
    CostAppend(m, b[..k], b[k+1..]);
  }

  lemma {:induction false} MultisetRemoveAt<T>(b: seq<T>, k: nat)
    requires k < |b|
    ensures multiset(b[..k] + b[k+1..]) == multiset(b) - multiset{b[k]}
  {
    assert b == b[..k] + [b[k]] + b[k+1..];
  }

  /** The cost of a list of edges does not depend on their order. */
  lemma {:induction false} CostPermutation(m: Matrix, a: seq<Edge>, b: seq<Edge>)
    requires Square(m) && EdgesWithin(a, |m|) && EdgesWithin(b, |m|)
    requires multiset(a) == multiset(b)
    ensures TotalCost(m, a) == TotalCost(m, b)
    decreases |a|
  {
    if a != [] {
      var x := a[0];
      assert x in multiset(b);
      var k :| 0 <= k < |b| && b[k] == x;
      var rest := b[..k] + b[k+1..];
      CostRemoveAt(m, b, k);
      assert multiset(a[1..]) == multiset(rest) by {
        MultisetRemoveAt(b, k);
        MultisetRemoveAt(a, 0);
        assert a[..0] + a[1..] == a[1..];
      }
      assert EdgesWithin(a[1..], |m|);
      CostPermutation(m, a[1..], rest);
    } else {
      assert |multiset(b)| == 0;
    }
  }

  /** The numbers below n. */
  function Range(n: nat): (r: set<nat>)
    ensures forall x: nat :: x in r <==> x < n
    ensures |r| == n
  {
    if n == 0 then {} else Range(n - 1) + {n - 1}
  }

  lemma {:induction false} DistinctCard<T>(s: seq<T>)
    requires Distinct(s)
    ensures |set x | x in s| == |s|
  {
    if s != [] {
      DistinctCard(s[1..]);
      assert (set x | x in s) == (set x | x in s[1..]) + {s[0]};
      assert s[0] !in s[1..];
    } else {
      assert (set x | x in s) == {};
    }
  }

  lemma {:induction false} SubsetCard<T>(a: set<T>, b: set<T>)
    requires a <= b
    ensures |a| <= |b|
  {
    if a != {} {
      var y :| y in a;
      SubsetCard(a - {y}, b - {y});
    }
  }

  /** Pigeonhole: n distinct numbers below n take every value below n. */
  lemma {:induction false} Pigeonhole(s: seq<nat>, n: nat, x: nat)
    requires |s| == n && Distinct(s)
    requires forall k :: 0 <= k < |s| ==> s[k] < n
    requires x < n
    ensures x in s
  {
    var seen := set y | y in s;
    var range := Range(n);
    DistinctCard(s);
    assert seen <= range;
    if x !in s {
      assert seen <= range - {x};
      assert |range - {x}| == n - 1;
      SubsetCard(seen, range - {x});
    }
  }
}
