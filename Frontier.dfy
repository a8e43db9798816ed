/** The frontier of unpruned subproblems: a min-priority queue of (lower bound, node) pairs. */
module Frontier {
  import opened Subproblem

  /** A queued subproblem with its priority (its lower bound when it was queued). */
  datatype Entry = Entry(priority: int, node: Node)

  /** Pairs compare by priority first, then by the nodes' creation order. */
  predicate KeyLess(a: Entry, b: Entry)
  {
    a.priority < b.priority || (a.priority == b.priority && a.node.Less(b.node))
  }

  predicate KeyLe(a: Entry, b: Entry)
  {
    !KeyLess(b, a)
  }

  /** The queue is kept in non-decreasing key order, so its head is a minimal pair. */
  predicate Sorted(q: seq<Entry>)
  {
    forall i, j :: 0 <= i < j < |q| ==> KeyLe(q[i], q[j])
  }

  /** The key order is total, and it orders nodes of equal bound by creation time. */
  lemma {:induction false} KeyOrderTotal(a: Entry, b: Entry)
    ensures KeyLess(a, b) || KeyLess(b, a) || (a.priority == b.priority && a.node.Equal(b.node))
    ensures !(KeyLess(a, b) && KeyLess(b, a))
  {
  }

  /** put: inserts a pair before the first pair with a larger key. */
  function Put(q: seq<Entry>, e: Entry): (r: seq<Entry>)
    ensures multiset(r) == multiset(q) + multiset{e} && |r| == |q| + 1
  {
    if q == [] then [e]
    else if KeyLess(e, q[0]) then [e] + q
    else
      assert q == [q[0]] + q[1..];
      [q[0]] + Put(q[1..], e)
  }

  /** Putting into a sorted queue keeps it sorted. */
  lemma {:induction false} PutSorted(q: seq<Entry>, e: Entry)
    requires Sorted(q)
    ensures Sorted(Put(q, e))
  {
    if q != [] && !KeyLess(e, q[0]) {
      var rest := Put(q[1..], e);
      PutSorted(q[1..], e);
      forall x | x in rest
        ensures KeyLe(q[0], x)
      {
        assert x in multiset(rest);
        if x != e {
          assert x in q[1..];
        }
      }
    }
  }

  /** The head of a sorted queue has a key no larger than any other queued pair. */
  lemma {:induction false} HeadIsMinimal(q: seq<Entry>)
    requires Sorted(q) && q != []
    ensures forall x :: x in q ==> KeyLe(q[0], x)
  {
  }

  /** A pair no smaller than everything queued goes to the back. */
  lemma {:induction false} PutAtEnd(q: seq<Entry>, e: Entry)
    requires forall x :: x in q ==> !KeyLess(e, x)
    ensures Put(q, e) == q + [e]
  {
    if q != [] {
      PutAtEnd(q[1..], e);
    }
  }

  /** The incumbent's cost, or no incumbent yet (best_cost's initial np.inf). */
  datatype Bound = Finite(value: int) | Infinity

  /** c is strictly cheaper than the bound. */
  predicate Below(c: int, b: Bound)
  {
    b.Infinity? || c < b.value
  }

  /** The longest prefix of the queue whose priorities are below the bound. */
  function PrefixBelow(q: seq<Entry>, b: Bound): (r: seq<Entry>)
    ensures |r| <= |q| && r == q[..|r|]
    ensures forall x :: x in r ==> Below(x.priority, b)
    ensures |r| < |q| ==> !Below(q[|r|].priority, b)
  {
    if q == [] || !Below(q[0].priority, b) then [] else [q[0]] + PrefixBelow(q[1..], b)
  }

  /** A prefix that is below the bound and stops at the first pair that is not is the longest one. */
  lemma {:induction false} PrefixBelowUnique(q: seq<Entry>, b: Bound, k: nat)
    requires k <= |q| && forall i :: 0 <= i < k ==> Below(q[i].priority, b)
    requires k < |q| ==> !Below(q[k].priority, b)
    ensures PrefixBelow(q, b) == q[..k]
  {
    if k > 0 {
      PrefixBelowUnique(q[1..], b, k - 1);
      assert q[..k] == [q[0]] + q[1..][..k - 1];
    }
  }

  /** In a sorted queue every pair left out of the prefix has priority not below the bound,
    * so every pair below the bound is kept. */
  lemma {:induction false} PrefixBelowDropsOnlyHigh(q: seq<Entry>, b: Bound)
    requires Sorted(q)
    ensures forall k :: |PrefixBelow(q, b)| <= k < |q| ==> !Below(q[k].priority, b)
    ensures forall x :: x in q && Below(x.priority, b) ==> x in PrefixBelow(q, b)
  {
    var p := |PrefixBelow(q, b)|;
    forall k | p <= k < |q|
      ensures !Below(q[k].priority, b)
    {
      if k > p {
        assert KeyLe(q[p], q[k]);
      }
    }
    forall x | x in q && Below(x.priority, b)
      ensures x in PrefixBelow(q, b)
    {
      var k :| 0 <= k < |q| && q[k] == x;
      assert k < p;
      assert PrefixBelow(q, b)[k] == x;
    }
  }

  /** The subproblems queued in q. */
  function NodesOf(q: seq<Entry>): set<Node>
  {
    set e | e in q :: e.node
  }

  /** Subproblem n is not queued in q. */
  predicate NotQueued(q: seq<Entry>, n: Node)
  {
    forall e :: e in q ==> e.node != n
  }
}
