/** The minimum-priority queue of nodes the tree builder works on
    (java.util.PriorityQueue ordered by frequency). Only which nodes it
    holds matters: `Poll` hands out some node of least frequency, whichever
    one the heap's tie-breaking would pick. */
module PriorityQueue {
  import opened HuffmanNode

  /** Index i holds a node of least frequency in q. */
  predicate IsMinAt(q: seq<Node>, i: int)
  {
    0 <= i < |q| && forall k :: 0 <= k < |q| ==> q[i].f <= q[k].f
  }

  /** A non-empty queue has a node of least frequency. */
  lemma {:induction false} MinExists(q: seq<Node>)
    requires q != []
    ensures exists i :: IsMinAt(q, i)
  {
    if |q| > 1 {
      MinExists(q[1..]);
      var j :| IsMinAt(q[1..], j);
      if q[0].f <= q[1..][j].f {
        assert IsMinAt(q, 0);
      } else {
        assert IsMinAt(q, j + 1);
      }
    } else {
      assert IsMinAt(q, 0);
    }
  }

  /** The queue with the node at index i taken out. */
  function Without(q: seq<Node>, i: int): (r: seq<Node>)
    requires 0 <= i < |q|
    ensures |r| == |q| - 1
  {
    q[..i] + q[i + 1..]
  }

  class MinHeap {
    /** The nodes in the queue, in no particular order. */
    var items: seq<Node>

    constructor ()
      ensures items == []
    {
      items := [];
    }

    function Size(): (n: int)
      reads this
      ensures n == |items|
    {
      |items|
    }

    method Add(n: Node)
      modifies this
      ensures items == old(items) + [n]
    {
      items := items + [n];
    }

    /** Removes and returns a node of least frequency; None (null) when the
        queue is empty. */
    method Poll() returns (n: Option<Node>)
      modifies this
      ensures old(items) == [] ==> n == None && items == []
      ensures old(items) != [] ==>
                exists i :: IsMinAt(old(items), i) && n == Some(old(items)[i]) && items == Without(old(items), i)
    {
      if items == [] {
        return None;
      }
      MinExists(items);
      var i :| IsMinAt(items, i);
      n := Some(items[i]);
      items := Without(items, i);
    }
  }
}
