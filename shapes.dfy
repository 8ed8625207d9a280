/** Finite unfoldings of linked structures. A `Shape` lists a node and, in order, the shapes of its
    children; a structure that has one is finite and has no cycle below its top node. Breadth-first
    and depth-first orders are defined on shapes. */
module Shapes {

  datatype Shape<N> = Shape(node: N, kids: seq<Shape<N>>)

  /** Number of nodes in the unfolding (a node reached twice counts twice). */
  function Size<N>(s: Shape<N>): nat
    decreases s
  {
    1 + TotalSize(s.kids)
  }

  function TotalSize<N>(q: seq<Shape<N>>): nat
    decreases q
  {
    if q == [] then 0 else Size(q[0]) + TotalSize(q[1..])
  }

  lemma {:induction false} TotalSizeAppend<N>(a: seq<Shape<N>>, b: seq<Shape<N>>)
    ensures TotalSize(a + b) == TotalSize(a) + TotalSize(b)
  {
    if a != [] {
      assert (a + b)[1..] == a[1..] + b;
      TotalSizeAppend(a[1..], b);
    } else {
      assert a + b == b;
    }
  }

  /** The nodes of the queue `q` in breadth-first order: take the front, queue its children
      at the back. */
  function LevelOrder<N>(q: seq<Shape<N>>): seq<N>
    decreases TotalSize(q)
  {
    if q == [] then []
    else
      TotalSizeAppend(q[1..], q[0].kids);
      assert TotalSize(q) == 1 + TotalSize(q[0].kids) + TotalSize(q[1..]);
      [q[0].node] + LevelOrder(q[1..] + q[0].kids)
  }

  /** The nodes of `s` in depth-first pre-order. */
  function Preorder<N>(s: Shape<N>): seq<N>
    decreases s
  {
    [s.node] + PreorderAll(s.kids)
  }

  function PreorderAll<N>(q: seq<Shape<N>>): seq<N>
    decreases q
  {
    if q == [] then [] else Preorder(q[0]) + PreorderAll(q[1..])
  }

  lemma {:induction false} PreorderAllAppend<N>(a: seq<Shape<N>>, b: seq<Shape<N>>)
    ensures multiset(PreorderAll(a + b)) == multiset(PreorderAll(a)) + multiset(PreorderAll(b))
  {
    if a == [] {
      assert a + b == b;
    } else {
      assert (a + b)[1..] == a[1..] + b;
      PreorderAllAppend(a[1..], b);
    }
  }

  /** Breadth-first and depth-first order visit the same nodes, each as often. */
  lemma {:induction false} LevelOrderIsPermutation<N>(q: seq<Shape<N>>)
    ensures multiset(LevelOrder(q)) == multiset(PreorderAll(q))
    decreases TotalSize(q)
  {
    if q != [] {
      TotalSizeAppend(q[1..], q[0].kids);
      assert TotalSize(q) == 1 + TotalSize(q[0].kids) + TotalSize(q[1..]);
      LevelOrderIsPermutation(q[1..] + q[0].kids);
      PreorderAllAppend(q[1..], q[0].kids);
    }
  }

  /** The set of nodes of `s`. */
  function NodesOf<N>(s: Shape<N>): (r: set<N>)
    ensures s.node in r
    ensures forall i :: 0 <= i < |s.kids| ==> NodesOf(s.kids[i]) <= r
    decreases s
  {
    {s.node} + NodesOfAll(s.kids)
  }

  /** The set of nodes of the shapes in `q`. */
  function NodesOfAll<N>(q: seq<Shape<N>>): (r: set<N>)
    ensures forall i :: 0 <= i < |q| ==> NodesOf(q[i]) <= r
    decreases q
  {
    if q == [] then {}
    else
      var r := NodesOf(q[0]) + NodesOfAll(q[1..]);
      assert forall i :: 1 <= i < |q| ==> q[i] == q[1..][i - 1];
      r
  }

  /** The nodes of two queues together. */
  lemma {:induction false} NodesOfAllAppend<N>(a: seq<Shape<N>>, b: seq<Shape<N>>)
    ensures NodesOfAll(a + b) == NodesOfAll(a) + NodesOfAll(b)
  {
    if a == [] {
      assert a + b == b;
    } else {
      assert (a + b)[1..] == a[1..] + b;
      NodesOfAllAppend(a[1..], b);
    }
  }

  /** A node of a queue is a node of one of its shapes. */
  lemma {:induction false} InNodesOfAll<N>(q: seq<Shape<N>>, n: N)
    requires n in NodesOfAll(q)
    ensures exists j :: 0 <= j < |q| && n in NodesOf(q[j])
    decreases q
  {
    if n !in NodesOf(q[0]) {
      InNodesOfAll(q[1..], n);
      var j :| 0 <= j < |q[1..]| && n in NodesOf(q[1..][j]);
      assert q[1..][j] == q[j + 1];
    }
  }

  /** Every node the pre-order lists is a node of the shapes, and conversely. */
  lemma {:induction false} PreorderAllCoversNodes<N>(q: seq<Shape<N>>)
    ensures forall n :: n in PreorderAll(q) <==> n in NodesOfAll(q)
    decreases q
  {
    if q != [] {
      PreorderAllCoversNodes(q[0].kids);
      PreorderAllCoversNodes(q[1..]);
      assert PreorderAll(q) == [q[0].node] + PreorderAll(q[0].kids) + PreorderAll(q[1..]);
      assert NodesOfAll(q) == {q[0].node} + NodesOfAll(q[0].kids) + NodesOfAll(q[1..]);
    }
  }

  /** Breadth-first order from `s` lists exactly the nodes of `s`. */
  lemma LevelOrderCovers<N>(s: Shape<N>)
    ensures forall n :: n in LevelOrder([s]) <==> n in NodesOf(s)
  {
    LevelOrderIsPermutation([s]);
    PreorderAllCoversNodes([s]);
    assert NodesOfAll([s]) == NodesOf(s) + NodesOfAll([]);
    forall n ensures n in LevelOrder([s]) <==> n in PreorderAll([s]) {
      assert n in LevelOrder([s]) <==> n in multiset(LevelOrder([s]));
      assert n in PreorderAll([s]) <==> n in multiset(PreorderAll([s]));
    }
  }
}
