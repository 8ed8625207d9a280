/** The pointer tree of tree_rs/src/lib.rs: each node holds its children in order and a
    reference to its parent. The weak parent reference is modelled as a plain nullable reference;
    a reference that no longer upgrades reads as no parent. Locks are left out. */
module Pointer {
  import opened Wrappers
  import opened Seqs
  import opened Shapes
  import opened Forest

  class Node {
    const id: string
    var children: seq<Node>
    var parent: Node?

    /** Node::new, with the generated uuid passed in as `id`. */
    constructor (id: string, parent: Node?)
      ensures this.id == id && children == [] && this.parent == parent
    {
      this.id := id;
      children := [];
      this.parent := parent;
    }
  }

  /** `s` unfolds the children links below `s.node` exactly as they are on the heap. A node that
      has such a shape reaches only finitely many nodes, and none of them leads back to it. */
  ghost predicate Mirrors(s: Shape<Node>)
    reads NodesOf(s)`children
    decreases s
  {
    && |s.node.children| == |s.kids|
    && forall i :: 0 <= i < |s.kids| ==> s.node.children[i] == s.kids[i].node && Mirrors(s.kids[i])
  }

  /** Every node of `s` is allocated, so changes elsewhere on the heap leave its links alone. */
  lemma {:induction false} NodesAllocated(s: Shape<Node>)
    ensures forall m :: m in NodesOf(s) ==> allocated(m)
    decreases s
  {
    NodesAllocatedAll(s.kids);
  }

  lemma {:induction false} NodesAllocatedAll(q: seq<Shape<Node>>)
    ensures forall m :: m in NodesOfAll(q) ==> allocated(m)
    decreases q
  {
    if q != [] {
      NodesAllocated(q[0]);
      NodesAllocatedAll(q[1..]);
    }
  }

  /** The first node of `order` whose id is `id`, or null when no node has it. */
  function FirstWithId(order: seq<Node>, id: string): (r: Node?)
    ensures r == null <==> forall n :: n in order ==> n.id != id
    ensures r != null ==>
      exists k :: 0 <= k < |order| && order[k] == r && r.id == id &&
                  forall j :: 0 <= j < k ==> order[j].id != id
  {
    if order == [] then null
    else if order[0].id == id then order[0]
    else
      var r := FirstWithId(order[1..], id);
      assert forall j :: 1 <= j < |order| ==> order[j] == order[1..][j - 1];
      r
  }

  /** `chain` is what get_ancestors collects from `n`: its parent, that node's parent, and so on,
      ending at the first node that has no parent. */
  ghost predicate IsAncestorChain(n: Node, chain: seq<Node>)
    reads n, chain
  {
    if chain == [] then n.parent == null
    else
      && n.parent == chain[0]
      && (forall i :: 0 <= i < |chain| - 1 ==> chain[i].parent == chain[i + 1])
      && chain[|chain| - 1].parent == null
  }

  /** The rest of an ancestor chain is the ancestor chain of its first node. */
  lemma ChainTail(n: Node, chain: seq<Node>)
    requires IsAncestorChain(n, chain) && chain != []
    ensures IsAncestorChain(chain[0], chain[1..])
  {
    if |chain| > 1 {
      assert chain[0].parent == chain[1];
    }
  }

  /** What follows position `k` of an ancestor chain is the ancestor chain of `chain[k]`. */
  lemma {:induction false} ChainSuffix(n: Node, chain: seq<Node>, k: nat)
    requires IsAncestorChain(n, chain) && k < |chain|
    ensures IsAncestorChain(chain[k], chain[k + 1..])
  {
    if k + 1 < |chain| {
      assert chain[k].parent == chain[k + 1];
      var rest := chain[k + 1..];
      forall i | 0 <= i < |rest| - 1 ensures rest[i].parent == rest[i + 1] {
        assert chain[k + 1 + i].parent == chain[k + 2 + i];
      }
    }
  }

  /** A node has at most one ancestor chain. */
  lemma {:induction false} ChainUnique(n: Node, c1: seq<Node>, c2: seq<Node>)
    requires IsAncestorChain(n, c1) && IsAncestorChain(n, c2)
    ensures c1 == c2
    decreases |c1|
  {
    if c1 != [] {
      assert c2 != [] && c1[0] == c2[0];
      ChainTail(n, c1);
      ChainTail(n, c2);
      ChainUnique(c1[0], c1[1..], c2[1..]);
      assert c1 == [c1[0]] + c1[1..];
      assert c2 == [c2[0]] + c2[1..];
    }
  }

  /** An ancestor chain never revisits a node and never contains the node it starts from. */
  lemma {:induction false} ChainIsSimple(n: Node, chain: seq<Node>)
    requires IsAncestorChain(n, chain)
    ensures n !in chain
    ensures forall i, j :: 0 <= i < j < |chain| ==> chain[i] != chain[j]
    decreases |chain|
  {
    if chain != [] {
      ChainTail(n, chain);
      ChainIsSimple(chain[0], chain[1..]);
      if n in chain {
        var k :| 0 <= k < |chain| && chain[k] == n;
        ChainSuffix(n, chain, k);
        ChainUnique(n, chain, chain[k + 1..]);
        assert false;
      }
      forall i, j | 0 <= i < j < |chain| ensures chain[i] != chain[j] {
        assert chain[j] == chain[1..][j - 1];
        if i > 0 {
          assert chain[i] == chain[1..][i - 1];
        }
      }
    }
  }

  /** A node that is its own parent has no ancestor chain: get_ancestors on it never returns. */
  lemma SelfParentHasNoChain(n: Node, chain: seq<Node>)
    requires n.parent == n
    ensures !IsAncestorChain(n, chain)
  {
    if IsAncestorChain(n, chain) {
      ChainIsSimple(n, chain);
    }
  }

  /** get_ancestors_recursive: appends the ancestors of `n` to `collection`. */
  method CollectAncestors(n: Node, collection: seq<Node>, ghost chain: seq<Node>)
    returns (collected: seq<Node>)
    requires IsAncestorChain(n, chain)
    ensures collected == collection + chain
    decreases |chain|
  {
    collected := collection;
    if n.parent != null {
      var parent := n.parent;
      ChainTail(n, chain);
      collected := CollectAncestors(parent, collection + [parent], chain[1..]);
      assert chain == [chain[0]] + chain[1..];
    }
  }

  /** The queue of nodes and the queue of their shapes agree entry by entry. */
  ghost predicate QueueMirrors(queue: seq<Node>, shapes: seq<Shape<Node>>)
    reads (set i, n | 0 <= i < |shapes| && n in NodesOf(shapes[i]) :: n)`children
  {
    && |queue| == |shapes|
    && forall i :: 0 <= i < |shapes| ==> shapes[i].node == queue[i] && Mirrors(shapes[i])
  }

  /** One breadth-first step: the front leaves the queue and its children join at the back. */
  lemma QueueStep(queue: seq<Node>, shapes: seq<Shape<Node>>)
    requires QueueMirrors(queue, shapes) && queue != []
    ensures QueueMirrors(queue[1..] + queue[0].children, shapes[1..] + shapes[0].kids)
  {
    var q', s' := queue[1..] + queue[0].children, shapes[1..] + shapes[0].kids;
    assert Mirrors(shapes[0]);
    forall i | 0 <= i < |s'| ensures s'[i].node == q'[i] && Mirrors(s'[i]) {
      if i < |shapes| - 1 {
        assert s'[i] == shapes[i + 1];
      } else {
        assert s'[i] == shapes[0].kids[i - (|shapes| - 1)];
      }
    }
  }

  /** The breadth-first order of a non-empty queue unfolds once, and the unfolded queue is
      smaller. */
  lemma LevelOrderStep(q: seq<Shape<Node>>)
    requires q != []
    ensures LevelOrder(q) == [q[0].node] + LevelOrder(q[1..] + q[0].kids)
    ensures TotalSize(q[1..] + q[0].kids) < TotalSize(q)
  {
    TotalSizeAppend(q[1..], q[0].kids);
  }

  /** A node is in the breadth-first order of `s` exactly when it is a node of `s`. */
  lemma InLevelOrder(s: Shape<Node>, n: Node)
    ensures n in LevelOrder([s]) <==> n in NodesOf(s)
  {
    LevelOrderCovers(s);
  }

  /** What FirstWithId over the breadth-first order says about the nodes of the shape. */
  lemma FoundInShape(s: Shape<Node>, id: string)
    ensures FirstWithId(LevelOrder([s]), id) != null ==>
      FirstWithId(LevelOrder([s]), id).id == id && FirstWithId(LevelOrder([s]), id) in NodesOf(s)
    ensures FirstWithId(LevelOrder([s]), id) == null <==> forall n :: n in NodesOf(s) ==> n.id != id
  {
    var r := FirstWithId(LevelOrder([s]), id);
    if r != null {
      InLevelOrder(s, r);
    }
    if forall n :: n in NodesOf(s) ==> n.id != id {
      forall n | n in LevelOrder([s]) ensures n.id != id {
        InLevelOrder(s, n);
      }
    } else {
      var m :| m in NodesOf(s) && m.id == id;
      InLevelOrder(s, m);
    }
  }

  /** The links of the nodes in `nodes`: each node's children, and its parent when it has one. */
  ghost function View(nodes: set<Node>): (l: Links<Node>)
    reads nodes
    ensures l.kids.Keys == nodes && l.up.Keys == nodes
  {
    Links(map n | n in nodes :: n.children,
          map n | n in nodes :: if n.parent == null then None else Some(n.parent as Node))
  }

  /** Within nodes whose links agree, the chain get_ancestors follows is the chain of the
      links. */
  lemma {:induction false} ChainInView(nodes: set<Node>, root: Node, n: Node, chain: seq<Node>)
    requires Consistent(View(nodes), root) && n in nodes && IsAncestorChain(n, chain)
    ensures UpChain(View(nodes), n, chain)
    decreases |chain|
  {
    if chain != [] {
      ChainTail(n, chain);
      ChainInView(nodes, root, chain[0], chain[1..]);
    }
  }

  /** The links after the first entry of `tgt` left its parent's children, from what each node
      then holds. */
  lemma DetachedView(nodes: set<Node>, v0: Links<Node>, tgt: Node)
    requires v0.kids.Keys == nodes && v0.up.Keys == nodes && tgt in nodes
    requires forall n :: n in nodes ==> View(nodes).up[n] == v0.up[n]
    requires forall n :: n in nodes && v0.up[tgt] != Some(n) ==> n.children == v0.kids[n]
    requires v0.up[tgt].Some? && v0.up[tgt].value in nodes ==>
      v0.up[tgt].value.children == RemoveFirst(v0.kids[v0.up[tgt].value], tgt)
    ensures View(nodes) == Detach(v0, tgt)
  {
    var v1, d := View(nodes), Detach(v0, tgt);
    assert v1.kids == d.kids;
    assert v1.up == d.up;
  }

  /** The links after `tgt` joined `np`'s children and points at it, from what each node then
      holds. */
  lemma AttachedView(nodes: set<Node>, v0: Links<Node>, tgt: Node, np: Node)
    requires v0.kids.Keys == nodes && v0.up.Keys == nodes && tgt in nodes && np in nodes
    requires forall n :: n in nodes && n != tgt ==> View(nodes).up[n] == v0.up[n]
    requires tgt.parent == np
    requires forall n :: n in nodes && n != np ==> n.children == v0.kids[n]
    requires np.children == v0.kids[np] + [tgt]
    ensures View(nodes) == Attach(v0, tgt, np)
  {
    var v1, a := View(nodes), Attach(v0, tgt, np);
    assert v1.kids == a.kids;
    assert v1.up == a.up;
  }

  /** The links after add_child's updates, from what each node then holds. */
  lemma AddedView(nodes: set<Node>, v0: Links<Node>, child: Node, p: Node)
    requires v0.kids.Keys == nodes && v0.up.Keys == nodes && p in nodes && child !in nodes
    requires forall n :: n in nodes ==> View(nodes + {child}).up[n] == v0.up[n]
    requires child.parent == p && child.children == []
    requires forall n :: n in nodes && n != p ==> n.children == v0.kids[n]
    requires p.children == v0.kids[p] + [child]
    ensures View(nodes + {child}) == Add(v0, child, p)
  {
    var v1, a := View(nodes + {child}), Add(v0, child, p);
    assert v1.kids == a.kids;
    assert v1.up == a.up;
  }

  /** The node `move_node` may detach `tgt` from. */
  function ParentFrame(tgt: Node): set<Node>
    reads tgt
  {
    if tgt.parent != null then {tgt.parent} else {}
  }

  /** The first half of a move that goes ahead: the first entry identical to `tgt` leaves its
      parent's children. */
  method DetachFromParent(tgt: Node, ghost nodes: set<Node>)
    requires tgt.parent != tgt
    modifies ParentFrame(tgt)
    ensures old(tgt.parent) != null ==>
      old(tgt.parent).children == RemoveFirst(old(tgt.parent.children), tgt)
      && old(tgt.parent).parent == old(tgt.parent.parent)
    ensures tgt in nodes ==> View(nodes) == Detach(old(View(nodes)), tgt)
  {
    ghost var v0 := View(nodes);
    if tgt.parent != null {
      var parent := tgt.parent;
      var index := IndexOf(parent.children, tgt);
      if index < |parent.children| {
        parent.children := parent.children[..index] + parent.children[index + 1..];
      }
    }
    if tgt in nodes {
      DetachedView(nodes, v0, tgt);
    }
  }

  /** The second half of a move that goes ahead: `tgt` is appended to `newParent`'s children
      and points at it. */
  method AppendUnder(tgt: Node, newParent: Node, ghost chain: seq<Node>, ghost nodes: set<Node>)
    requires IsAncestorChain(newParent, chain) && tgt !in chain
    modifies tgt, newParent
    ensures tgt.parent == newParent
    ensures newParent.children == old(newParent.children) + [tgt]
    ensures tgt != newParent ==>
      tgt.children == old(tgt.children) && newParent.parent == old(newParent.parent)
    ensures tgt != newParent ==> IsAncestorChain(tgt, [newParent] + chain)
    ensures tgt in nodes && newParent in nodes ==> View(nodes) == Attach(old(View(nodes)), tgt, newParent)
  {
    ghost var v0 := View(nodes);
    newParent.children := newParent.children + [tgt];
    tgt.parent := newParent;
    if tgt != newParent {
      assert forall i :: 0 <= i < |chain| ==> chain[i] != tgt;
      assert newParent.parent == (if chain == [] then null else chain[0]);
    }
    if tgt in nodes && newParent in nodes {
      AttachedView(nodes, v0, tgt, newParent);
    }
  }

  /** The nodes in `nodes` form one tree below `root`: the links agree both ways and every
      parent chain ends at `root`. */
  ghost predicate Valid(nodes: set<Node>, root: Node)
    reads nodes
  {
    root in nodes && IsTree(View(nodes), root)
  }

  /** In a tree, a node other than the root has its parent in the tree; the parent lists it
      exactly once, and no other node lists it. */
  lemma ListedByParent(nodes: set<Node>, root: Node, n: Node)
    requires Valid(nodes, root) && n in nodes && n != root
    ensures n.parent != null && n.parent in nodes && Count(n.parent.children, n) == 1
    ensures forall m :: m in nodes && n in m.children ==> m == n.parent
  {
    var v := View(nodes);
    assert v.up[n] == Some(n.parent);
    assert v.kids[n.parent] == n.parent.children;
    forall m | m in nodes && n in m.children
      ensures m == n.parent
    {
      assert v.kids[m] == m.children;
    }
  }

  /** In a tree no node is its own parent, and the ancestor chain read off the links is the one
      get_ancestors follows. */
  lemma ChainOfNode(nodes: set<Node>, root: Node, n: Node) returns (chain: seq<Node>)
    requires Valid(nodes, root) && n in nodes
    ensures n.parent != n && IsAncestorChain(n, chain) && UpChain(View(nodes), n, chain)
  {
    var v := View(nodes);
    chain := ChainOf(v, n, |v.up.Keys|);
    UpChainSimple(v, n, chain);
    HeapChain(nodes, n, chain);
  }

  /** A chain of the links is the ancestor chain on the heap. */
  lemma {:induction false} HeapChain(nodes: set<Node>, n: Node, chain: seq<Node>)
    requires UpChain(View(nodes), n, chain)
    ensures IsAncestorChain(n, chain)
    decreases |chain|
  {
    if chain != [] {
      HeapChain(nodes, chain[0], chain[1..]);
    }
  }

  /** A move of `tgt` under `np`, inside a tree and with `tgt` off `np`'s ancestor chain,
      leaves a tree in which `np` is the one node that lists `tgt`, exactly once. */
  lemma MoveKeepsValid(nodes: set<Node>, v0: Links<Node>, root: Node, tgt: Node, np: Node,
                       chain: seq<Node>)
    requires v0.up.Keys == nodes && root in nodes && IsTree(v0, root)
    requires tgt in nodes && np in nodes && tgt != np && UpChain(v0, np, chain) && tgt !in chain
    requires View(nodes) == Move(v0, tgt, np)
    ensures Valid(nodes, root) && tgt != root && tgt.parent == np
    ensures Count(np.children, tgt) == 1
    ensures forall m :: m in nodes && tgt in m.children ==> m == np
  {
    MoveKeepsTree(v0, root, tgt, np, chain);
    assert View(nodes).up[tgt] == Some(np);
    ListedByParent(nodes, root, tgt);
  }

  /** add_child of a new node without children under a node of a tree leaves a tree in which
      the target is the one node that lists the child, exactly once. */
  lemma AddKeepsValid(nodes: set<Node>, v0: Links<Node>, root: Node, child: Node, p: Node)
    requires v0.up.Keys == nodes && v0.kids.Keys == nodes && root in nodes && IsTree(v0, root)
    requires p in nodes && child !in nodes
    requires View(nodes + {child}) == Add(v0, child, p)
    ensures Valid(nodes + {child}, root) && child.parent == p
    ensures Count(p.children, child) == 1
    ensures forall m :: m in nodes + {child} && child in m.children ==> m == p
  {
    AddKeepsTree(v0, root, child, p);
    assert View(nodes + {child}).up[child] == Some(p);
    ListedByParent(nodes + {child}, root, child);
  }

  /** The unfolded tree below a node of a tree mirrors the heap. */
  lemma MirrorsUnfold(nodes: set<Node>, root: Node, n: Node)
    requires Valid(nodes, root) && n in nodes
    ensures Mirrors(Unfold(View(nodes), root, n))
    decreases |View(nodes).up.Keys| - Depth(View(nodes), n, |View(nodes).up.Keys|)
  {
    var l := View(nodes);
    var s := Unfold(l, root, n);
    assert l.kids[n] == n.children;
    forall i | 0 <= i < |s.kids|
      ensures n.children[i] == s.kids[i].node && Mirrors(s.kids[i])
    {
      UnfoldKidsAt(l, root, n, l.kids[n], i);
      DepthStep(l, root, n, l.kids[n][i]);
      MirrorsUnfold(nodes, root, l.kids[n][i]);
    }
  }

  /** The children of a node of a mirroring shape are nodes of the shape. */
  lemma {:induction false} ChildrenInShape(s: Shape<Node>, p: Node)
    requires Mirrors(s) && p in NodesOf(s)
    ensures forall x :: x in p.children ==> x in NodesOf(s)
    decreases s
  {
    if p == s.node {
      forall x | x in p.children
        ensures x in NodesOf(s)
      {
        var i :| 0 <= i < |p.children| && p.children[i] == x;
        assert x == s.kids[i].node;
      }
    } else {
      InNodesOfAll(s.kids, p);
      var j :| 0 <= j < |s.kids| && p in NodesOf(s.kids[j]);
      ChildrenInShape(s.kids[j], p);
    }
  }

  /** A shape that mirrors the heap from the root of a tree holds every node of the tree
      whose parent chain is `c`. */
  lemma {:induction false} ReachedFromRoot(nodes: set<Node>, root: Node, s: Shape<Node>, n: Node,
                                           c: seq<Node>)
    requires Valid(nodes, root) && s.node == root && Mirrors(s) && UpChain(View(nodes), n, c)
    ensures n in NodesOf(s)
    decreases |c|
  {
    var l := View(nodes);
    if c != [] {
      ReachedFromRoot(nodes, root, s, c[0], c[1..]);
      ChildrenInShape(s, c[0]);
      CountZero(l.kids[c[0]], n);
      assert l.kids[c[0]] == c[0].children;
    }
  }

  /** A shape that mirrors the heap from a node of a tree holds only nodes of the tree. */
  lemma {:induction false} ShapeInTree(nodes: set<Node>, root: Node, s: Shape<Node>)
    requires Valid(nodes, root) && s.node in nodes && Mirrors(s)
    ensures NodesOf(s) <= nodes
    decreases s
  {
    var l := View(nodes);
    assert l.kids[s.node] == s.node.children;
    forall i | 0 <= i < |s.kids|
      ensures NodesOf(s.kids[i]) <= nodes
    {
      assert s.kids[i].node in l.kids[s.node];
      ShapeInTree(nodes, root, s.kids[i]);
    }
    forall x | x in NodesOfAll(s.kids)
      ensures x in nodes
    {
      InNodesOfAll(s.kids, x);
    }
  }

  /** A shape that mirrors the heap from the root of a tree holds exactly the nodes of the
      tree, and one exists. */
  lemma TreeShape(nodes: set<Node>, root: Node) returns (s: Shape<Node>)
    requires Valid(nodes, root)
    ensures s.node == root && Mirrors(s) && NodesOf(s) == nodes
  {
    s := Unfold(View(nodes), root, root);
    MirrorsUnfold(nodes, root, root);
    ShapeInTree(nodes, root, s);
    forall n | n in nodes
      ensures n in NodesOf(s)
    {
      var c := ChainOf(View(nodes), n, |View(nodes).up.Keys|);
      ReachedFromRoot(nodes, root, s, n, c);
    }
  }

  /** After add_child of a new node with an id no node of the tree has, the walk from the root
      meets that node and no other node with its id. */
  lemma AddedShape(nodes: set<Node>, v0: Links<Node>, root: Node, child: Node, p: Node)
    returns (s: Shape<Node>)
    requires v0.up.Keys == nodes && v0.kids.Keys == nodes && root in nodes && IsTree(v0, root)
    requires p in nodes && child !in nodes && forall n :: n in nodes ==> n.id != child.id
    requires View(nodes + {child}) == Add(v0, child, p)
    ensures Valid(nodes + {child}, root) && child.parent == p
    ensures s.node == root && Mirrors(s) && child in NodesOf(s)
    ensures forall n :: n in NodesOf(s) && n.id == child.id ==> n == child
  {
    AddKeepsValid(nodes, v0, root, child, p);
    s := TreeShape(nodes + {child}, root);
  }

  class Tree {
    var root: Node

    /** Tree::new: the supplied root, or a fresh node with id `freshId` and no links. */
    constructor (root: Node?, freshId: string)
      ensures root != null ==> this.root == root
      ensures root == null ==> fresh(this.root) && this.root.id == freshId
      ensures root == null ==> this.root.children == [] && this.root.parent == null
    {
      if root != null {
        this.root := root;
      } else {
        this.root := new Node(freshId, null);
      }
    }

    /** The node `add_child` links under: the given parent, otherwise the root. */
    function LinkTarget(parent: Node?): Node
      reads this
    {
      if parent != null then parent else root
    }

    /** add_child: appends `child` to the link target's children and points `child` at it. An
        earlier parent keeps listing `child`. For a new node without children, the links of
        the nodes change as `Add` says. */
    method AddChild(child: Node, parent: Node?, ghost nodes: set<Node>)
      modifies LinkTarget(parent), child
      ensures LinkTarget(parent).children == old(LinkTarget(parent).children) + [child]
      ensures child.parent == LinkTarget(parent)
      ensures child != LinkTarget(parent) ==> child.children == old(child.children)
      ensures child != LinkTarget(parent) ==> LinkTarget(parent).parent == old(LinkTarget(parent).parent)
      ensures LinkTarget(parent) in nodes && child !in nodes && old(child.children) == [] ==>
        View(nodes + {child}) == Add(old(View(nodes)), child, LinkTarget(parent))
    {
      ghost var v0, empty0 := View(nodes), child.children == [];
      var target := LinkTarget(parent);
      target.children := target.children + [child];
      child.parent := target;
      if target in nodes && child !in nodes && empty0 {
        AddedView(nodes, v0, child, target);
      }
    }

    /** find_by_id: a breadth-first walk from the root, children in order, returning the first
        node with the id; null when no node below the root has it. */
    method FindById(id: string, ghost s: Shape<Node>) returns (r: Node?)
      requires s.node == root && Mirrors(s) // the walk from the root is finite
      ensures r == FirstWithId(LevelOrder([s]), id)
      ensures r != null ==> r.id == id && r in NodesOf(s)
      ensures r == null <==> forall n :: n in NodesOf(s) ==> n.id != id
    {
      var queue := [root];
      ghost var shapes := [s];
      while queue != []
        invariant QueueMirrors(queue, shapes)
        invariant FirstWithId(LevelOrder(shapes), id) == FirstWithId(LevelOrder([s]), id)
        decreases TotalSize(shapes)
      {
        var node := queue[0];
        ghost var shape := shapes[0];
        LevelOrderStep(shapes);
        if node.id == id {
          r := node;
          FoundInShape(s, id);
          return;
        }
        QueueStep(queue, shapes);
        queue := queue[1..] + node.children;
        shapes := shapes[1..] + shape.kids;
      }
      r := null;
      FoundInShape(s, id);
    }

    /** add_child of a new node without children under a node of a tree: the nodes with the
        new one form a tree, in which the target is the one node that lists the new node,
        exactly once. */
    method AddChildInTree(child: Node, parent: Node?, ghost nodes: set<Node>)
      requires Valid(nodes, root) && LinkTarget(parent) in nodes
      requires child !in nodes && child.children == []
      modifies LinkTarget(parent), child
      ensures Valid(nodes + {child}, root) && child.parent == LinkTarget(parent)
      ensures Count(LinkTarget(parent).children, child) == 1
      ensures forall m :: m in nodes + {child} && child in m.children ==> m == LinkTarget(parent)
    {
      ghost var v0 := View(nodes);
      AddChild(child, parent, nodes);
      AddKeepsValid(nodes, v0, root, child, LinkTarget(parent));
    }

    /** add_child of a new node with an id no node of the tree has, followed by find_by_id of
        that id: the walk finds the new node. */
    method AddChildThenFind(child: Node, parent: Node?, ghost nodes: set<Node>) returns (found: Node?)
      requires Valid(nodes, root) && LinkTarget(parent) in nodes
      requires child !in nodes && child.children == []
      requires forall n :: n in nodes ==> n.id != child.id
      modifies LinkTarget(parent), child
      ensures found == child && child.parent == LinkTarget(parent)
    {
      ghost var v0, target := View(nodes), LinkTarget(parent);
      AddChild(child, parent, nodes);
      ghost var s := AddedShape(nodes, v0, root, child, target);
      found := FindById(child.id, s);
    }

    /** get_ancestors: the parent first, the root last; a node without a parent has none. */
    method GetAncestors(node: Node, ghost chain: seq<Node>) returns (ancestors: seq<Node>)
      requires IsAncestorChain(node, chain) // the walk ends
      ensures IsAncestorChain(node, ancestors)
    {
      ancestors := CollectAncestors(node, [], chain);
    }

    /** move_node: refused, with nothing changed, when `tgt` is among the ancestors of
        `newParent`; otherwise the first entry identical to `tgt` leaves its parent's children,
        `tgt` is appended to `newParent`'s children and `tgt` points at `newParent`. Only strict
        ancestors are refused: moving a node under itself goes ahead and makes it its own
        parent. */
    method MoveNode(tgt: Node, newParent: Node, ghost chain: seq<Node>, ghost nodes: set<Node>)
      returns (moved: bool)
      requires IsAncestorChain(newParent, chain) // get_ancestors(newParent) ends
      requires tgt.parent != tgt // `tgt`'s lock is held while its parent is locked
      modifies tgt, newParent, ParentFrame(tgt)
      ensures moved <==> tgt !in chain
      ensures !moved ==> unchanged(tgt, newParent) && unchanged(old(ParentFrame(tgt)))
      ensures moved ==> tgt.parent == newParent
      ensures moved ==>
        newParent.children ==
          (if newParent == old(tgt.parent) then RemoveFirst(old(newParent.children), tgt)
           else old(newParent.children)) + [tgt]
      ensures moved && old(tgt.parent) != null && old(tgt.parent) != newParent ==>
        old(tgt.parent).children == RemoveFirst(old(tgt.parent.children), tgt)
      ensures moved && old(tgt.parent) != null ==> old(tgt.parent).parent == old(tgt.parent.parent)
      ensures moved && tgt != newParent ==>
        tgt.children == old(tgt.children) && newParent.parent == old(newParent.parent)
      ensures moved && tgt != newParent ==> IsAncestorChain(tgt, [newParent] + chain)
      ensures moved && tgt == newParent ==> tgt.parent == tgt && tgt in tgt.children
      ensures moved && tgt in nodes && newParent in nodes ==>
        View(nodes) == Move(old(View(nodes)), tgt, newParent)
    {
      var ancestors := GetAncestors(newParent, chain);
      ChainUnique(newParent, ancestors, chain);
      if tgt in ancestors {
        return false;
      }
      DetachFromParent(tgt, nodes);
      AppendUnder(tgt, newParent, chain, nodes);
      moved := true;
    }

    /** move_node on a tree, with get_ancestors' chain read off the links: a move that goes ahead
        leaves a tree in which `newParent` is the one node that lists `tgt`, exactly once. */
    method MoveNodeInTree(tgt: Node, newParent: Node, ghost nodes: set<Node>) returns (moved: bool)
      requires Valid(nodes, root) && tgt in nodes && newParent in nodes && tgt != newParent
      modifies tgt, newParent, ParentFrame(tgt)
      ensures moved <==> tgt !in Ancestors(old(View(nodes)), newParent, |nodes|)
      ensures !moved ==> unchanged(tgt, newParent) && unchanged(old(ParentFrame(tgt)))
      ensures moved ==> Valid(nodes, root) && tgt.parent == newParent
      ensures moved ==> Count(newParent.children, tgt) == 1
      ensures moved ==> forall m :: m in nodes && tgt in m.children ==> m == newParent
      ensures moved ==>
        Ancestors(View(nodes), tgt, |nodes|) == [newParent] + Ancestors(old(View(nodes)), newParent, |nodes|)
    {
      ghost var v0 := View(nodes);
      ghost var chain := ChainOfNode(nodes, root, newParent);
      ghost var tgtChain := ChainOfNode(nodes, root, tgt);
      ChainShort(v0, newParent, chain);
      AncestorsOfChain(v0, newParent, chain, |nodes|);
      moved := MoveNode(tgt, newParent, chain, nodes);
      if moved {
        MoveKeepsValid(nodes, v0, root, tgt, newParent, chain);
        MoveAncestors(v0, tgt, newParent, chain);
      }
    }

    /** move_node refusing a move of a node under itself as well as under a descendant, the
        intent its message at tree_rs/src/lib.rs:74-75 states: a successful move always leaves
        `tgt` a finite ancestor chain. */
    method MoveNodeRefusingSelf(tgt: Node, newParent: Node, ghost chain: seq<Node>, ghost nodes: set<Node>)
      returns (moved: bool)
      requires IsAncestorChain(newParent, chain)
      requires tgt.parent != tgt
      modifies tgt, newParent, ParentFrame(tgt)
      ensures moved <==> tgt != newParent && tgt !in chain
      ensures !moved ==> unchanged(tgt, newParent) && unchanged(old(ParentFrame(tgt)))
      ensures moved ==> IsAncestorChain(tgt, [newParent] + chain)
      ensures moved ==>
        newParent.children ==
        (if newParent == old(tgt.parent) then RemoveFirst(old(newParent.children), tgt)
         else old(newParent.children)) + [tgt]
      ensures moved && old(tgt.parent) != null && old(tgt.parent) != newParent ==>
        old(tgt.parent).children == RemoveFirst(old(tgt.parent.children), tgt)
      ensures moved ==> tgt.children == old(tgt.children)
      ensures moved && tgt in nodes && newParent in nodes ==>
        View(nodes) == Move(old(View(nodes)), tgt, newParent)
    {
      if tgt == newParent {
        return false;
      }
      moved := MoveNode(tgt, newParent, chain, nodes);
    }
  }
}
