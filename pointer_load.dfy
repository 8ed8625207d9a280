/** `Tree.load` and `Tree.export` of tree_py/src/lib.rs over the pointer tree: the nested record
    is materialised as nodes, the parent references are filled in depth-first, and the export
    walks the children from the root. The pointer node carries no payload, so only ids and
    structure travel through the heap. */
module PointerLoad {
  import opened Wrappers
  import opened Shapes
  import opened Records
  import opened Pointer

  /** The record of ids and child order that `s` unfolds, with no payload. */
  function Skeleton<D>(s: Shape<Node>): (r: Record<D>)
    ensures r.id == s.node.id && r.data == None && |r.children| == |s.kids|
    decreases s
  {
    Record(s.node.id, None, seq(|s.kids|, i requires 0 <= i < |s.kids| => Skeleton(s.kids[i])))
  }

  /** `r` with every payload dropped. */
  function Strip<D>(r: Record<D>): (t: Record<D>)
    ensures t.id == r.id && t.data == None && |t.children| == |r.children|
    decreases r
  {
    Record(r.id, None, seq(|r.children|, i requires 0 <= i < |r.children| => Strip(r.children[i])))
  }

  /** No node is reached twice in `s`: a node is not below itself and sibling subtrees share no
      node. */
  ghost predicate Disjoint(s: Shape<Node>)
    decreases s
  {
    && (forall i :: 0 <= i < |s.kids| ==> s.node !in NodesOf(s.kids[i]))
    && (forall i, j :: 0 <= i < j < |s.kids| ==> NodesOf(s.kids[i]) !! NodesOf(s.kids[j]))
    && (forall i :: 0 <= i < |s.kids| ==> Disjoint(s.kids[i]))
  }

  /** Every child in `s` refers back to the node whose children list it is in. */
  ghost predicate Linked(s: Shape<Node>)
    reads NodesOf(s)`parent
    decreases s
  {
    forall i :: 0 <= i < |s.kids| ==> s.kids[i].node.parent == s.node && Linked(s.kids[i])
  }

  /** `s` is what `Build` makes of `r`: links as unfolded, no node reached twice, the ids
      and child order of `r`, and no parent set yet. */
  ghost predicate BuiltFrom<D>(s: Shape<Node>, r: Record<D>)
    reads NodesOf(s)`children, NodesOf(s)`parent
  {
    && Mirrors(s) && Disjoint(s)
    && Skeleton(s) == Strip(r)
    && forall m :: m in NodesOf(s) ==> m.parent == null
  }

  /** The node allocation of `load_py_tree`: the children are built first, in order, then the
      node that lists them. Every node is new. */
  method Build<D>(r: Record<D>) returns (n: Node, ghost s: Shape<Node>)
    ensures s.node == n && BuiltFrom(s, r)
    ensures fresh(NodesOf(s))
    decreases r, 2
  {
    var kids;
    ghost var shapes;
    kids, shapes := BuildAll(r.children);
    NodesAllocatedAll(shapes);
    n := new Node(r.id, null);
    n.children := kids;
    s := Shape(n, shapes);
    SkeletonOfBuilt(s, r);
    DisjointOfBuilt(s);
    forall m | m in NodesOf(s) ensures m.parent == null {
      if m != n {
        InNodesOfAll(shapes, m);
      }
    }
  }

  /** The loop of `load_py_tree` over the children: each is built in turn, apart from the
      others. */
  method BuildAll<D>(rs: seq<Record<D>>) returns (kids: seq<Node>, ghost shapes: seq<Shape<Node>>)
    ensures |kids| == |shapes| == |rs|
    ensures forall j :: 0 <= j < |rs| ==> shapes[j].node == kids[j] && BuiltFrom(shapes[j], rs[j])
    ensures forall j, k :: 0 <= j < k < |rs| ==> NodesOf(shapes[j]) !! NodesOf(shapes[k])
    ensures fresh(NodesOfAll(shapes))
    decreases rs, 1
  {
    kids, shapes := [], [];
    var i := 0;
    while i < |rs|
      invariant 0 <= i <= |rs|
      invariant |kids| == |shapes| == i
      invariant forall j :: 0 <= j < i ==> shapes[j].node == kids[j] && BuiltFrom(shapes[j], rs[j])
      invariant forall j, k :: 0 <= j < k < i ==> NodesOf(shapes[j]) !! NodesOf(shapes[k])
      invariant fresh(NodesOfAll(shapes))
    {
      var c;
      ghost var cs;
      c, cs := BuildNext(shapes, rs, i);
      NodesOfAllAppend(shapes, [cs]);
      assert NodesOfAll([cs]) == NodesOf(cs) + NodesOfAll([]);
      forall j | 0 <= j < i ensures NodesOf(shapes[j]) !! NodesOf(cs) {
        assert NodesOf(shapes[j]) <= NodesOfAll(shapes);
      }
      ghost var shapes' := shapes + [cs];
      var kids' := kids + [c];
      forall j | 0 <= j < i + 1 ensures shapes'[j].node == kids'[j] && BuiltFrom(shapes'[j], rs[j]) {
        if j < i {
          assert shapes'[j] == shapes[j] && kids'[j] == kids[j];
        }
      }
      kids, shapes := kids', shapes';
      i := i + 1;
    }
  }

  /** Builds the next child, leaving the `i` children built so far as they are. */
  method BuildNext<D>(ghost shapes: seq<Shape<Node>>, rs: seq<Record<D>>, i: nat)
    returns (c: Node, ghost cs: Shape<Node>)
    requires |shapes| == i < |rs|
    requires forall j :: 0 <= j < i ==> BuiltFrom(shapes[j], rs[j])
    ensures forall j :: 0 <= j < i ==> BuiltFrom(shapes[j], rs[j])
    ensures cs.node == c && BuiltFrom(cs, rs[i])
    ensures fresh(NodesOf(cs))
    ensures NodesOfAll(shapes) !! NodesOf(cs)
    decreases rs[i], 3
  {
    NodesAllocatedAll(shapes);
    c, cs := Build(rs[i]);
    forall m | m in NodesOf(cs) ensures m !in NodesOfAll(shapes) {
    }
    forall j | 0 <= j < i ensures BuiltFrom(shapes[j], rs[j]) {
      assert NodesOf(shapes[j]) <= NodesOfAll(shapes);
    }
  }

  /** A node whose child shapes unfold the stripped children of `r` unfolds `r` stripped. */
  lemma SkeletonOfBuilt<D>(s: Shape<Node>, r: Record<D>)
    requires s.node.id == r.id && |s.kids| == |r.children|
    requires forall j :: 0 <= j < |s.kids| ==> Skeleton(s.kids[j]) == Strip(r.children[j])
    ensures Skeleton(s) == Strip(r)
  {
    assert Skeleton<D>(s).children == Strip(r).children;
  }

  /** Disjoint child shapes that do not contain the top node make a disjoint shape. */
  lemma DisjointOfBuilt(s: Shape<Node>)
    requires forall j :: 0 <= j < |s.kids| ==> Disjoint(s.kids[j])
    requires forall j, k :: 0 <= j < k < |s.kids| ==> NodesOf(s.kids[j]) !! NodesOf(s.kids[k])
    requires s.node !in NodesOfAll(s.kids)
    ensures Disjoint(s)
  {
  }

  /** set_parents_recursively_from_py_tree: points every child at the node listing it, depth
      first; the top node's parent is replaced only when one is given. */
  method SetParents(node: Node, parent: Node?, ghost s: Shape<Node>)
    requires s.node == node && Mirrors(s) && Disjoint(s)
    modifies NodesOf(s)`parent
    ensures Linked(s)
    ensures parent != null ==> node.parent == parent
    ensures parent == null ==> node.parent == old(node.parent)
    decreases s, 1
  {
    NodesAllocated(s);
    if parent != null {
      node.parent := parent;
    }
    var children := node.children;
    var i := 0;
    while i < |children|
      invariant 0 <= i <= |children|
      invariant |children| == |s.kids| && forall j :: 0 <= j < |s.kids| ==> children[j] == s.kids[j].node
      invariant forall j :: i <= j < |s.kids| ==> Mirrors(s.kids[j])
      invariant parent != null ==> node.parent == parent
      invariant parent == null ==> node.parent == old(node.parent)
      invariant forall j :: 0 <= j < i ==> s.kids[j].node.parent == node && Linked(s.kids[j])
    {
      LinkChild(node, s, i);
      i := i + 1;
    }
  }

  /** One turn of the loop of `SetParents`: the `i`-th child's subtree is linked, the subtrees
      linked before are left alone. */
  method LinkChild(node: Node, ghost s: Shape<Node>, i: nat)
    requires s.node == node && i < |s.kids| && Disjoint(s)
    requires |s.node.children| == |s.kids| && s.node.children[i] == s.kids[i].node
    requires forall j :: i <= j < |s.kids| ==> Mirrors(s.kids[j])
    requires forall j :: 0 <= j < i ==> s.kids[j].node.parent == s.node && Linked(s.kids[j])
    modifies NodesOf(s.kids[i])`parent
    ensures forall j :: i < j < |s.kids| ==> Mirrors(s.kids[j])
    ensures forall j :: 0 <= j <= i ==> s.kids[j].node.parent == s.node && Linked(s.kids[j])
    decreases s, 0
  {
    forall j | 0 <= j < |s.kids| ensures forall m :: m in NodesOf(s.kids[j]) ==> allocated(m) {
      NodesAllocated(s.kids[j]);
    }
    SetParents(node.children[i], node, s.kids[i]);
    forall j | 0 <= j < i ensures s.kids[j].node.parent == s.node && Linked(s.kids[j]) {
      assert NodesOf(s.kids[j]) !! NodesOf(s.kids[i]);
      assert s.kids[j].node in NodesOf(s.kids[j]);
    }
  }

  /** Tree.load: a dictionary whose every level loads becomes a fresh tree whose root has no
      parent, whose children lists repeat the input's ids in order, and whose every child
      refers back to its parent. */
  method TreeLoad<D>(d: Dict<D>) returns (t: Tree, ghost s: Shape<Node>)
    requires Loads(d) // the top-level result and every nested one are unwrapped
    ensures fresh(t) && fresh(NodesOf(s))
    ensures t.root == s.node && Mirrors(s) && Disjoint(s) && Linked(s)
    ensures t.root.parent == null
    ensures Skeleton(s) == Strip(LoadTree(d).value)
  {
    var r := LoadTree(d).value;
    var root;
    root, s := Build(r);
    assert Mirrors(s) && Disjoint(s) && root.parent == null;
    NodesAllocated(s);
    SetParents(root, null, s);
    t := new Tree(root, r.id);
  }

  /** set_py_dict_recursively over the nodes: the id, then the children in stored order when
      there are any. */
  function ExportTree<D>(n: Node, ghost s: Shape<Node>): (d: Dict<D>)
    requires s.node == n && Mirrors(s)
    reads NodesOf(s)`children
    ensures d == Export(Skeleton(s))
    decreases s
  {
    var ks := ExportKids(n.children, s.kids);
    assert ks == ExportAll(Skeleton<D>(s).children);
    Dict(Given(n.id), None, if |n.children| == 0 then Missing else Present(ks))
  }

  function ExportKids<D>(ns: seq<Node>, ghost q: seq<Shape<Node>>): (ds: seq<Dict<D>>)
    requires |ns| == |q| && forall i :: 0 <= i < |q| ==> q[i].node == ns[i] && Mirrors(q[i])
    reads (set i, m | 0 <= i < |q| && m in NodesOf(q[i]) :: m)`children
    ensures |ds| == |q| && forall i :: 0 <= i < |q| ==> ds[i] == Export(Skeleton(q[i]))
    decreases q
  {
    if ns == [] then [] else [ExportTree(ns[0], q[0])] + ExportKids(ns[1..], q[1..])
  }

  /** No dictionary in `d` carries a "data" key. */
  predicate DataFree<D>(d: Dict<D>)
    decreases d
  {
    && d.data.None?
    && (d.children.Present? ==> forall i :: 0 <= i < |d.children.value| ==> DataFree(d.children.value[i]))
  }

  /** Loading a dictionary without payloads gives a record without payloads. */
  lemma {:induction false} StripDataFree<D>(d: Dict<D>)
    requires Loads(d) && DataFree(d)
    ensures Strip(LoadTree(d).value) == LoadTree(d).value
    decreases d
  {
    var r := LoadTree(d).value;
    if d.children.Present? {
      var cs := d.children.value;
      forall i | 0 <= i < |cs| ensures Strip(r.children[i]) == r.children[i] {
        StripDataFree(cs[i]);
        LoadAllAt(cs, i);
      }
    }
  }

  /** The `i`-th record `LoadAll` produces is the load of the `i`-th dictionary. */
  lemma {:induction false} LoadAllAt<D>(cs: seq<Dict<D>>, i: nat)
    requires forall j :: 0 <= j < |cs| ==> Loads(cs[j])
    requires i < |cs|
    ensures LoadAll(cs)[i] == LoadTree(cs[i]).value
    decreases i
  {
    if i > 0 {
      LoadAllAt(cs[1..], i - 1);
    }
  }

  /** The round trip of test_import_export.py over the pointer tree: a canonical dictionary
      without payloads comes back unchanged from `Tree.load` followed by `Tree.export`. */
  method LoadThenExport<D>(d: Dict<D>) returns (e: Dict<D>)
    requires Canonical(d) && DataFree(d)
    ensures e == d
  {
    ExportLoad(d);
    var t, s := TreeLoad(d);
    e := ExportTree(t.root, s);
    StripDataFree(d);
  }
}
