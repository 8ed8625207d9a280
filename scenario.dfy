/** The node-movement scenario of tree_py/src/test.py:137-183 (and of
    tests/unit/test_node_movement.py) over the pointer tree: a six-node dictionary is loaded,
    a grandchild and the first child are found by id, the grandchild is moved under the first
    child, and the export shows the new arrangement. */
module Scenario {
  import opened Wrappers
  import opened Seqs
  import opened Shapes
  import opened Records
  import opened Pointer
  import opened PointerLoad

  const RootId := "343708ec-f679-4345-a7a9-1eb11f974c81"
  const FirstId := "dbe14fc0-aeef-4745-a4b0-41c98cbbaea8"
  const SecondId := "b0862e33-81a1-4b26-b152-1f993b5c9349"
  const ThirdId := "d7582511-8d32-47d9-a38a-becceb9b88e7"
  const MovedId := "9b73a757-da9c-46c0-8ee2-52bd1160ef96"
  const StayingId := "d062c7c0-ffff-4c1c-8275-168b8bfe5d39"

  /** A dictionary holding only an id. */
  function Leaf<D>(id: string): Dict<D> {
    Dict(Given(id), None, Missing)
  }

  /** The dictionary the test loads. */
  function Input<D>(): Dict<D> {
    Dict(Given(RootId), None, Present([
      Leaf(FirstId),
      Leaf(SecondId),
      Dict(Given(ThirdId), None, Present([Leaf(MovedId), Leaf(StayingId)]))]))
  }

  /** The dictionary the test expects back after the move. */
  function Output<D>(): Dict<D> {
    Dict(Given(RootId), None, Present([
      Dict(Given(FirstId), None, Present([Leaf(MovedId)])),
      Leaf(SecondId),
      Dict(Given(ThirdId), None, Present([Leaf(StayingId)]))]))
  }

  /** A loaded node without payload. */
  function Bare<D>(id: string, children: seq<Record<D>>): Record<D> {
    Record(id, None, children)
  }

  /** The records `Input` loads to. */
  function Before<D>(): Record<D> {
    Bare(RootId, [
      Bare(FirstId, []),
      Bare(SecondId, []),
      Bare(ThirdId, [Bare(MovedId, []), Bare(StayingId, [])])])
  }

  /** The records after the grandchild has moved under the first child. */
  function After<D>(): Record<D> {
    Bare(RootId, [
      Bare(FirstId, [Bare(MovedId, [])]),
      Bare(SecondId, []),
      Bare(ThirdId, [Bare(StayingId, [])])])
  }

  /** The test's dictionary is the export of `Before`. */
  lemma InputIsExport<D>()
    ensures Export(Before<D>()) == Input<D>()
  {
    var third := Bare<D>(ThirdId, [Bare(MovedId, []), Bare(StayingId, [])]);
    assert ExportAll(third.children) == [Leaf(MovedId), Leaf(StayingId)];
    assert ExportAll(Before<D>().children) == Input<D>().children.value;
  }

  /** The test's dictionary loads, and loading it gives the payload-free records `Before`. */
  lemma InputLoads<D>()
    ensures Loads(Input<D>())
    ensures Strip(LoadTree(Input<D>()).value) == Before<D>()
  {
    LoadExport(Before<D>());
    InputIsExport<D>();
    var third := Before<D>().children[2];
    assert Strip(third).children == third.children;
    assert Strip(Before<D>()).children == Before<D>().children;
  }

  /** The `i`-th child record of a skeleton is the skeleton of the `i`-th child shape. */
  lemma SkeletonKid<D>(s: Shape<Node>, i: nat)
    requires i < |s.kids|
    ensures Skeleton<D>(s).children[i] == Skeleton<D>(s.kids[i])
  { }

  /** A shape whose skeleton is `Before` has the six nodes of the test in that arrangement. */
  lemma ShapeOfInput<D>(s: Shape<Node>) returns (r: Node, a: Node, b: Node, c: Node, g: Node, h: Node)
    requires Skeleton<D>(s) == Before<D>()
    ensures s == Shape(r, [Shape(a, []), Shape(b, []), Shape(c, [Shape(g, []), Shape(h, [])])])
    ensures r.id == RootId && a.id == FirstId && b.id == SecondId
    ensures c.id == ThirdId && g.id == MovedId && h.id == StayingId
    ensures NodesOf(s) == {r, a, b, c, g, h}
    ensures forall m, n :: m in NodesOf(s) && n in NodesOf(s) && m.id == n.id ==> m == n
  {
    var k := s.kids;
    SkeletonKid<D>(s, 0);
    SkeletonKid<D>(s, 1);
    SkeletonKid<D>(s, 2);
    var k2 := k[2].kids;
    SkeletonKid<D>(k[2], 0);
    SkeletonKid<D>(k[2], 1);
    assert |k[0].kids| == 0 && |k[1].kids| == 0 && |k2| == 2;
    assert |k2[0].kids| == 0 && |k2[1].kids| == 0;
    r, a, b, c := s.node, k[0].node, k[1].node, k[2].node;
    g, h := k2[0].node, k2[1].node;
    assert k[2] == Shape(c, [Shape(g, []), Shape(h, [])]);
    assert NodesOf(k[2]) == {c, g, h} by {
      assert NodesOfAll(k2[1..]) == {h};
      assert NodesOfAll(k2) == {g, h};
    }
    assert NodesOfAll(k[2..]) == {c, g, h};
    assert NodesOfAll(k[1..]) == {b, c, g, h};
    assert NodesOfAll(k) == {a, b, c, g, h};
  }

  /** The loaded nodes hold the links of the test's dictionary. */
  lemma LinksOfInput(s: Shape<Node>, r: Node, a: Node, b: Node, c: Node, g: Node, h: Node)
    requires s == Shape(r, [Shape(a, []), Shape(b, []), Shape(c, [Shape(g, []), Shape(h, [])])])
    requires Mirrors(s) && Linked(s)
    ensures r.children == [a, b, c] && a.children == [] && b.children == []
    ensures c.children == [g, h] && g.children == [] && h.children == []
    ensures a.parent == r && c.parent == r && g.parent == c
  {
    var k, k2 := s.kids, s.kids[2].kids;
    assert Mirrors(k[0]) && Mirrors(k[1]) && Mirrors(k[2]) && Mirrors(k2[0]) && Mirrors(k2[1]);
    assert Linked(k[2]);
  }

  /** The nodes `Tree.load` makes of the test's dictionary, with their ids and links, and no
      two of them sharing an id. */
  lemma LoadedArrangement(s: Shape<Node>) returns (r: Node, a: Node, b: Node, c: Node, g: Node, h: Node)
    requires Skeleton<int>(s) == Before<int>() && Mirrors(s) && Linked(s)
    ensures s == Shape(r, [Shape(a, []), Shape(b, []), Shape(c, [Shape(g, []), Shape(h, [])])])
    ensures NodesOf(s) == {r, a, b, c, g, h}
    ensures forall m, n :: m in NodesOf(s) && n in NodesOf(s) && m.id == n.id ==> m == n
    ensures r.id == RootId && a.id == FirstId && b.id == SecondId
    ensures c.id == ThirdId && g.id == MovedId && h.id == StayingId
    ensures r.children == [a, b, c] && a.children == [] && b.children == []
    ensures c.children == [g, h] && g.children == [] && h.children == []
    ensures a.parent == r && g.parent == c
  {
    r, a, b, c, g, h := ShapeOfInput<int>(s);
    LinksOfInput(s, r, a, b, c, g, h);
  }

  /** Nodes holding the links of the test's dictionary unfold to its arrangement. */
  lemma MirrorsInput(r: Node, a: Node, b: Node, c: Node, g: Node, h: Node)
    requires r.children == [a, b, c] && a.children == [] && b.children == []
    requires c.children == [g, h] && g.children == [] && h.children == []
    ensures Mirrors(Shape(r, [Shape(a, []), Shape(b, []), Shape(c, [Shape(g, []), Shape(h, [])])]))
  {
    assert Mirrors(Shape(c, [Shape(g, []), Shape(h, [])]));
  }

  /** After the move the nodes hold the links of the expected arrangement, whose nodes still
      carry distinct ids. */
  lemma MovedArrangement(r: Node, a: Node, b: Node, c: Node, g: Node, h: Node) returns (s: Shape<Node>)
    requires r.id == RootId && a.id == FirstId && b.id == SecondId
    requires c.id == ThirdId && g.id == MovedId && h.id == StayingId
    requires r.children == [a, b, c] && a.children == [g] && b.children == []
    requires c.children == [h] && g.children == [] && h.children == []
    ensures s == Shape(r, [Shape(a, [Shape(g, [])]), Shape(b, []), Shape(c, [Shape(h, [])])])
    ensures Mirrors(s) && NodesOf(s) == {r, a, b, c, g, h}
    ensures forall m, n :: m in NodesOf(s) && n in NodesOf(s) && m.id == n.id ==> m == n
  {
    s := Shape(r, [Shape(a, [Shape(g, [])]), Shape(b, []), Shape(c, [Shape(h, [])])]);
    assert Mirrors(Shape(a, [Shape(g, [])]));
    assert Mirrors(Shape(c, [Shape(h, [])]));
    var k := s.kids;
    assert NodesOfAll(k[0].kids) == {g} by {
      assert NodesOf(Shape(g, [])) == {g};
    }
    assert NodesOfAll(k[2].kids) == {h} by {
      assert NodesOf(Shape(h, [])) == {h};
    }
    assert NodesOfAll(k[2..]) == {c, h};
    assert NodesOfAll(k[1..]) == {b, c, h};
  }

  /** A shape of the moved arrangement exports to the dictionary the test expects. */
  lemma OutputOfMoved<D>(s: Shape<Node>, r: Node, a: Node, b: Node, c: Node, g: Node, h: Node)
    requires s == Shape(r, [Shape(a, [Shape(g, [])]), Shape(b, []), Shape(c, [Shape(h, [])])])
    requires r.id == RootId && a.id == FirstId && b.id == SecondId
    requires c.id == ThirdId && g.id == MovedId && h.id == StayingId
    ensures Export(Skeleton<D>(s)) == Output<D>()
  {
    var k := s.kids;
    SkeletonKid<D>(s, 0);
    SkeletonKid<D>(s, 1);
    SkeletonKid<D>(s, 2);
    SkeletonKid<D>(k[0], 0);
    SkeletonKid<D>(k[2], 0);
    assert Skeleton<D>(k[0].kids[0]) == Bare(MovedId, []);
    assert Skeleton<D>(k[1]) == Bare(SecondId, []);
    assert Skeleton<D>(k[2].kids[0]) == Bare(StayingId, []);
    assert Skeleton<D>(k[0]).children == [Bare(MovedId, [])];
    assert Skeleton<D>(k[2]).children == [Bare(StayingId, [])];
    assert Skeleton<D>(s).children == After<D>().children;
    var moved, staying := Bare<D>(MovedId, []), Bare<D>(StayingId, []);
    assert ExportAll([moved]) == [Leaf(MovedId)];
    assert ExportAll([staying]) == [Leaf(StayingId)];
    var top := After<D>().children;
    assert ExportAll(top) == Output<D>().children.value;
  }

  /** find_by_id of an id exactly one node of the tree carries gives that node. */
  method FindUnique(t: Tree, ghost s: Shape<Node>, id: string, ghost n: Node) returns (found: Node)
    requires s.node == t.root && Mirrors(s)
    requires n in NodesOf(s) && n.id == id
    requires forall m :: m in NodesOf(s) && m.id == id ==> m == n
    ensures found == n
  {
    var r := t.FindById(id, s);
    found := r;
  }

  /** The first half of test_node_movement: `Tree.load` of the test's dictionary, then
      `find_by_id` of the grandchild to move and of the first child. The other nodes of the
      tree come back as ghost results. */
  method LoadAndFind() returns (t: Tree, tgt: Node, newParent: Node, ghost r: Node, ghost b: Node,
                                ghost c: Node, ghost h: Node)
    ensures fresh(t) && fresh(tgt) && fresh(newParent) && fresh(c) && t.root == r
    ensures r.id == RootId && newParent.id == FirstId && b.id == SecondId
    ensures c.id == ThirdId && tgt.id == MovedId && h.id == StayingId
    ensures r.children == [newParent, b, c] && c.children == [tgt, h]
    ensures newParent.children == [] && b.children == [] && tgt.children == [] && h.children == []
    ensures r.parent == null && newParent.parent == r && tgt.parent == c
  {
    InputLoads<int>();
    ghost var s;
    t, s := TreeLoad(Input<int>());
    ghost var a, g;
    r, a, b, c, g, h := LoadedArrangement(s);
    assert fresh(a) && fresh(c) && fresh(g);
    tgt := FindUnique(t, s, MovedId, g);
    MirrorsInput(r, a, b, c, g, h);
    newParent := FindUnique(t, s, FirstId, a);
  }

  /** `Tree.export` of the moved arrangement gives the dictionary the test expects. */
  method ExportMoved<D>(t: Tree, ghost s: Shape<Node>, ghost a: Node, ghost b: Node, ghost c: Node,
                        ghost g: Node, ghost h: Node) returns (e: Dict<D>)
    requires s == Shape(t.root, [Shape(a, [Shape(g, [])]), Shape(b, []), Shape(c, [Shape(h, [])])])
    requires t.root.id == RootId && a.id == FirstId && b.id == SecondId
    requires c.id == ThirdId && g.id == MovedId && h.id == StayingId
    requires Mirrors(s)
    ensures e == Output<D>()
  {
    e := ExportTree(t.root, s);
    OutputOfMoved<D>(s, t.root, a, b, c, g, h);
  }

  /** test_node_movement: after `Tree.load`, two `find_by_id` calls and `move_node`, the moved
      node's parent has the first child's id, the third child keeps one child, and the export
      is the expected dictionary. */
  method NodeMovement<D>() returns (tgt: Node, third: Node, e: Dict<D>)
    ensures tgt.id == MovedId && tgt.parent != null && tgt.parent.id == FirstId
    ensures third.id == ThirdId && |third.children| == 1
    ensures e == Output<D>()
  {
    var t, newParent;
    ghost var r, b, c, h;
    t, tgt, newParent, r, b, c, h := LoadAndFind();
    ghost var a, g := newParent, tgt;
    var moved := t.MoveNode(tgt, newParent, [t.root], {});
    assert c.children == [h] by {
      assert IndexOf([g, h], g) == 0;
    }
    ghost var s' := MovedArrangement(r, a, b, c, g, h);
    third := FindUnique(t, s', ThirdId, c);
    s' := MovedArrangement(r, a, b, c, g, h); // the links are as they were before the lookup
    e := ExportMoved(t, s', a, b, c, g, h);
  }
}
