/** The arena tree of treemap_rs/src/lib.rs: one table maps ids to shared records, and records
    name their parent and children by id. The table also stores the root record under the alias
    key "root". Locks are left out: every operation runs to completion on its own. */
module Arena {
  import opened Wrappers
  import opened Seqs
  import opened Forest

  /** The alias key under which the table also stores the root record. */
  const RootKey: string := "root"

  /** NodeMap: a record whose links are ids resolved through the table. */
  class NodeRec {
    const id: string
    var children: seq<string>
    var parent: Option<string>

    /** NodeMap::new, with the generated uuid passed in as `id`. */
    constructor (id: string, parent: Option<string>)
      ensures this.id == id && children == [] && this.parent == parent
    {
      this.id := id;
      children := [];
      this.parent := parent;
    }
  }

  /** The one error `move_node` reports. */
  datatype MoveError = TargetIsAncestorOfParent

  class TreeMap {
    var nodes: map<string, NodeRec>

    /** TreeMap::new: the supplied root, or a fresh parentless record with id `freshId`, is stored
        under its own id and under the alias. */
    constructor (root: Option<NodeRec>, freshId: string)
      ensures RootKey in nodes
      ensures nodes == map[nodes[RootKey].id := nodes[RootKey], RootKey := nodes[RootKey]]
      ensures root.Some? ==> nodes[RootKey] == root.value
      ensures root.None? ==> fresh(nodes[RootKey]) && nodes[RootKey].id == freshId
      ensures root.None? ==> nodes[RootKey].children == [] && nodes[RootKey].parent == None
      ensures root.None? ==> Valid()
    {
      var r: NodeRec;
      if root.Some? {
        r := root.value;
      } else {
        r := new NodeRec(freshId, None);
      }
      nodes := map[r.id := r][RootKey := r];
      new;
      if root.None? {
        SingleValid();
      }
    }

    /** The record `add_child` links under: the given parent, otherwise the record stored under
        the alias. */
    function LinkTarget(parent: Option<NodeRec>): NodeRec
      reads this
      requires parent.Some? || RootKey in nodes
    {
      if parent.Some? then parent.value else nodes[RootKey]
    }

    /** `r` is stored under its own id. */
    ghost predicate InTable(r: NodeRec)
      reads this
    {
      r.id in nodes && nodes[r.id] == r
    }

    /** Every record is stored under its own id, and the alias stores a record that is stored
        under its own id as well. */
    ghost predicate Indexed()
      reads this
    {
      && RootKey in nodes && InTable(nodes[RootKey])
      && forall k :: k in nodes && k != RootKey ==> nodes[k].id == k
    }

    /** The keys that store a record under its own id: the nodes of the tree. */
    ghost function Ids(): set<string>
      reads this
    {
      set k | k in nodes && nodes[k].id == k
    }

    /** The id a parent id names: the id of the record stored under it, so the alias names the
        root's own id. An id the table lacks names itself. */
    ghost function Resolve(p: string): string
      reads this
    {
      if p in nodes then nodes[p].id else p
    }

    /** The links of the records stored under their own ids, parent ids resolved through the
        table. */
    ghost function View(): (l: Links<string>)
      reads this, nodes.Values
      ensures l.kids.Keys == Ids() && l.up.Keys == Ids()
    {
      Links(map k | k in nodes && nodes[k].id == k :: nodes[k].children,
            map k | k in nodes && nodes[k].id == k ::
              if nodes[k].parent.None? then None else Some(Resolve(nodes[k].parent.value)))
    }

    /** The table holds one tree below the root record. */
    ghost predicate Valid()
      reads this, nodes.Values
    {
      Indexed() && IsTree(View(), nodes[RootKey].id)
    }

    /** A table holding one record without links, under its id and the alias, is a tree. */
    lemma SingleValid()
      requires RootKey in nodes && nodes == map[nodes[RootKey].id := nodes[RootKey], RootKey := nodes[RootKey]]
      requires nodes[RootKey].parent.None? && nodes[RootKey].children == []
      ensures Valid()
    {
      var r := nodes[RootKey];
      var v := View();
      assert Ids() == {r.id};
      assert v.up[r.id] == None && v.kids[r.id] == [];
      assert Reaches(v, r.id, |v.up.Keys|);
    }

    /** In an indexed table every record is stored under its own id, which is a node of the
        tree. */
    lemma StoredInTable(k: string)
      requires Indexed() && k in nodes
      ensures InTable(nodes[k]) && nodes[k].id in Ids()
    {
      if k == RootKey {
        assert InTable(nodes[RootKey]);
      } else {
        assert nodes[k].id == k;
      }
    }

    /** Storing a record under its own new id adds that id to the nodes. */
    twostate lemma AddedIds(child: NodeRec)
      requires child.id !in old(nodes) && nodes == old(nodes)[child.id := child]
      ensures Ids() == old(Ids()) + {child.id}
    {
    }

    /** The child lists after add_child stored `child` under its new id and appended the id
        to the children of the record its parent id names, no other record having changed. */
    twostate lemma AddedKids(child: NodeRec)
      requires child.id !in old(nodes) && nodes == old(nodes)[child.id := child] && child.children == []
      requires child.parent.Some? && child.parent.value in nodes && ParentOf(child) != child
      requires ParentOf(child).id in old(nodes) && old(nodes)[ParentOf(child).id] == ParentOf(child)
      requires forall j :: j in old(nodes) && old(nodes)[j].id == j ==>
        nodes[j].children == old(nodes[j].children) + (if j == ParentOf(child).id then [child.id] else [])
      ensures View().kids == Add(old(View()), child.id, ParentOf(child).id).kids
    {
      var p := ParentOf(child);
      var v0, v1 := old(View()), View();
      var a := Add(v0, child.id, p.id);
      AddedIds(child);
      forall k | k in Ids()
        ensures v1.kids[k] == a.kids[k]
      {
        if k != child.id {
          assert v0.kids[k] == old(nodes[k].children);
        }
      }
    }

    /** The parent entry of a node whose record kept its parent id, in a table that only
        gained keys, is unchanged. */
    twostate lemma UpKept(k: string)
      requires old(nodes).Keys <= nodes.Keys && forall j :: j in old(nodes) ==> nodes[j] == old(nodes)[j]
      requires forall j :: j in nodes && j !in old(nodes) ==> nodes[j].id == j
      requires k in old(Ids()) && nodes[k].parent == old(nodes[k].parent)
      ensures k in Ids() && View().up[k] == old(View()).up[k]
    {
      var r := nodes[k];
      if r.parent.Some? {
        var q := r.parent.value;
        assert Resolve(q) == old(Resolve(q));
      }
    }

    /** The parent entries after add_child stored `child` under its new id, no other record's
        parent having changed. */
    twostate lemma AddedUp(child: NodeRec)
      requires child.id !in old(nodes) && nodes == old(nodes)[child.id := child]
      requires child.parent.Some? && child.parent.value in nodes
      requires ParentOf(child).id in old(nodes) && old(nodes)[ParentOf(child).id] == ParentOf(child)
      requires forall j :: j in old(nodes) && old(nodes)[j].id == j ==> nodes[j].parent == old(nodes[j].parent)
      ensures View().up == Add(old(View()), child.id, ParentOf(child).id).up
    {
      var v0, v1 := old(View()), View();
      var a := Add(v0, child.id, ParentOf(child).id);
      AddedIds(child);
      forall k | k in Ids()
        ensures v1.up[k] == a.up[k]
      {
        if k != child.id {
          UpKept(k);
        }
      }
      SameMap(v1.up, a.up);
    }

    /** The links after the first copy of `tgt`'s id left its parent's children, from what each
        record then holds. */
    lemma DetachedView(v0: Links<string>, tgt: NodeRec)
      requires Indexed() && InTable(tgt) && tgt.parent.Some? && tgt.parent.value in nodes
      requires v0.kids.Keys == Ids() && v0.up.Keys == Ids()
      requires forall k :: k in Ids() ==> View().up[k] == v0.up[k]
      requires forall k :: k in Ids() && nodes[k] != ParentOf(tgt) ==> nodes[k].children == v0.kids[k]
      requires ParentOf(tgt).id in v0.kids
      requires ParentOf(tgt).children == RemoveFirst(v0.kids[ParentOf(tgt).id], tgt.id)
      ensures View() == Detach(v0, tgt.id)
    {
      StoredInTable(tgt.parent.value);
      var v1, d := View(), Detach(v0, tgt.id);
      assert v0.up[tgt.id] == Some(ParentOf(tgt).id);
      assert v1.kids == d.kids;
      assert v1.up == d.up;
    }

    /** The links after `tgt`'s id joined `np`'s children and `tgt` names `np`, from what each
        record then holds. */
    lemma AttachedView(v0: Links<string>, tgt: NodeRec, np: NodeRec)
      requires InTable(tgt) && InTable(np) && tgt != np
      requires v0.kids.Keys == Ids() && v0.up.Keys == Ids()
      requires forall k :: k in Ids() && k != tgt.id ==> View().up[k] == v0.up[k]
      requires tgt.parent == Some(np.id)
      requires forall k :: k in Ids() && k != np.id ==> nodes[k].children == v0.kids[k]
      requires np.children == v0.kids[np.id] + [tgt.id]
      ensures View() == Attach(v0, tgt.id, np.id)
    {
      var v1, a := View(), Attach(v0, tgt.id, np.id);
      assert v1.kids == a.kids;
      assert v1.up == a.up;
    }

    /** In a tree, a record other than the root has a parent id the table resolves; that
        parent lists the record's id exactly once, and no other record lists it. */
    lemma ListedByParent(k: string)
      requires Valid() && k in Ids() && k != nodes[RootKey].id
      ensures nodes[k].parent.Some? && nodes[k].parent.value in nodes
      ensures Count(ParentOf(nodes[k]).children, k) == 1
      ensures forall j :: j in nodes && k in nodes[j].children ==> nodes[j] == ParentOf(nodes[k])
    {
      var v := View();
      assert v.up[k].Some? && v.up[k].value in Ids();
      var p := nodes[k].parent.value;
      StoredInTable(p);
      assert v.kids[nodes[p].id] == nodes[p].children;
      forall j | j in nodes && k in nodes[j].children
        ensures nodes[j] == ParentOf(nodes[k])
      {
        StoredInTable(j);
        assert v.kids[nodes[j].id] == nodes[j].children;
      }
    }

    /** The ancestor chain of a record linked as a chain of ids is its ancestor chain of
        records. */
    lemma {:induction false} HeapChain(n: NodeRec, ids: seq<string>) returns (chain: seq<NodeRec>)
      requires Indexed() && InTable(n) && UpChain(View(), n.id, ids)
      ensures IsAncestorChain(n, chain)
      ensures |chain| == |ids|
      ensures forall i :: 0 <= i < |ids| ==> ids[i] in nodes && chain[i] == nodes[ids[i]] && InTable(chain[i])
      decreases |ids|
    {
      var v := View();
      if ids == [] {
        chain := [];
      } else {
        assert v.up[n.id] == Some(ids[0]) && ids[0] in Ids();
        var p := n.parent.value;
        StoredInTable(p);
        var next := nodes[ids[0]];
        var rest := HeapChain(next, ids[1..]);
        chain := [next] + rest;
        ChainCons(n, next, rest);
      }
    }

    /** A parent step in front of an ancestor chain is an ancestor chain. */
    lemma ChainCons(n: NodeRec, m: NodeRec, rest: seq<NodeRec>)
      requires ParentStep(n, m) && IsAncestorChain(m, rest)
      ensures IsAncestorChain(n, [m] + rest)
    {
      var c := [m] + rest;
      forall i | 0 <= i < |c| - 1
        ensures ParentStep(c[i], c[i + 1])
      {
        if i > 0 {
          assert c[i] == rest[i - 1] && c[i + 1] == rest[i];
        }
      }
    }

    /** In a tree every record has an ancestor chain; it is the chain of its id in the links,
        record by record. */
    lemma ChainOfNode(n: NodeRec) returns (ids: seq<string>, chain: seq<NodeRec>)
      requires Valid() && InTable(n)
      ensures UpChain(View(), n.id, ids) && IsAncestorChain(n, chain)
      ensures |chain| == |ids|
      ensures forall i :: 0 <= i < |ids| ==> ids[i] in nodes && chain[i] == nodes[ids[i]] && InTable(chain[i])
    {
      var v := View();
      ids := ChainOf(v, n.id, |v.up.Keys|);
      chain := HeapChain(n, ids);
    }

    /** In a tree, what move_node's check sees: `newParent`'s ancestor chain, record by record
        and id by id. When `tgt` is not on it, `tgt` is not the root, so its parent id resolves
        to a record other than itself. */
    lemma MoveChecked(tgt: NodeRec, newParent: NodeRec) returns (ids: seq<string>, chain: seq<NodeRec>)
      requires Valid() && InTable(tgt) && InTable(newParent) && tgt != newParent
      ensures UpChain(View(), newParent.id, ids) && IsAncestorChain(newParent, chain)
      ensures Ancestors(View(), newParent.id, |Ids()|) == ids
      ensures tgt in chain <==> tgt.id in ids
      ensures tgt !in chain ==> tgt.parent.Some? && tgt.parent.value in nodes && ParentOf(tgt) != tgt
    {
      var v := View();
      ids, chain := ChainOfNode(newParent);
      ChainShort(v, newParent.id, ids);
      AncestorsOfChain(v, newParent.id, ids, |Ids()|);
      UpChainIn(v, newParent.id, ids);
      if tgt in chain {
        var i :| 0 <= i < |chain| && chain[i] == tgt;
        assert ids[i] in v.up && tgt.id == ids[i];
      }
      if tgt.id in ids {
        var i :| 0 <= i < |ids| && ids[i] == tgt.id;
        assert chain[i] == tgt;
      }
      if tgt !in chain {
        if tgt.id == nodes[RootKey].id {
          ChainReachesRoot(v, nodes[RootKey].id, newParent.id, ids);
          assert false;
        }
        ListedByParent(tgt.id);
        var tgtIds, tgtChain := ChainOfNode(tgt);
        ChainIsSimple(tgt, tgtChain);
      }
    }

    /** A move of `tgt` under `np`, inside a tree and with `tgt` off `np`'s chain, leaves a tree
        in which `np` is the one record that lists `tgt`'s id, exactly once. */
    lemma MoveKeepsValid(v0: Links<string>, tgt: NodeRec, np: NodeRec, ids: seq<string>)
      requires Indexed() && v0.up.Keys == Ids() && IsTree(v0, nodes[RootKey].id)
      requires InTable(tgt) && InTable(np) && tgt != np && UpChain(v0, np.id, ids) && tgt.id !in ids
      requires View() == Move(v0, tgt.id, np.id)
      ensures Valid() && tgt.id != nodes[RootKey].id
      ensures Count(np.children, tgt.id) == 1
      ensures forall k :: k in nodes && tgt.id in nodes[k].children ==> nodes[k] == np
    {
      MoveKeepsTree(v0, nodes[RootKey].id, tgt.id, np.id, ids);
      assert View().up[tgt.id] == Some(np.id);
      ListedByParent(tgt.id);
      StoredInTable(tgt.parent.value);
    }

    /** add_child of a new record without children under a record of a tree leaves a tree in
        which the target is the one record that lists the child's id, exactly once. */
    lemma AddKeepsValid(v0: Links<string>, root: string, child: NodeRec, p: NodeRec)
      requires Indexed() && nodes[RootKey].id == root
      requires v0.up.Keys == v0.kids.Keys && IsTree(v0, root)
      requires p.id in v0.kids && child.id !in v0.up && InTable(child) && InTable(p)
      requires View() == Add(v0, child.id, p.id)
      ensures Valid()
      ensures Count(p.children, child.id) == 1
      ensures forall k :: k in nodes && child.id in nodes[k].children ==> nodes[k] == p
    {
      AddKeepsTree(v0, root, child.id, p.id);
      assert View().up[child.id] == Some(p.id);
      ListedByParent(child.id);
      StoredInTable(child.parent.value);
    }

    /** add_child: stores `child` under its id (replacing whatever was there), appends the id to
        the link target's children and points `child` at the target. With no parent given, the
        parent id written is the alias "root" itself. An earlier parent keeps listing `child`. */
    method AddChild(child: NodeRec, parent: Option<NodeRec>)
      // the alias lookup is unwrapped; a child stored under "root" would replace the target
      requires parent.None? ==> RootKey in nodes && child.id != RootKey
      // the target's and the child's write locks are taken together: they must differ
      requires LinkTarget(parent) != child
      modifies this, child, LinkTarget(parent)
      ensures nodes == old(nodes)[child.id := child]
      ensures LinkTarget(parent) == old(LinkTarget(parent))
      ensures LinkTarget(parent).children == old(LinkTarget(parent).children) + [child.id]
      ensures LinkTarget(parent).parent == old(LinkTarget(parent).parent)
      ensures child.parent == Some(if parent.Some? then parent.value.id else RootKey)
      ensures child.children == old(child.children)
      ensures old(InTable(LinkTarget(parent))) && child.id !in old(nodes) && old(child.children) == [] ==>
        View() == Add(old(View()), child.id, LinkTarget(parent).id)
    {
      ghost var n0, target0, empty0 := nodes, LinkTarget(parent), child.children == [];
      nodes := nodes[child.id := child];
      var parentId: string;
      var target: NodeRec;
      if parent.Some? {
        parentId, target := parent.value.id, parent.value;
      } else {
        parentId, target := RootKey, nodes[RootKey];
      }
      target.children := target.children + [child.id];
      child.parent := Some(parentId);
      if target0.id in n0 && n0[target0.id] == target0 && child.id !in n0 && empty0 {
        assert target == target0 && ParentOf(child) == target;
        forall j | j in n0 && n0[j].id == j
          ensures nodes[j] == n0[j] && n0[j] != child && (n0[j] == target <==> j == target.id)
        {
        }
        AddedKids(child);
        AddedUp(child);
      }
    }

    /** add_child as the unit test at treemap_rs/src/lib.rs:135-143 expects it: the default
        parent is resolved to the root record first, so the child names the root by its own id. */
    method AddChildUnderRootId(child: NodeRec, parent: Option<NodeRec>)
      requires parent.None? ==> RootKey in nodes
      requires LinkTarget(parent) != child
      modifies this, child, LinkTarget(parent)
      ensures nodes == old(nodes)[child.id := child]
      ensures old(LinkTarget(parent)).children == old(LinkTarget(parent).children) + [child.id]
      ensures old(LinkTarget(parent)).parent == old(LinkTarget(parent).parent)
      ensures child.parent == Some(old(LinkTarget(parent)).id)
      ensures child.children == old(child.children)
      ensures old(InTable(LinkTarget(parent))) && child.id !in old(nodes) && old(child.children) == [] ==>
        View() == Add(old(View()), child.id, old(LinkTarget(parent)).id)
    {
      var target := LinkTarget(parent);
      AddChild(child, Some(target));
    }

    /** find_by_id: the record stored under `id`. */
    method FindById(id: string) returns (r: NodeRec)
      requires id in nodes // the lookup is unwrapped
      ensures r == nodes[id]
    {
      r := nodes[id];
    }

    /** `b` is the record that `a`'s parent id names in the table. */
    ghost predicate ParentStep(a: NodeRec, b: NodeRec)
      reads this, a
    {
      a.parent.Some? && a.parent.value in nodes && nodes[a.parent.value] == b
    }

    /** `chain` is what get_ancestors collects from `n`: the record `n`'s parent id names, then
        the record that one's parent id names, and so on, ending at the first record that has no
        parent. Every id on the way must be a key of the table. */
    ghost predicate IsAncestorChain(n: NodeRec, chain: seq<NodeRec>)
      reads this, n, chain
    {
      if chain == [] then n.parent.None?
      else
        && ParentStep(n, chain[0])
        && (forall i :: 0 <= i < |chain| - 1 ==> ParentStep(chain[i], chain[i + 1]))
        && chain[|chain| - 1].parent.None?
    }

    /** get_ancestors: the parent first, the root last; a record without a parent has none. */
    method GetAncestors(n: NodeRec, ghost chain: seq<NodeRec>) returns (ancestors: seq<NodeRec>)
      requires IsAncestorChain(n, chain) // the walk ends and every parent id resolves
      ensures IsAncestorChain(n, ancestors)
    {
      ancestors := CollectAncestors(this, n, [], chain);
    }

    /** The record the table stores under `tgt`'s parent id. */
    function ParentOf(tgt: NodeRec): NodeRec
      reads this, tgt
      requires tgt.parent.Some? && tgt.parent.value in nodes
    {
      nodes[tgt.parent.value]
    }

    /** The records `move_node` may detach `tgt` from. */
    function ParentFrame(tgt: NodeRec): set<NodeRec>
      reads this, tgt
    {
      if tgt.parent.Some? && tgt.parent.value in nodes then {ParentOf(tgt)} else {}
    }

    /** The first half of a move that goes ahead: the first copy of `tgt`'s id leaves the
        children of the record `tgt`'s parent id names. */
    method DetachFromParent(tgt: NodeRec)
      requires tgt.parent.Some? && tgt.parent.value in nodes && ParentOf(tgt) != tgt
      modifies ParentFrame(tgt)
      ensures ParentOf(tgt) == old(ParentOf(tgt))
      ensures ParentOf(tgt).children == RemoveFirst(old(ParentOf(tgt).children), tgt.id)
      ensures ParentOf(tgt).parent == old(ParentOf(tgt).parent)
      ensures Indexed() && InTable(tgt) ==> View() == Detach(old(View()), tgt.id)
    {
      ghost var v0 := View();
      if Indexed() {
        StoredInTable(tgt.parent.value);
      }
      var oldParent := nodes[tgt.parent.value];
      var index := IndexOf(oldParent.children, tgt.id);
      if index < |oldParent.children| {
        oldParent.children := oldParent.children[..index] + oldParent.children[index + 1..];
      }
      if Indexed() && InTable(tgt) {
        DetachedView(v0, tgt);
      }
    }

    /** The second half of a move that goes ahead: `tgt`'s id is appended to `newParent`'s
        children and `tgt` names `newParent` as its parent. */
    method AppendUnder(tgt: NodeRec, newParent: NodeRec, ghost chain: seq<NodeRec>)
      requires IsAncestorChain(newParent, chain) && tgt !in chain && tgt != newParent
      modifies tgt, newParent
      ensures tgt.parent == Some(newParent.id) && tgt.children == old(tgt.children)
      ensures newParent.children == old(newParent.children) + [tgt.id]
      ensures newParent.parent == old(newParent.parent)
      ensures InTable(newParent) ==> IsAncestorChain(tgt, [newParent] + chain)
      ensures InTable(tgt) && InTable(newParent) ==> View() == Attach(old(View()), tgt.id, newParent.id)
    {
      ghost var v0 := View();
      newParent.children := newParent.children + [tgt.id];
      tgt.parent := Some(newParent.id);
      if InTable(newParent) {
        assert forall i :: 0 <= i < |chain| ==> chain[i] != tgt;
        assert IsAncestorChain(newParent, chain);
        ChainCons(tgt, newParent, chain);
      }
      if InTable(tgt) && InTable(newParent) {
        AttachedView(v0, tgt, newParent);
      }
    }

    /** move_node: refused, with nothing changed, when `tgt` is among the ancestors of
        `newParent`; otherwise the first copy of `tgt`'s id leaves the children of the record its
        parent id names, the id is appended to `newParent`'s children and `tgt` names `newParent`
        as its parent. The table itself is not touched. */
    method MoveNode(tgt: NodeRec, newParent: NodeRec, ghost chain: seq<NodeRec>)
      returns (res: Result<(), MoveError>)
      requires IsAncestorChain(newParent, chain) // get_ancestors(newParent) is unwrapped
      // the old parent lookup is unwrapped twice
      requires tgt !in chain ==> tgt.parent.Some? && tgt.parent.value in nodes
      // `tgt`'s write lock is held while the old and the new parent are locked
      requires tgt !in chain ==> tgt != newParent && ParentOf(tgt) != tgt
      modifies tgt, newParent, ParentFrame(tgt)
      ensures res.Err? <==> tgt in chain
      ensures res.Err? ==> unchanged(tgt, newParent) && unchanged(old(ParentFrame(tgt)))
      ensures res.Ok? ==> tgt.parent == Some(newParent.id) && tgt.children == old(tgt.children)
      ensures res.Ok? ==>
        newParent.children ==
          (if newParent == old(ParentOf(tgt)) then RemoveFirst(old(newParent.children), tgt.id)
           else old(newParent.children)) + [tgt.id]
      ensures res.Ok? && newParent != old(ParentOf(tgt)) ==>
        old(ParentOf(tgt)).children == RemoveFirst(old(ParentOf(tgt).children), tgt.id)
      ensures res.Ok? ==> newParent.parent == old(newParent.parent)
      ensures res.Ok? ==> old(ParentOf(tgt)).parent == old(ParentOf(tgt).parent)
      ensures res.Ok? && InTable(newParent) ==> IsAncestorChain(tgt, [newParent] + chain)
      ensures res.Ok? && Indexed() && InTable(tgt) && InTable(newParent) ==>
        View() == Move(old(View()), tgt.id, newParent.id)
    {
      var ancestors := GetAncestors(newParent, chain);
      ChainUnique(newParent, ancestors, chain);
      if tgt in ancestors {
        return Err(TargetIsAncestorOfParent);
      }
      Relink(tgt, newParent, chain);
      res := Ok(());
    }

    /** The part of move_node after the ancestor check: `tgt` leaves its old parent's children
        and joins `newParent`'s. */
    method Relink(tgt: NodeRec, newParent: NodeRec, ghost chain: seq<NodeRec>)
      requires IsAncestorChain(newParent, chain) && tgt !in chain
      requires tgt.parent.Some? && tgt.parent.value in nodes
      requires tgt != newParent && ParentOf(tgt) != tgt
      modifies tgt, newParent, ParentFrame(tgt)
      ensures tgt.parent == Some(newParent.id) && tgt.children == old(tgt.children)
      ensures newParent.children ==
        (if newParent == old(ParentOf(tgt)) then RemoveFirst(old(newParent.children), tgt.id)
         else old(newParent.children)) + [tgt.id]
      ensures newParent != old(ParentOf(tgt)) ==>
        old(ParentOf(tgt)).children == RemoveFirst(old(ParentOf(tgt).children), tgt.id)
      ensures newParent.parent == old(newParent.parent)
      ensures old(ParentOf(tgt)).parent == old(ParentOf(tgt).parent)
      ensures InTable(newParent) ==> IsAncestorChain(tgt, [newParent] + chain)
      ensures Indexed() && InTable(tgt) && InTable(newParent) ==>
        View() == Move(old(View()), tgt.id, newParent.id)
    {
      ghost var v0 := View();
      DetachFromParent(tgt);
      ghost var v1 := View();
      AppendUnder(tgt, newParent, chain);
      assert Indexed() && InTable(tgt) && InTable(newParent) ==>
        View() == Attach(v1, tgt.id, newParent.id) && v1 == Detach(v0, tgt.id);
    }

    /** add_child of a new record without children under a record of a tree: the table then
        holds a tree again, the child is stored under its id and names the target, and the
        target is the one record that lists the child's id, exactly once. */
    method AddChildInTree(child: NodeRec, parent: Option<NodeRec>)
      requires Valid() && (parent.Some? ==> InTable(parent.value))
      requires child.id !in nodes && child.id != RootKey && child.children == []
      modifies this, child, LinkTarget(parent)
      ensures Valid() && InTable(child)
      ensures child.parent.Some? && Resolve(child.parent.value) == LinkTarget(parent).id
      ensures Count(LinkTarget(parent).children, child.id) == 1
      ensures forall k :: k in nodes && child.id in nodes[k].children ==> nodes[k] == LinkTarget(parent)
    {
      ghost var v0, root := View(), nodes[RootKey].id;
      AddChild(child, parent);
      AddKeepsValid(v0, root, child, LinkTarget(parent));
    }

    /** add_child followed by find_by_id of the child's id returns the child itself. */
    method AddChildThenFind(child: NodeRec, parent: Option<NodeRec>) returns (found: NodeRec)
      requires parent.None? ==> RootKey in nodes && child.id != RootKey
      requires LinkTarget(parent) != child
      modifies this, child, LinkTarget(parent)
      ensures found == child && InTable(child)
    {
      AddChild(child, parent);
      found := FindById(child.id);
    }

    /** move_node on a tree, with get_ancestors' chain read off the table: refused exactly when
        `tgt` is among the ancestors of `newParent`; a move that goes ahead leaves a tree in
        which `newParent` is the one record that lists `tgt`'s id, exactly once, and the
        ancestors of `tgt` are `newParent` followed by the ancestors `newParent` had. */
    method MoveNodeInTree(tgt: NodeRec, newParent: NodeRec) returns (res: Result<(), MoveError>)
      requires Valid() && InTable(tgt) && InTable(newParent) && tgt != newParent
      modifies tgt, newParent, ParentFrame(tgt)
      ensures res.Err? <==> tgt.id in Ancestors(old(View()), newParent.id, |Ids()|)
      ensures res.Err? ==> unchanged(tgt, newParent) && unchanged(old(ParentFrame(tgt)))
      ensures res.Ok? ==> Valid() && tgt.parent == Some(newParent.id)
      ensures res.Ok? ==> Count(newParent.children, tgt.id) == 1
      ensures res.Ok? ==> forall k :: k in nodes && tgt.id in nodes[k].children ==> nodes[k] == newParent
      ensures res.Ok? ==>
        Ancestors(View(), tgt.id, |Ids()|) == [newParent.id] + Ancestors(old(View()), newParent.id, |Ids()|)
    {
      ghost var v0 := View();
      ghost var ids, chain := MoveChecked(tgt, newParent);
      res := MoveNode(tgt, newParent, chain);
      if res.Ok? {
        MoveKeepsValid(v0, tgt, newParent, ids);
        MoveAncestors(v0, tgt.id, newParent.id, ids);
      }
    }

    /** The rest of an ancestor chain is the ancestor chain of its first record. */
    lemma ChainTail(n: NodeRec, chain: seq<NodeRec>)
      requires IsAncestorChain(n, chain) && chain != []
      ensures IsAncestorChain(chain[0], chain[1..])
    {
      if |chain| > 1 {
        assert ParentStep(chain[0], chain[1]);
      }
    }

    /** A record has at most one ancestor chain: get_ancestors is determined by the table. */
    lemma {:induction false} ChainUnique(n: NodeRec, c1: seq<NodeRec>, c2: seq<NodeRec>)
      requires IsAncestorChain(n, c1) && IsAncestorChain(n, c2)
      ensures c1 == c2
      decreases |c1|
    {
      if c1 != [] {
        assert c2 != [] && c1[0] == c2[0];
        ChainTail(n, c1);
        ChainTail(n, c2);
        ChainUnique(c1[0], c1[1..], c2[1..]);
        assert c1 == [c1[0]] + c1[1..];
        assert c2 == [c2[0]] + c2[1..];
      }
    }

    /** An ancestor chain never revisits a record and never contains the record it starts
        from: a walk that terminates went through no cycle. */
    lemma {:induction false} ChainIsSimple(n: NodeRec, chain: seq<NodeRec>)
      requires IsAncestorChain(n, chain)
      ensures n !in chain
      ensures forall i, j :: 0 <= i < j < |chain| ==> chain[i] != chain[j]
      decreases |chain|
    {
      if chain != [] {
        ChainTail(n, chain);
        ChainIsSimple(chain[0], chain[1..]);
        if n in chain {
          var k :| 0 <= k < |chain| && chain[k] == n;
          ChainSuffix(n, chain, k);
          ChainUnique(n, chain, chain[k + 1..]);
          assert false;
        }
        forall i, j | 0 <= i < j < |chain| ensures chain[i] != chain[j] {
          assert chain[j] == chain[1..][j - 1];
          if i > 0 {
            assert chain[i] == chain[1..][i - 1];
          }
        }
      }
    }

    /** What follows position `k` of an ancestor chain is the ancestor chain of `chain[k]`. */
    lemma {:induction false} ChainSuffix(n: NodeRec, chain: seq<NodeRec>, k: nat)
      requires IsAncestorChain(n, chain) && k < |chain|
      ensures IsAncestorChain(chain[k], chain[k + 1..])
    {
      if k + 1 < |chain| {
        assert ParentStep(chain[k], chain[k + 1]);
        var rest := chain[k + 1..];
        forall i | 0 <= i < |rest| - 1 ensures ParentStep(rest[i], rest[i + 1]) {
          assert ParentStep(chain[k + 1 + i], chain[k + 2 + i]);
        }
      }
    }
  }

  /** get_nodemap_ancestors_recursive: appends the ancestors of `n` to `collection`. */
  method CollectAncestors(tree: TreeMap, n: NodeRec, collection: seq<NodeRec>, ghost chain: seq<NodeRec>)
    returns (collected: seq<NodeRec>)
    requires tree.IsAncestorChain(n, chain)
    ensures collected == collection + chain
    decreases |chain|
  {
    collected := collection;
    if n.parent.Some? {
      var parentNode := tree.nodes[n.parent.value];
      tree.ChainTail(n, chain);
      collected := CollectAncestors(tree, parentNode, collection + [parentNode], chain[1..]);
      assert chain == [chain[0]] + chain[1..];
    }
  }
}
