/** Trees as their links. Both trees of the system keep, for every node, the ordered list of
    its children and a reference to its parent: by id in the arena tree, by reference in the
    pointer tree. This module states when such links form one finite tree, and what
    `add_child` and `move_node` do to them. */
module Forest {
  import opened Wrappers
  import opened Seqs
  import opened Shapes

  /** For every node: its children in order, and its parent (None for a node without one). */
  datatype Links<N> = Links(kids: map<N, seq<N>>, up: map<N, Option<N>>)

  /** `chain` is what following the parent links from `n` visits: the parent, its parent, and
      so on, up to a node without a parent. */
  ghost predicate UpChain<N>(l: Links<N>, n: N, chain: seq<N>)
    decreases |chain|
  {
    && n in l.up
    && if chain == [] then l.up[n] == None
       else l.up[n] == Some(chain[0]) && UpChain(l, chain[0], chain[1..])
  }

  /** Every node has a child list and a parent entry, and the root has no parent. */
  ghost predicate Rooted<N>(l: Links<N>, root: N) {
    l.kids.Keys == l.up.Keys && root in l.up && l.up[root] == None
  }

  /** Every node other than the root has a parent that lists it exactly once. */
  ghost predicate ListedOnce<N>(l: Links<N>, root: N) {
    forall n :: n in l.up && n != root ==>
      l.up[n].Some? && l.up[n].value in l.kids && Count(l.kids[l.up[n].value], n) == 1
  }

  /** A node that lists a child is that child's parent, so nothing else lists it and nothing
      lists the root. */
  ghost predicate PointsUp<N>(l: Links<N>) {
    forall n, m :: m in l.kids && n in l.kids[m] ==> n in l.up && l.up[n] == Some(m)
  }

  /** The links agree both ways. */
  ghost predicate Consistent<N>(l: Links<N>, root: N) {
    Rooted(l, root) && ListedOnce(l, root) && PointsUp(l)
  }

  /** Following the parent links from `n` reaches a node without a parent within `fuel`
      steps. */
  ghost predicate Reaches<N>(l: Links<N>, n: N, fuel: nat)
    decreases fuel
  {
    n in l.up && (l.up[n].Some? ==> fuel > 0 && Reaches(l, l.up[n].value, fuel - 1))
  }

  /** Following the parent links from any node ends, within as many steps as there are nodes:
      there are no cycles. */
  ghost predicate Ends<N>(l: Links<N>) {
    forall n :: n in l.up ==> Reaches(l, n, |l.up.Keys|)
  }

  /** The links form one finite tree below `root`. */
  ghost predicate IsTree<N>(l: Links<N>, root: N) {
    Consistent(l, root) && Ends(l)
  }

  /** The first half of move_node: the first entry of `tgt` leaves its parent's children. */
  ghost function Detach<N>(l: Links<N>, tgt: N): (r: Links<N>)
    ensures r.up == l.up && r.kids.Keys == l.kids.Keys
  {
    if tgt in l.up && l.up[tgt].Some? && l.up[tgt].value in l.kids
    then Links(l.kids[l.up[tgt].value := RemoveFirst(l.kids[l.up[tgt].value], tgt)], l.up)
    else l
  }

  /** The second half of move_node: `tgt` is appended to `np`'s children, and its parent
      becomes `np`. */
  ghost function Attach<N>(l: Links<N>, tgt: N, np: N): (r: Links<N>)
    ensures r.up == l.up[tgt := Some(np)] && r.kids.Keys == l.kids.Keys + {np}
  {
    Links(l.kids[np := (if np in l.kids then l.kids[np] else []) + [tgt]], l.up[tgt := Some(np)])
  }

  /** move_node: the first entry of `tgt` leaves its parent's children, `tgt` is appended to
      `np`'s children, and `tgt`'s parent becomes `np`. A node without a parent is only
      appended. */
  ghost function Move<N>(l: Links<N>, tgt: N, np: N): (r: Links<N>)
    ensures r.up == l.up[tgt := Some(np)]
  {
    Attach(Detach(l, tgt), tgt, np)
  }

  /** add_child of a new node without children: `child` is appended to `p`'s children, and
      its parent is `p`. */
  ghost function Add<N>(l: Links<N>, child: N, p: N): (r: Links<N>)
    requires p in l.kids
    ensures r.up == l.up[child := Some(p)]
  {
    Links(l.kids[p := l.kids[p] + [child]][child := []], l.up[child := Some(p)])
  }

  /** Two maps with the same keys and the same value at every key are equal. */
  lemma SameMap<K, V>(m1: map<K, V>, m2: map<K, V>)
    requires m1.Keys == m2.Keys && forall k :: k in m1 ==> m1[k] == m2[k]
    ensures m1 == m2
  {
  }

  /** A node has at most one parent chain. */
  lemma {:induction false} UpChainUnique<N>(l: Links<N>, n: N, c1: seq<N>, c2: seq<N>)
    requires UpChain(l, n, c1) && UpChain(l, n, c2)
    ensures c1 == c2
    decreases |c1|
  {
    if c1 != [] {
      UpChainUnique(l, c1[0], c1[1..], c2[1..]);
      assert c1 == [c1[0]] + c1[1..] && c2 == [c2[0]] + c2[1..];
    }
  }

  /** Every suffix of a parent chain is the parent chain of the node before it. */
  lemma {:induction false} UpChainSuffix<N>(l: Links<N>, n: N, c: seq<N>, k: nat)
    requires UpChain(l, n, c) && k < |c|
    ensures UpChain(l, c[k], c[k + 1..])
    decreases k
  {
    if k > 0 {
      UpChainSuffix(l, c[0], c[1..], k - 1);
      assert c[1..][k - 1] == c[k] && c[1..][k..] == c[k + 1..];
    }
  }

  /** A parent chain never returns to its start and never repeats a node. */
  lemma UpChainSimple<N>(l: Links<N>, n: N, c: seq<N>)
    requires UpChain(l, n, c)
    ensures n !in c
    ensures forall i, j :: 0 <= i < j < |c| ==> c[i] != c[j]
  {
    if n in c {
      var k :| 0 <= k < |c| && c[k] == n;
      UpChainSuffix(l, n, c, k);
      UpChainUnique(l, n, c, c[k + 1..]);
    }
    forall i, j | 0 <= i < j < |c|
      ensures c[i] != c[j]
    {
      UpChainSuffix(l, n, c, i);
      UpChainSuffix(l, n, c, j);
      if c[i] == c[j] {
        UpChainUnique(l, c[i], c[i + 1..], c[j + 1..]);
      }
    }
  }

  /** The nodes of a parent chain have parent entries. */
  lemma UpChainIn<N>(l: Links<N>, n: N, c: seq<N>)
    requires UpChain(l, n, c)
    ensures forall x :: x in c ==> x in l.up
  {
    forall x | x in c
      ensures x in l.up
    {
      var k :| 0 <= k < |c| && c[k] == x;
      UpChainSuffix(l, n, c, k);
    }
  }

  /** The chain that a walk within `fuel` steps follows. */
  lemma {:induction false} ChainOf<N>(l: Links<N>, n: N, fuel: nat) returns (c: seq<N>)
    requires Reaches(l, n, fuel)
    ensures UpChain(l, n, c) && |c| <= fuel
    decreases fuel
  {
    if l.up[n].None? {
      c := [];
    } else {
      var rest := ChainOf(l, l.up[n].value, fuel - 1);
      c := [l.up[n].value] + rest;
      assert c[1..] == rest;
    }
  }

  /** A chain no longer than `fuel` is a walk within `fuel` steps. */
  lemma {:induction false} ReachesOf<N>(l: Links<N>, n: N, c: seq<N>, fuel: nat)
    requires UpChain(l, n, c) && |c| <= fuel
    ensures Reaches(l, n, fuel)
    decreases fuel
  {
    if c != [] {
      ReachesOf(l, c[0], c[1..], fuel - 1);
    }
  }

  /** A sequence without repeats drawn from `s` is no longer than `s` is large. */
  lemma {:induction false} DistinctBound<N>(c: seq<N>, s: set<N>)
    requires forall i, j :: 0 <= i < j < |c| ==> c[i] != c[j]
    requires forall x :: x in c ==> x in s
    ensures |c| <= |s|
    decreases |c|
  {
    if c != [] {
      var x := c[|c| - 1];
      var init := c[..|c| - 1];
      assert forall y :: y in init ==> y in s - {x} by {
        forall y | y in init
          ensures y in s - {x}
        {
          var k :| 0 <= k < |init| && init[k] == y;
          assert c[k] == y;
        }
      }
      DistinctBound(init, s - {x});
    }
  }

  /** The ancestors read off the links, as get_ancestors collects them: the parent, its parent,
      and so on, following at most `fuel` links. */
  ghost function Ancestors<N>(l: Links<N>, n: N, fuel: nat): seq<N>
    decreases fuel
  {
    if n !in l.up || fuel == 0 then []
    else match l.up[n]
      case None => []
      case Some(p) => [p] + Ancestors(l, p, fuel - 1)
  }

  /** With enough fuel, the ancestors read off the links are the node's parent chain. */
  lemma {:induction false} AncestorsOfChain<N>(l: Links<N>, n: N, c: seq<N>, fuel: nat)
    requires UpChain(l, n, c) && |c| <= fuel
    ensures Ancestors(l, n, fuel) == c
    decreases |c|
  {
    if c != [] {
      AncestorsOfChain(l, c[0], c[1..], fuel - 1);
    }
  }

  /** Every chain is shorter than the number of nodes. */
  lemma ChainShort<N>(l: Links<N>, n: N, c: seq<N>)
    requires UpChain(l, n, c)
    ensures |c| < |l.up.Keys|
  {
    UpChainSimple(l, n, c);
    UpChainIn(l, n, c);
    var full := [n] + c;
    assert forall i, j :: 0 <= i < j < |full| ==> full[i] != full[j] by {
      forall i, j | 0 <= i < j < |full|
        ensures full[i] != full[j]
      {
        if i > 0 {
          assert full[i] == c[i - 1] && full[j] == c[j - 1];
        } else {
          assert full[j] == c[j - 1];
        }
      }
    }
    DistinctBound(full, l.up.Keys);
  }

  /** Every chain is shorter than the number of nodes, so the walk of `Ends` follows it. */
  lemma ChainEnds<N>(l: Links<N>, n: N, c: seq<N>)
    requires UpChain(l, n, c)
    ensures Reaches(l, n, |l.up.Keys|)
  {
    ChainShort(l, n, c);
    ReachesOf(l, n, c, |l.up.Keys|);
  }

  /** A chain survives any change of links that leaves the parents of its nodes alone. */
  lemma {:induction false} UpChainAgree<N>(l: Links<N>, l': Links<N>, n: N, c: seq<N>)
    requires UpChain(l, n, c)
    requires forall x :: (x == n || x in c) ==> x in l.up && x in l'.up && l'.up[x] == l.up[x]
    ensures UpChain(l', n, c)
    decreases |c|
  {
    if c != [] {
      assert forall x :: x in c[1..] ==> x in c;
      UpChainAgree(l, l', c[0], c[1..]);
    }
  }

  /** In a consistent tree every chain from a node other than the root reaches the root. */
  lemma {:induction false} ChainReachesRoot<N>(l: Links<N>, root: N, n: N, c: seq<N>)
    requires Consistent(l, root) && UpChain(l, n, c) && n != root
    ensures root in c
    decreases |c|
  {
    if c != [] && c[0] != root {
      ChainReachesRoot(l, root, c[0], c[1..]);
    }
  }

  /** After the parent of `tgt` alone changes, and `tgt` then has a chain, every node whose
      chain existed before still has one. */
  lemma {:induction false} Reroute<N>(l: Links<N>, l': Links<N>, tgt: N, t: seq<N>, n: N, c: seq<N>)
    returns (c': seq<N>)
    requires UpChain(l, n, c) && UpChain(l', tgt, t)
    requires forall x :: x in l.up && x != tgt ==> x in l'.up && l'.up[x] == l.up[x]
    ensures UpChain(l', n, c')
    decreases |c|
  {
    if n == tgt {
      c' := t;
    } else if c == [] {
      c' := [];
    } else {
      var rest := Reroute(l, l', tgt, t, c[0], c[1..]);
      c' := [c[0]] + rest;
      assert c'[1..] == rest;
    }
  }

  /** After a move of `tgt` under `np`, with `tgt` off `np`'s chain, the ancestors of `tgt` are
      `np` followed by the ancestors `np` had. */
  lemma MoveAncestors<N>(l: Links<N>, tgt: N, np: N, cnp: seq<N>)
    requires tgt in l.up && np in l.up && tgt != np && UpChain(l, np, cnp) && tgt !in cnp
    ensures Ancestors(Move(l, tgt, np), tgt, |l.up.Keys|) == [np] + Ancestors(l, np, |l.up.Keys|)
  {
    var l' := Move(l, tgt, np);
    UpChainIn(l, np, cnp);
    UpChainAgree(l, l', np, cnp);
    assert UpChain(l', tgt, [np] + cnp) by {
      assert ([np] + cnp)[1..] == cnp;
    }
    assert l'.up.Keys == l.up.Keys;
    ChainShort(l', tgt, [np] + cnp);
    ChainShort(l, np, cnp);
    AncestorsOfChain(l', tgt, [np] + cnp, |l.up.Keys|);
    AncestorsOfChain(l, np, cnp, |l.up.Keys|);
  }

  /** The child lists after a move, node by node. */
  lemma MoveKids<N>(l: Links<N>, root: N, tgt: N, np: N)
    requires Consistent(l, root) && tgt in l.up && np in l.up && l.up[tgt].Some?
    ensures Move(l, tgt, np).kids.Keys == l.kids.Keys
    ensures Move(l, tgt, np).kids[np] ==
      (if np == l.up[tgt].value then RemoveFirst(l.kids[np], tgt) else l.kids[np]) + [tgt]
    ensures l.up[tgt].value != np ==>
      Move(l, tgt, np).kids[l.up[tgt].value] == RemoveFirst(l.kids[l.up[tgt].value], tgt)
    ensures forall m :: m in l.kids && m != np && m != l.up[tgt].value ==>
      Move(l, tgt, np).kids[m] == l.kids[m]
  {
  }

  /** After a move, every node other than the root is listed exactly once by its parent. */
  lemma MoveListedOnce<N>(l: Links<N>, root: N, tgt: N, np: N)
    requires Rooted(l, root) && ListedOnce(l, root) && PointsUp(l)
    requires tgt in l.up && np in l.up && tgt != np && tgt != root
    ensures ListedOnce(Move(l, tgt, np), root)
    ensures Count(Move(l, tgt, np).kids[np], tgt) == 1
  {
    var l' := Move(l, tgt, np);
    var op := l.up[tgt].value;
    MoveKids(l, root, tgt, np);
    RemoveFirstSpec(l.kids[op], tgt);
    CountZero(RemoveFirst(l.kids[op], tgt), tgt);
    var k1np := if np == op then RemoveFirst(l.kids[np], tgt) else l.kids[np];
    assert Count(k1np, tgt) == 0 by {
      if np != op {
        CountZero(l.kids[np], tgt);
      }
    }
    CountAppend(k1np, [tgt], tgt);
    assert Count(l'.kids[np], tgt) == 1;
    forall n | n in l'.up && n != root
      ensures l'.up[n].Some? && l'.up[n].value in l'.kids && Count(l'.kids[l'.up[n].value], n) == 1
    {
      CountAppend(k1np, [tgt], n);
      if n != tgt {
        assert Count([tgt], n) == 0;
      }
    }
  }

  /** After a move, a node lists `tgt` only if it is `np`, and lists any other node only if it
      listed it before. */
  lemma MoveKidsFrom<N>(l: Links<N>, root: N, tgt: N, np: N)
    requires Rooted(l, root) && ListedOnce(l, root) && PointsUp(l)
    requires tgt in l.up && np in l.up && tgt != root
    ensures forall m, n :: m in Move(l, tgt, np).kids && n in Move(l, tgt, np).kids[m] ==>
      (n == tgt && m == np) || (n != tgt && n in l.kids[m])
  {
    var l' := Move(l, tgt, np);
    var op := l.up[tgt].value;
    MoveKids(l, root, tgt, np);
    var r := RemoveFirst(l.kids[op], tgt);
    RemoveFirstSpec(l.kids[op], tgt);
    CountZero(r, tgt);
    var k1np := if np == op then r else l.kids[np];
    forall m, n | m in l'.kids && n in l'.kids[m]
      ensures (n == tgt && m == np) || (n != tgt && n in l.kids[m])
    {
      if m == np {
        assert l'.kids[m] == k1np + [tgt];
        assert n in k1np || n == tgt;
        if n != tgt && np == op {
          assert n in multiset(r);
        }
      } else if m == op {
        assert l'.kids[m] == r;
        assert n in multiset(r);
      } else {
        assert l'.kids[m] == l.kids[m];
        assert tgt in l.kids[m] ==> l.up[tgt] == Some(m);
      }
    }
  }

  /** After a move, every listed child still points at the node that lists it, and only `np`
      lists `tgt`. */
  lemma MovePointsUp<N>(l: Links<N>, root: N, tgt: N, np: N)
    requires Rooted(l, root) && ListedOnce(l, root) && PointsUp(l)
    requires tgt in l.up && np in l.up && tgt != root
    ensures PointsUp(Move(l, tgt, np))
    ensures forall m :: m in Move(l, tgt, np).kids && tgt in Move(l, tgt, np).kids[m] ==> m == np
  {
    MoveKidsFrom(l, root, tgt, np);
  }

  /** After a move, every listed child still points at the node that lists it. */
  /** A node that does not appear in the parent chain of another node is not the root. */
  lemma NotRoot<N>(l: Links<N>, root: N, tgt: N, np: N, cnp: seq<N>)
    requires Consistent(l, root) && tgt != np && UpChain(l, np, cnp) && tgt !in cnp
    ensures tgt != root
  {
    if tgt == root {
      ChainReachesRoot(l, root, np, cnp);
    }
  }

  /** After a move of `tgt` under a node that does not descend from it, every parent chain is
      still finite. */
  lemma MoveEnds<N>(l: Links<N>, tgt: N, np: N, cnp: seq<N>)
    requires l.kids.Keys == l.up.Keys && Ends(l) && tgt in l.up && tgt != np
    requires UpChain(l, np, cnp) && tgt !in cnp
    ensures Ends(Move(l, tgt, np))
  {
    var l' := Move(l, tgt, np);
    UpChainIn(l, np, cnp);
    UpChainAgree(l, l', np, cnp);
    var t := [np] + cnp;
    assert t[1..] == cnp;
    assert UpChain(l', tgt, t);
    forall n | n in l'.up
      ensures Reaches(l', n, |l'.up.Keys|)
    {
      var c := ChainOf(l, n, |l.up.Keys|);
      var c' := Reroute(l, l', tgt, t, n, c);
      ChainEnds(l', n, c');
    }
  }

  /** move_node keeps a tree a tree: when `np` is in the tree and `tgt` is neither `np` nor one
      of its ancestors, `tgt` is not the root, and after the move `np` is the one node that
      lists `tgt`, exactly once. */
  lemma MoveKeepsTree<N>(l: Links<N>, root: N, tgt: N, np: N, cnp: seq<N>)
    requires IsTree(l, root) && tgt in l.up && np in l.up && tgt != np
    requires UpChain(l, np, cnp) && tgt !in cnp
    ensures tgt != root && l.up[tgt].Some?
    ensures IsTree(Move(l, tgt, np), root)
    ensures Count(Move(l, tgt, np).kids[np], tgt) == 1
    ensures forall m :: m in Move(l, tgt, np).kids && tgt in Move(l, tgt, np).kids[m] ==> m == np
  {
    NotRoot(l, root, tgt, np, cnp);
    MoveListedOnce(l, root, tgt, np);
    MovePointsUp(l, root, tgt, np);
    MoveEnds(l, tgt, np, cnp);
  }

  /** add_child of a new node under a node in the tree lists every other node exactly once. */
  lemma AddListedOnce<N>(l: Links<N>, root: N, child: N, p: N)
    requires Rooted(l, root) && ListedOnce(l, root) && PointsUp(l) && p in l.up && child !in l.up
    ensures ListedOnce(Add(l, child, p), root)
  {
    var l' := Add(l, child, p);
    CountZero(l.kids[p], child);
    forall n | n in l'.up && n != root
      ensures l'.up[n].Some? && l'.up[n].value in l'.kids && Count(l'.kids[l'.up[n].value], n) == 1
    {
      CountAppend(l.kids[p], [child], n);
    }
  }

  /** add_child of a new node keeps every listed child pointing at the node that lists it. */
  lemma AddPointsUp<N>(l: Links<N>, root: N, child: N, p: N)
    requires Rooted(l, root) && PointsUp(l) && p in l.up && child !in l.up
    ensures PointsUp(Add(l, child, p))
  {
  }

  /** add_child of a new node keeps every parent chain finite. */
  lemma AddEnds<N>(l: Links<N>, child: N, p: N)
    requires l.kids.Keys == l.up.Keys && Ends(l) && p in l.up && child !in l.up
    ensures Ends(Add(l, child, p))
  {
    var l' := Add(l, child, p);
    forall n | n in l.up
      ensures Reaches(l', n, |l'.up.Keys|)
    {
      var c := ChainOf(l, n, |l.up.Keys|);
      UpChainIn(l, n, c);
      UpChainAgree(l, l', n, c);
      ChainEnds(l', n, c);
    }
    var cp := ChainOf(l, p, |l.up.Keys|);
    UpChainIn(l, p, cp);
    UpChainAgree(l, l', p, cp);
    assert ([p] + cp)[1..] == cp;
    ChainEnds(l', child, [p] + cp);
  }

  /** add_child keeps a tree a tree when the child is a new node without children and the
      parent is in the tree; afterwards the parent is the one node that lists the child,
      exactly once. */
  lemma AddKeepsTree<N>(l: Links<N>, root: N, child: N, p: N)
    requires IsTree(l, root) && p in l.up && child !in l.up
    ensures IsTree(Add(l, child, p), root)
    ensures Count(Add(l, child, p).kids[p], child) == 1
    ensures forall m :: m in Add(l, child, p).kids && child in Add(l, child, p).kids[m] ==> m == p
  {
    AddListedOnce(l, root, child, p);
    AddPointsUp(l, root, child, p);
    AddEnds(l, child, p);
    var l' := Add(l, child, p);
    assert child != root && child in l'.up && l'.up[child] == Some(p);
  }

  /** The number of parent links followed from `n`, within `fuel` steps. */
  ghost function Depth<N>(l: Links<N>, n: N, fuel: nat): (d: nat)
    ensures d <= fuel
    decreases fuel
  {
    if fuel == 0 || n !in l.up || l.up[n].None? then 0 else 1 + Depth(l, l.up[n].value, fuel - 1)
  }

  /** Within enough steps, the depth of a node is the length of its parent chain. */
  lemma {:induction false} DepthOfChain<N>(l: Links<N>, n: N, c: seq<N>, fuel: nat)
    requires UpChain(l, n, c) && |c| <= fuel
    ensures Depth(l, n, fuel) == |c|
    decreases |c|
  {
    if c != [] {
      DepthOfChain(l, c[0], c[1..], fuel - 1);
    }
  }

  /** In a tree, a child is one level deeper than the node that lists it. */
  lemma DepthStep<N>(l: Links<N>, root: N, n: N, k: N)
    requires IsTree(l, root) && n in l.kids && k in l.kids[n]
    ensures k in l.up && l.up[k] == Some(n)
    ensures Depth(l, k, |l.up.Keys|) == Depth(l, n, |l.up.Keys|) + 1
  {
    var fuel := |l.up.Keys|;
    var c := ChainOf(l, n, fuel);
    var ck := [n] + c;
    assert ck[1..] == c;
    assert UpChain(l, k, ck);
    ChainShort(l, k, ck);
    DepthOfChain(l, n, c, fuel);
    DepthOfChain(l, k, ck, fuel);
  }

  /** The tree below `n`, unfolded: `n` and, in order, the trees below its children. */
  ghost function Unfold<N>(l: Links<N>, root: N, n: N): (s: Shape<N>)
    requires IsTree(l, root) && n in l.up
    ensures s.node == n && |s.kids| == |l.kids[n]|
    decreases |l.up.Keys| - Depth(l, n, |l.up.Keys|), 1, 0
  {
    Shape(n, UnfoldKids(l, root, n, l.kids[n]))
  }

  /** The trees below the children `ks` of `n`, in order. */
  ghost function UnfoldKids<N>(l: Links<N>, root: N, n: N, ks: seq<N>): (q: seq<Shape<N>>)
    requires IsTree(l, root) && n in l.up && forall k :: k in ks ==> k in l.kids[n]
    ensures |q| == |ks| && forall i :: 0 <= i < |ks| ==> q[i].node == ks[i]
    decreases |l.up.Keys| - Depth(l, n, |l.up.Keys|), 0, |ks|
  {
    if ks == [] then []
    else
      DepthStep(l, root, n, ks[0]);
      var q := [Unfold(l, root, ks[0])] + UnfoldKids(l, root, n, ks[1..]);
      assert forall i :: 1 <= i < |ks| ==> ks[i] == ks[1..][i - 1];
      q
  }

  /** Each entry of the unfolded children is the tree below that child. */
  lemma {:induction false} UnfoldKidsAt<N>(l: Links<N>, root: N, n: N, ks: seq<N>, i: nat)
    requires IsTree(l, root) && n in l.up && forall k :: k in ks ==> k in l.kids[n]
    requires i < |ks|
    ensures ks[i] in l.up && UnfoldKids(l, root, n, ks)[i] == Unfold(l, root, ks[i])
    decreases i
  {
    DepthStep(l, root, n, ks[i]);
    if i > 0 {
      assert forall k :: k in ks[1..] ==> k in ks;
      UnfoldKidsAt(l, root, n, ks[1..], i - 1);
    }
  }
}
