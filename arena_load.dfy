/** `TreeMap.load` and `TreeMap.export` of tree_py/src/lib.rs over the arena tree: the nested
    dictionary is walked breadth-first through a queue of (dictionary, parent record) pairs, each
    dictionary becoming a record added under the record built for its enclosing dictionary, and
    the export rebuilds the sparse dictionary by resolving child ids through the table. The
    payloads live beside the table in a map from id to payload. */
module ArenaLoad {
  import opened Wrappers
  import opened Shapes
  import opened Records
  import opened Arena

  /** The ids of `cs`, in order. */
  function Ids<D>(cs: seq<Dict<D>>): (xs: seq<string>)
    requires forall i :: 0 <= i < |cs| ==> cs[i].id.Given?
    ensures |xs| == |cs| && forall i :: 0 <= i < |cs| ==> xs[i] == cs[i].id.value
  {
    seq(|cs|, i requires 0 <= i < |cs| => cs[i].id.value)
  }

  /** The ids of `d` and of every dictionary below it, in pre-order. */
  function AllIds<D>(d: Dict<D>): (xs: seq<string>)
    requires Loads(d)
    ensures |xs| >= 1 && xs[0] == d.id.value
    decreases d
  {
    [d.id.value] + if d.children.Present? then AllIdsAll(d.children.value) else []
  }

  function AllIdsAll<D>(cs: seq<Dict<D>>): seq<string>
    requires forall i :: 0 <= i < |cs| ==> Loads(cs[i])
    decreases cs
  {
    if cs == [] then [] else AllIds(cs[0]) + AllIdsAll(cs[1..])
  }

  /** No dictionary below the top one is called "root", so the load never overwrites the
      alias. */
  predicate AliasFree<D>(d: Dict<D>)
    requires Loads(d)
  {
    RootKey !in AllIds(d)[1..]
  }

  /** No id occurs twice in `d`, and the alias is never overwritten. */
  predicate UniqueIds<D>(d: Dict<D>)
    requires Loads(d)
  {
    && (forall x :: x in AllIds(d) ==> multiset(AllIds(d))[x] <= 1)
    && AliasFree(d)
  }

  /** No dictionary in `d` holds an empty "children" list. */
  predicate NoEmptyLists<D>(d: Dict<D>)
    decreases d
  {
    d.children.Present? ==>
      |d.children.value| > 0 &&
      forall i :: 0 <= i < |d.children.value| ==> NoEmptyLists(d.children.value[i])
  }

  /** The queue entries that `cs` become once their parent record `p` is built. */
  function Enqueue<D>(cs: seq<Dict<D>>, p: NodeRec): (q: seq<(Dict<D>, NodeRec)>)
    ensures |q| == |cs| && forall i :: 0 <= i < |cs| ==> q[i] == (cs[i], p)
  {
    seq(|cs|, i requires 0 <= i < |cs| => (cs[i], p))
  }

  /** The dictionaries in `q` still waiting to be added under `p`, in queue order. */
  function Waiting<D>(q: seq<(Dict<D>, NodeRec)>, p: NodeRec): seq<Dict<D>>
    decreases q
  {
    if q == [] then [] else (if q[0].1 == p then [q[0].0] else []) + Waiting(q[1..], p)
  }

  lemma {:induction false} WaitingAppend<D>(a: seq<(Dict<D>, NodeRec)>, b: seq<(Dict<D>, NodeRec)>, p: NodeRec)
    ensures Waiting(a + b, p) == Waiting(a, p) + Waiting(b, p)
    decreases a
  {
    if a == [] {
      assert a + b == b;
    } else {
      var front := if a[0].1 == p then [a[0].0] else [];
      calc {
        Waiting(a + b, p);
        front + Waiting((a + b)[1..], p);
        { assert (a + b)[1..] == a[1..] + b; }
        front + Waiting(a[1..] + b, p);
        { WaitingAppend(a[1..], b, p); }
        front + (Waiting(a[1..], p) + Waiting(b, p));
        (front + Waiting(a[1..], p)) + Waiting(b, p);
      }
    }
  }

  lemma {:induction false} WaitingEnqueue<D>(cs: seq<Dict<D>>, r: NodeRec, p: NodeRec)
    ensures Waiting(Enqueue(cs, r), p) == if r == p then cs else []
    decreases cs
  {
    if cs != [] {
      assert Enqueue(cs, r)[1..] == Enqueue(cs[1..], r);
      WaitingEnqueue(cs[1..], r, p);
      if r == p {
        assert cs == [cs[0]] + cs[1..];
      }
    }
  }

  /** The ids of every dictionary in the queue and below, front first. */
  function QueueIds<D>(q: seq<(Dict<D>, NodeRec)>): seq<string>
    requires forall k :: 0 <= k < |q| ==> Loads(q[k].0)
    decreases q
  {
    if q == [] then [] else AllIds(q[0].0) + QueueIds(q[1..])
  }

  lemma {:induction false} QueueIdsAppend<D>(a: seq<(Dict<D>, NodeRec)>, b: seq<(Dict<D>, NodeRec)>)
    requires forall k :: 0 <= k < |a| ==> Loads(a[k].0)
    requires forall k :: 0 <= k < |b| ==> Loads(b[k].0)
    ensures forall k :: 0 <= k < |a + b| ==> Loads((a + b)[k].0)
    ensures QueueIds(a + b) == QueueIds(a) + QueueIds(b)
    decreases a
  {
    if a == [] {
      assert a + b == b;
    } else {
      calc {
        QueueIds(a + b);
        AllIds(a[0].0) + QueueIds((a + b)[1..]);
        { assert (a + b)[1..] == a[1..] + b; }
        AllIds(a[0].0) + QueueIds(a[1..] + b);
        { QueueIdsAppend(a[1..], b); }
        AllIds(a[0].0) + (QueueIds(a[1..]) + QueueIds(b));
        (AllIds(a[0].0) + QueueIds(a[1..])) + QueueIds(b);
      }
    }
  }

  lemma {:induction false} QueueIdsEnqueue<D>(cs: seq<Dict<D>>, r: NodeRec)
    requires forall i :: 0 <= i < |cs| ==> Loads(cs[i])
    ensures QueueIds(Enqueue(cs, r)) == AllIdsAll(cs)
    decreases cs
  {
    if cs != [] {
      assert Enqueue(cs, r)[1..] == Enqueue(cs[1..], r);
      QueueIdsEnqueue(cs[1..], r);
    }
  }

  /** The queue entries of records other than `r` are not waiting for `r`. */
  lemma {:induction false} WaitingNone<D>(q: seq<(Dict<D>, NodeRec)>, r: NodeRec)
    requires forall k :: 0 <= k < |q| ==> q[k].1 != r
    ensures Waiting(q, r) == []
    decreases q
  {
    if q != [] {
      WaitingNone(q[1..], r);
    }
  }

  /** Every link of the table `t` resolves to the record whose unfolding `s` gives next. */
  ghost predicate TableMirrors(t: TreeMap, s: Shape<NodeRec>)
    reads t, NodesOf(s)`children
    decreases s
  {
    && |s.node.children| == |s.kids|
    && forall i :: 0 <= i < |s.kids| ==>
         && s.node.children[i] in t.nodes
         && t.nodes[s.node.children[i]] == s.kids[i].node
         && TableMirrors(t, s.kids[i])
  }

  /** set_py_dict_recursively_map: "id" always, "data" when the payload table has an entry
      for the id (Python's None included), "children" only when there are any, each child id
      resolved through the table, in stored order. */
  function ExportMap<D>(t: TreeMap, n: NodeRec, data: map<string, Option<D>>, ghost s: Shape<NodeRec>)
    : (d: Dict<D>)
    requires s.node == n && TableMirrors(t, s)
    reads t, NodesOf(s)`children
    ensures d.id == Given(n.id)
    ensures d.data.Some? <==> n.id in data
    ensures d.data.Some? ==> d.data.value == data[n.id]
    ensures d.children.Missing? <==> n.children == []
    ensures !d.children.WrongType?
    ensures |Kids(d)| == |n.children|
    ensures forall i :: 0 <= i < |n.children| ==> Kids(d)[i].id == Given(t.nodes[n.children[i]].id)
    decreases s
  {
    var ks := ExportMapKids(t, n.children, data, s.kids);
    Dict(Given(n.id), if n.id in data then Some(data[n.id]) else None,
         if |n.children| == 0 then Missing else Present(ks))
  }

  function ExportMapKids<D>(t: TreeMap, ids: seq<string>, data: map<string, Option<D>>,
                            ghost q: seq<Shape<NodeRec>>): (ds: seq<Dict<D>>)
    requires |ids| == |q|
    requires forall i :: 0 <= i < |q| ==>
      ids[i] in t.nodes && t.nodes[ids[i]] == q[i].node && TableMirrors(t, q[i])
    reads t, (set i, m | 0 <= i < |q| && m in NodesOf(q[i]) :: m)`children
    ensures |ds| == |q| && forall i :: 0 <= i < |q| ==> ds[i] == ExportMap(t, q[i].node, data, q[i])
    decreases q
  {
    if ids == [] then []
    else
      assert forall i :: 1 <= i < |q| ==> q[i] == q[1..][i - 1];
      var first := ExportMap(t, t.nodes[ids[0]], data, q[0]);
      var rest := ExportMapKids(t, ids[1..], data, q[1..]);
      assert forall i :: 1 <= i < |q| ==> ([first] + rest)[i] == rest[i - 1];
      [first] + rest
  }

  /** What the export produces loads again, and holds no empty "children" list. */
  lemma {:induction false} ExportMapIsLoadable<D>(t: TreeMap, n: NodeRec, data: map<string, Option<D>>,
                                                  s: Shape<NodeRec>)
    requires s.node == n && TableMirrors(t, s)
    ensures Loads(ExportMap(t, n, data, s)) && NoEmptyLists(ExportMap(t, n, data, s))
    decreases s
  {
    forall i | 0 <= i < |s.kids| {
      ExportMapIsLoadable(t, s.kids[i].node, data, s.kids[i]);
    }
  }

  /** `src` tells, for each record the load built, the dictionary it was built from; in `t`
      every child id of such a record names the record built from the matching child
      dictionary. */
  ghost predicate Built<D>(t: TreeMap, src: map<NodeRec, Dict<D>>)
    reads t, src.Keys
  {
    forall rec :: rec in src ==>
      && Loads(src[rec]) && rec.id == src[rec].id.value
      && |rec.children| == |Kids(src[rec])|
      && forall i :: 0 <= i < |rec.children| ==>
           && rec.children[i] in t.nodes
           && t.nodes[rec.children[i]] in src
           && src[t.nodes[rec.children[i]]] == Kids(src[rec])[i]
  }

  /** The payload table holds an entry for a built record exactly when its dictionary has a
      "data" key, and then holds that value. */
  ghost predicate DataAgrees<D>(src: map<NodeRec, Dict<D>>, data: map<string, Option<D>>) {
    forall rec :: rec in src ==> src[rec].data == (if rec.id in data then Some(data[rec.id]) else None)
  }

  /** The unfolding of the table from a built record, following the dictionary it came from. */
  ghost function ShapeFrom<D>(t: TreeMap, src: map<NodeRec, Dict<D>>, rec: NodeRec): (s: Shape<NodeRec>)
    requires Built(t, src) && rec in src
    reads t, src.Keys
    ensures s.node == rec && |s.kids| == |rec.children|
    decreases src[rec]
  {
    Shape(rec, seq(|rec.children|, i requires 0 <= i < |rec.children| && Built(t, src) && rec in src
                                     reads t, src.Keys =>
                     ShapeFrom(t, src, t.nodes[rec.children[i]])))
  }

  /** Exporting from a built record gives back the dictionary it was built from, when that
      dictionary holds no empty "children" list. */
  lemma {:induction false} ExportBuilt<D>(t: TreeMap, src: map<NodeRec, Dict<D>>,
                                          data: map<string, Option<D>>, rec: NodeRec)
    requires Built(t, src) && DataAgrees(src, data) && rec in src && NoEmptyLists(src[rec])
    ensures TableMirrors(t, ShapeFrom(t, src, rec))
    ensures ExportMap(t, rec, data, ShapeFrom(t, src, rec)) == src[rec]
    decreases src[rec]
  {
    var s := ShapeFrom(t, src, rec);
    var cs := Kids(src[rec]);
    forall i | 0 <= i < |rec.children|
      ensures TableMirrors(t, s.kids[i]) && ExportMap(t, s.kids[i].node, data, s.kids[i]) == cs[i]
    {
      ExportBuilt(t, src, data, t.nodes[rec.children[i]]);
    }
    var ks := ExportMapKids(t, rec.children, data, s.kids);
    assert ks == cs;
  }

  /** The state of the load loop, with the fields of the records it built copied out: the
      table, each record's children and parent, the queue, the dictionary each record was built
      from, the record each was added under, the ids taken so far and the payload table. */
  datatype LoadState<D> = LoadState(
    nodes: map<string, NodeRec>,
    kidsOf: map<NodeRec, seq<string>>,
    parentOf: map<NodeRec, Option<string>>,
    queue: seq<(Dict<D>, NodeRec)>,
    src: map<NodeRec, Dict<D>>,
    up: map<NodeRec, NodeRec>,
    doneIds: seq<string>,
    data: map<string, Option<D>>)

  /** The copied fields agree with the records and the table. */
  ghost predicate Snapshot<D>(tree: TreeMap, st: LoadState<D>)
    reads tree, st.src.Keys
  {
    && tree.nodes == st.nodes
    && forall rec :: rec in st.src ==>
         rec in st.kidsOf && rec in st.parentOf &&
         rec.children == st.kidsOf[rec] && rec.parent == st.parentOf[rec]
  }

  ghost predicate QueueOk<D>(st: LoadState<D>) {
    forall k :: 0 <= k < |st.queue| ==> st.queue[k].1 in st.src && Loads(st.queue[k].0)
  }

  /** The built record `rec` has its dictionary's id; it lists the ids of a prefix of its
      dictionary's children, and the rest wait in the queue under it, in order. */
  ghost predicate RecOk<D>(st: LoadState<D>, rec: NodeRec)
    requires rec in st.src
  {
    && rec in st.kidsOf
    && Loads(st.src[rec]) && rec.id == st.src[rec].id.value && rec.id in st.doneIds
    && |st.kidsOf[rec]| <= |Kids(st.src[rec])|
    && Waiting(st.queue, rec) == Kids(st.src[rec])[|st.kidsOf[rec]|..]
    && forall i :: 0 <= i < |st.kidsOf[rec]| ==> Kids(st.src[rec])[i].id == Given(st.kidsOf[rec][i])
  }

  ghost predicate RecsOk<D>(st: LoadState<D>) {
    forall rec {:trigger RecOk(st, rec)} :: rec in st.src ==> RecOk(st, rec)
  }

  /** The table's keys are the alias and the ids taken; each key names a built record with
      that id; payloads are stored only under ids taken. */
  ghost predicate KeysOk<D>(st: LoadState<D>) {
    && (forall x :: x in st.nodes <==> x == RootKey || x in st.doneIds)
    && (forall x :: x in st.nodes ==> st.nodes[x] in st.src && (x != RootKey ==> st.nodes[x].id == x))
    && (forall x :: x in st.data ==> x in st.doneIds)
  }

  /** The ids taken and the ids still in the queue are, together, the ids of the input. */
  ghost predicate BagOk<D>(d: Dict<D>, st: LoadState<D>) {
    && Loads(d) && QueueOk(st)
    && multiset(st.doneIds) + multiset(QueueIds(st.queue)) == multiset(AllIds(d))
  }

  /** The built record `rec` names as its parent the record it was added under, which lists
      it. */
  ghost predicate UpLink<D>(st: LoadState<D>, rec: NodeRec) {
    && rec in st.up && st.up[rec] in st.src
    && rec in st.parentOf && st.parentOf[rec] == Some(st.up[rec].id)
    && st.up[rec] in st.kidsOf && rec.id in st.kidsOf[st.up[rec]]
  }

  ghost predicate UpOk<D>(root: NodeRec, st: LoadState<D>) {
    forall rec {:trigger UpLink(st, rec)} :: rec in st.src && rec != root ==> UpLink(st, rec)
  }

  /** With unique ids, every child id of the built record `rec` resolves to the record built
      from the matching child dictionary. */
  ghost predicate Resolved<D>(st: LoadState<D>, rec: NodeRec)
    requires rec in st.src
  {
    && rec in st.kidsOf && |st.kidsOf[rec]| <= |Kids(st.src[rec])|
    && forall i :: 0 <= i < |st.kidsOf[rec]| ==>
         && st.kidsOf[rec][i] in st.nodes && st.nodes[st.kidsOf[rec][i]] in st.src
         && st.src[st.nodes[st.kidsOf[rec][i]]] == Kids(st.src[rec])[i]
  }

  /** No dictionary called "root" waits in the queue, and the alias still names the root. */
  ghost predicate AliasOk<D>(root: NodeRec, st: LoadState<D>)
    requires QueueOk(st)
  {
    RootKey in st.nodes && st.nodes[RootKey] == root && RootKey !in QueueIds(st.queue)
  }

  /** With unique ids: no entry was overwritten, every child id resolves, and the payload
      table agrees with the input. */
  ghost predicate UniqueOk<D>(st: LoadState<D>) {
    && (forall rec :: rec in st.src ==> rec.id in st.nodes && st.nodes[rec.id] == rec)
    && (forall rec {:trigger Resolved(st, rec)} :: rec in st.src ==> Resolved(st, rec))
    && DataAgrees(st.src, st.data)
  }

  /** The part of the loop invariant that holds whatever the ids. */
  ghost predicate InvCore<D>(d: Dict<D>, root: NodeRec, st: LoadState<D>) {
    && Loads(d)
    && root in st.src && st.src[root] == d && RootKey in st.nodes
    && root in st.parentOf && st.parentOf[root] == None
    && QueueOk(st) && RecsOk(st) && KeysOk(st) && BagOk(d, st) && UpOk(root, st)
  }

  /** The part of the loop invariant that depends on the ids. */
  ghost predicate InvIds<D>(d: Dict<D>, root: NodeRec, st: LoadState<D>)
    requires Loads(d) && QueueOk(st)
  {
    && (AliasFree(d) ==> AliasOk(root, st))
    && (UniqueIds(d) ==> UniqueOk(st))
  }

  /** The invariant of the load loop. */
  ghost predicate Inv<D>(d: Dict<D>, root: NodeRec, st: LoadState<D>) {
    InvCore(d, root, st) && InvIds(d, root, st)
  }

  /** One turn of the load loop: the front dictionary becomes the record `r`. */
  ghost function Step<D>(st: LoadState<D>, r: NodeRec): LoadState<D>
    requires st.queue != [] && st.queue[0].0.id.Given? && st.queue[0].1 in st.kidsOf
  {
    var c := st.queue[0].0;
    var p := st.queue[0].1;
    var cid := c.id.value;
    LoadState(st.nodes[cid := r],
              st.kidsOf[p := st.kidsOf[p] + [cid]][r := []],
              st.parentOf[r := Some(p.id)],
              st.queue[1..] + Enqueue(Kids(c), r),
              st.src[r := c],
              st.up[r := p],
              st.doneIds + [cid],
              if c.data.Some? then st.data[cid := c.data.value] else st.data)
  }

  /** The ids in a non-empty queue: the front's, those below it, then the rest. */
  lemma QueueIdsFront<D>(q: seq<(Dict<D>, NodeRec)>)
    requires q != [] && forall k :: 0 <= k < |q| ==> Loads(q[k].0)
    ensures forall i :: 0 <= i < |Kids(q[0].0)| ==> Loads(Kids(q[0].0)[i])
    ensures QueueIds(q) == [q[0].0.id.value] + AllIdsAll(Kids(q[0].0)) + QueueIds(q[1..])
  {
  }

  /** What one turn of the loop relies on: the front dictionary is the next child its parent
      record is waiting for. */
  lemma StepBasics<D>(st: LoadState<D>)
    requires QueueOk(st) && RecsOk(st) && st.queue != []
    ensures st.queue[0].1 in st.src && st.queue[0].1 in st.kidsOf && Loads(st.queue[0].0)
    ensures |st.kidsOf[st.queue[0].1]| < |Kids(st.src[st.queue[0].1])|
    ensures Kids(st.src[st.queue[0].1])[|st.kidsOf[st.queue[0].1]|] == st.queue[0].0
    ensures Waiting(st.queue[1..], st.queue[0].1) ==
      Kids(st.src[st.queue[0].1])[|st.kidsOf[st.queue[0].1]| + 1..]
  {
    var c := st.queue[0].0;
    var p := st.queue[0].1;
    assert RecOk(st, p);
    assert Waiting(st.queue, p) == [c] + Waiting(st.queue[1..], p);
  }

  /** The queue after a turn: what was behind the front, then the front's children under `r`. */
  lemma StepQueue<D>(st: LoadState<D>, r: NodeRec)
    requires QueueOk(st) && st.queue != [] && r !in st.src && st.queue[0].1 in st.kidsOf
    ensures st.queue[0].0.id.Given?
    ensures QueueOk(Step(st, r))
    ensures QueueIds(Step(st, r).queue) == QueueIds(st.queue[1..]) + AllIdsAll(Kids(st.queue[0].0))
    ensures forall rec :: Waiting(Step(st, r).queue, rec) ==
                            Waiting(st.queue[1..], rec) + (if rec == r then Kids(st.queue[0].0) else [])
  {
    var c := st.queue[0].0;
    var rest := st.queue[1..];
    var more := Enqueue(Kids(c), r);
    QueueIdsFront(st.queue);
    var st' := Step(st, r);
    assert st'.queue == rest + more;
    QueueIdsAppend(rest, more);
    QueueIdsEnqueue(Kids(c), r);
    forall rec ensures Waiting(st'.queue, rec) == Waiting(rest, rec) + (if rec == r then Kids(c) else []) {
      WaitingAppend(rest, more, rec);
      WaitingEnqueue(Kids(c), r, rec);
    }
  }

  /** A record that is neither the front's parent nor the new one keeps its place. */
  lemma StepRecOther<D>(st: LoadState<D>, r: NodeRec, rec: NodeRec)
    requires QueueOk(st) && st.queue != [] && r !in st.src && st.queue[0].1 in st.kidsOf
    requires rec in st.src && rec != st.queue[0].1 && RecOk(st, rec)
    ensures rec in Step(st, r).src && RecOk(Step(st, r), rec)
  {
    StepQueue(st, r);
    assert Waiting(st.queue, rec) == Waiting(st.queue[1..], rec);
  }

  /** The front's parent lists one more child and waits for one fewer. */
  lemma StepRecParent<D>(st: LoadState<D>, r: NodeRec)
    requires QueueOk(st) && RecsOk(st) && st.queue != [] && r !in st.src
    ensures st.queue[0].1 in st.kidsOf && st.queue[0].1 in Step(st, r).src
    ensures RecOk(Step(st, r), st.queue[0].1)
  {
    StepBasics(st);
    var c, p := st.queue[0].0, st.queue[0].1;
    assert RecOk(st, p);
    StepQueue(st, r);
    var st' := Step(st, r);
    var ks, n := Kids(st.src[p]), |st.kidsOf[p]|;
    assert p != r && st'.src[p] == st.src[p] && st'.kidsOf[p] == st.kidsOf[p] + [c.id.value];
    assert Waiting(st'.queue, p) == ks[n + 1..];
    assert p.id in st'.doneIds by {
      assert st'.doneIds == st.doneIds + [c.id.value];
    }
    forall i | 0 <= i < n + 1 ensures ks[i].id == Given(st'.kidsOf[p][i]) {
      if i < n {
        assert st'.kidsOf[p][i] == st.kidsOf[p][i];
      }
    }
  }

  /** The new record lists nothing yet and waits for all its dictionary's children. */
  lemma StepRecNew<D>(st: LoadState<D>, r: NodeRec)
    requires QueueOk(st) && st.queue != [] && r !in st.src && st.queue[0].1 in st.kidsOf
    requires st.queue[0].0.id.Given? && r.id == st.queue[0].0.id.value
    ensures r in Step(st, r).src && RecOk(Step(st, r), r)
  {
    StepQueue(st, r);
    WaitingNone(st.queue[1..], r);
  }

  lemma StepRecsOk<D>(st: LoadState<D>, r: NodeRec)
    requires QueueOk(st) && RecsOk(st) && st.queue != [] && r !in st.src
    requires st.queue[0].0.id.Given? && r.id == st.queue[0].0.id.value
    ensures st.queue[0].1 in st.kidsOf && RecsOk(Step(st, r))
  {
    var p := st.queue[0].1;
    StepBasics(st);
    var st' := Step(st, r);
    forall rec | rec in st'.src ensures RecOk(st', rec) {
      if rec == r {
        StepRecNew(st, r);
      } else if rec == p {
        StepRecParent(st, r);
      } else {
        StepRecOther(st, r, rec);
      }
    }
  }

  lemma StepKeysOk<D>(st: LoadState<D>, r: NodeRec)
    requires KeysOk(st) && st.queue != [] && st.queue[0].1 in st.kidsOf
    requires st.queue[0].0.id.Given? && r.id == st.queue[0].0.id.value
    ensures KeysOk(Step(st, r))
  {
  }

  lemma StepBagOk<D>(d: Dict<D>, st: LoadState<D>, r: NodeRec)
    requires BagOk(d, st) && st.queue != [] && r !in st.src && st.queue[0].1 in st.kidsOf
    ensures BagOk(d, Step(st, r))
    ensures |QueueIds(Step(st, r).queue)| < |QueueIds(st.queue)|
  {
    QueueIdsFront(st.queue);
    StepQueue(st, r);
  }

  lemma StepUpOk<D>(root: NodeRec, st: LoadState<D>, r: NodeRec)
    requires UpOk(root, st) && root in st.src && st.queue != [] && r !in st.src
    requires st.queue[0].1 in st.src && st.queue[0].1 in st.kidsOf
    requires st.queue[0].0.id.Given? && r.id == st.queue[0].0.id.value
    ensures UpOk(root, Step(st, r))
  {
    var st' := Step(st, r);
    forall rec | rec in st'.src && rec != root ensures UpLink(st', rec) {
      if rec != r {
        assert UpLink(st, rec);
      }
    }
  }

  /** With unique ids, the front's id was not taken before and is not the alias. */
  lemma FrontIdIsNew<D>(d: Dict<D>, st: LoadState<D>)
    requires BagOk(d, st) && UniqueIds(d) && RootKey !in QueueIds(st.queue) && st.queue != []
    ensures st.queue[0].0.id.Given?
    ensures st.queue[0].0.id.value !in st.doneIds && st.queue[0].0.id.value != RootKey
  {
    QueueIdsFront(st.queue);
    var cid := st.queue[0].0.id.value;
    assert cid in QueueIds(st.queue);
    assert multiset(QueueIds(st.queue))[cid] >= 1;
    assert multiset(AllIds(d))[cid] >= 1;
    assert cid in AllIds(d);
  }

  /** With unique ids, the child ids of every built record still resolve after a turn. */
  lemma StepResolved<D>(st: LoadState<D>, r: NodeRec, rec: NodeRec)
    requires KeysOk(st) && st.queue != [] && r !in st.src
    requires st.queue[0].0.id.Given? && r.id == st.queue[0].0.id.value
    requires st.queue[0].0.id.value !in st.doneIds && st.queue[0].0.id.value != RootKey
    requires st.queue[0].1 in st.src && st.queue[0].1 in st.kidsOf
    requires |st.kidsOf[st.queue[0].1]| < |Kids(st.src[st.queue[0].1])|
    requires Kids(st.src[st.queue[0].1])[|st.kidsOf[st.queue[0].1]|] == st.queue[0].0
    requires rec in Step(st, r).src && (rec in st.src ==> Resolved(st, rec))
    ensures Resolved(Step(st, r), rec)
  {
  }

  /** Without a dictionary called "root" below the top, the alias keeps naming the root. */
  lemma StepAliasOk<D>(root: NodeRec, st: LoadState<D>, r: NodeRec)
    requires QueueOk(st) && AliasOk(root, st) && st.queue != [] && r !in st.src
    requires st.queue[0].1 in st.kidsOf
    ensures QueueOk(Step(st, r)) && AliasOk(root, Step(st, r))
  {
    QueueIdsFront(st.queue);
    StepQueue(st, r);
  }

  lemma StepUniqueOk<D>(st: LoadState<D>, r: NodeRec)
    requires QueueOk(st) && KeysOk(st) && UniqueOk(st)
    requires st.queue != [] && r !in st.src && st.queue[0].0.id.Given? && r.id == st.queue[0].0.id.value
    requires st.queue[0].0.id.value !in st.doneIds && st.queue[0].0.id.value != RootKey
    requires st.queue[0].1 in st.src && st.queue[0].1 in st.kidsOf
    requires |st.kidsOf[st.queue[0].1]| < |Kids(st.src[st.queue[0].1])|
    requires Kids(st.src[st.queue[0].1])[|st.kidsOf[st.queue[0].1]|] == st.queue[0].0
    ensures QueueOk(Step(st, r)) && UniqueOk(Step(st, r))
  {
    QueueIdsFront(st.queue);
    StepQueue(st, r);
    var st' := Step(st, r);
    forall rec | rec in st'.src ensures Resolved(st', rec) {
      StepResolved(st, r, rec);
    }
  }

  /** The root keeps its dictionary and stays without a parent. */
  lemma StepRoot<D>(d: Dict<D>, root: NodeRec, st: LoadState<D>, r: NodeRec)
    requires root in st.src && st.src[root] == d && root in st.parentOf && st.parentOf[root] == None
    requires st.queue != [] && st.queue[0].0.id.Given? && st.queue[0].1 in st.kidsOf && r !in st.src
    ensures root in Step(st, r).src && Step(st, r).src[root] == d
    ensures root in Step(st, r).parentOf && Step(st, r).parentOf[root] == None
  {
  }

  /** The id-independent part of the invariant survives a turn. */
  lemma StepKeepsCore<D>(d: Dict<D>, root: NodeRec, st: LoadState<D>, r: NodeRec)
    requires InvCore(d, root, st) && st.queue != [] && r !in st.src && r.id == st.queue[0].0.id.value
    ensures st.queue[0].0.id.Given? && st.queue[0].1 in st.src && st.queue[0].1 in st.kidsOf
    ensures |st.kidsOf[st.queue[0].1]| < |Kids(st.src[st.queue[0].1])|
    ensures Kids(st.src[st.queue[0].1])[|st.kidsOf[st.queue[0].1]|] == st.queue[0].0
    ensures InvCore(d, root, Step(st, r))
    ensures |QueueIds(Step(st, r).queue)| < |QueueIds(st.queue)|
  {
    StepBasics(st);
    StepRoot(d, root, st, r);
    StepRecsOk(st, r);
    StepKeysOk(st, r);
    StepBagOk(d, st, r);
    StepUpOk(root, st, r);
  }

  /** The id-dependent part of the invariant survives a turn. */
  lemma StepKeepsIds<D>(d: Dict<D>, root: NodeRec, st: LoadState<D>, r: NodeRec)
    requires InvCore(d, root, st) && InvIds(d, root, st)
    requires st.queue != [] && r !in st.src && r.id == st.queue[0].0.id.value
    requires st.queue[0].0.id.Given? && st.queue[0].1 in st.src && st.queue[0].1 in st.kidsOf
    requires |st.kidsOf[st.queue[0].1]| < |Kids(st.src[st.queue[0].1])|
    requires Kids(st.src[st.queue[0].1])[|st.kidsOf[st.queue[0].1]|] == st.queue[0].0
    requires QueueOk(Step(st, r))
    ensures InvIds(d, root, Step(st, r))
  {
    if AliasFree(d) {
      StepAliasOk(root, st, r);
    }
    if UniqueIds(d) {
      FrontIdIsNew(d, st);
      StepUniqueOk(st, r);
    }
  }

  /** The invariant survives a turn, and the ids left in the queue become fewer. */
  lemma StepKeepsInv<D>(d: Dict<D>, root: NodeRec, st: LoadState<D>, r: NodeRec)
    requires Inv(d, root, st) && st.queue != [] && r !in st.src && r.id == st.queue[0].0.id.value
    ensures st.queue[0].0.id.Given? && st.queue[0].1 in st.kidsOf
    ensures Inv(d, root, Step(st, r))
    ensures |QueueIds(Step(st, r).queue)| < |QueueIds(st.queue)|
  {
    StepKeepsCore(d, root, st, r);
    StepKeepsIds(d, root, st, r);
  }

  /** The state before the first turn: the root record alone, stored under its id and the
      alias, with the top dictionary's children waiting under it. */
  ghost function Start<D>(d: Dict<D>, root: NodeRec, data: map<string, Option<D>>): LoadState<D>
    requires Loads(d)
  {
    LoadState(map[root.id := root][RootKey := root], map[root := []], map[root := None],
              Enqueue(Kids(d), root), map[root := d], map[], [d.id.value], data)
  }

  /** The queue at the start holds the ids of the input below the top. */
  lemma StartQueue<D>(d: Dict<D>, root: NodeRec, data: map<string, Option<D>>)
    requires Loads(d)
    ensures QueueOk(Start(d, root, data))
    ensures QueueIds(Start(d, root, data).queue) == AllIds(d)[1..]
    ensures Waiting(Start(d, root, data).queue, root) == Kids(d)
  {
    WaitingEnqueue(Kids(d), root, root);
    QueueIdsEnqueue(Kids(d), root);
  }

  lemma StartCore<D>(d: Dict<D>, root: NodeRec, data: map<string, Option<D>>)
    requires Loads(d) && root.id == d.id.value
    requires data == if d.data.Some? then map[d.id.value := d.data.value] else map[]
    ensures QueueOk(Start(d, root, data))
    ensures InvCore(d, root, Start(d, root, data))
  {
    var st := Start(d, root, data);
    StartQueue(d, root, data);
    assert multiset(AllIds(d)) == multiset([d.id.value]) + multiset(AllIds(d)[1..]) by {
      assert AllIds(d) == [d.id.value] + AllIds(d)[1..];
    }
    assert RecOk(st, root);
  }

  lemma StartInv<D>(d: Dict<D>, root: NodeRec, data: map<string, Option<D>>)
    requires Loads(d) && root.id == d.id.value
    requires data == if d.data.Some? then map[d.id.value := d.data.value] else map[]
    ensures Inv(d, root, Start(d, root, data))
  {
    var st := Start(d, root, data);
    StartCore(d, root, data);
    StartQueue(d, root, data);
    if UniqueIds(d) {
      assert Resolved(st, root);
    }
  }

  /** When the queue is empty every record lists all its dictionary's children, and the ids
      taken are the input's. */
  lemma DoneFacts<D>(d: Dict<D>, root: NodeRec, st: LoadState<D>)
    requires Inv(d, root, st) && st.queue == []
    ensures forall rec :: rec in st.src ==> rec in st.kidsOf && |st.kidsOf[rec]| == |Kids(st.src[rec])|
    ensures forall x :: x in st.doneIds <==> x in AllIds(d)
  {
    forall rec | rec in st.src ensures rec in st.kidsOf && |st.kidsOf[rec]| == |Kids(st.src[rec])| {
      assert RecOk(st, rec);
    }
    assert multiset(st.doneIds) == multiset(AllIds(d));
    forall x ensures x in st.doneIds <==> x in AllIds(d) {
      assert x in st.doneIds <==> x in multiset(st.doneIds);
      assert x in AllIds(d) <==> x in multiset(AllIds(d));
    }
  }

  /** At the end of a load with unique ids, the records and the table are `Built` from the
      input and the payload table agrees with it. */
  lemma DoneBuilt<D>(tree: TreeMap, d: Dict<D>, root: NodeRec, st: LoadState<D>)
    requires Inv(d, root, st) && st.queue == [] && Snapshot(tree, st) && UniqueIds(d)
    ensures Built(tree, st.src) && DataAgrees(st.src, st.data)
  {
    DoneFacts(d, root, st);
    forall rec | rec in st.src
      ensures Loads(st.src[rec]) && rec.id == st.src[rec].id.value
      ensures |rec.children| == |Kids(st.src[rec])|
      ensures forall i :: 0 <= i < |rec.children| ==>
           && rec.children[i] in tree.nodes
           && tree.nodes[rec.children[i]] in st.src
           && st.src[tree.nodes[rec.children[i]]] == Kids(st.src[rec])[i]
    {
      assert RecOk(st, rec) && Resolved(st, rec);
    }
  }

  /** At the end of a load, the table and the records as the load promises them. */
  lemma DoneTable<D>(tree: TreeMap, d: Dict<D>, root: NodeRec, st: LoadState<D>)
    requires Inv(d, root, st) && st.queue == [] && Snapshot(tree, st)
    ensures root in st.src && st.src[root] == d && root.parent == None
    ensures AliasFree(d) ==> RootKey in tree.nodes && tree.nodes[RootKey] == root
    ensures forall x :: x in tree.nodes <==> x == RootKey || x in AllIds(d)
    ensures forall x :: x in tree.nodes ==>
      tree.nodes[x] in st.src && (x != RootKey ==> tree.nodes[x].id == x)
    ensures forall x :: x in st.data ==> x in AllIds(d)
    ensures forall rec :: rec in st.src ==>
      && Loads(st.src[rec]) && rec.id == st.src[rec].id.value
      && |rec.children| == |Kids(st.src[rec])|
      && forall i :: 0 <= i < |rec.children| ==> Kids(st.src[rec])[i].id == Given(rec.children[i])
    ensures forall rec :: rec in st.src && rec != root ==>
      exists p :: p in st.src && rec.parent == Some(p.id) && rec.id in p.children
  {
    DoneFacts(d, root, st);
    assert KeysOk(st);
    forall rec | rec in st.src
      ensures Loads(st.src[rec]) && rec.id == st.src[rec].id.value
      ensures |rec.children| == |Kids(st.src[rec])|
      ensures forall i :: 0 <= i < |rec.children| ==> Kids(st.src[rec])[i].id == Given(rec.children[i])
    {
      assert RecOk(st, rec);
    }
    forall rec | rec in st.src && rec != root
      ensures exists p :: p in st.src && rec.parent == Some(p.id) && rec.id in p.children
    {
      assert UpLink(st, rec);
      var p := st.up[rec];
      assert p in st.src && rec.parent == Some(p.id) && rec.id in p.children;
    }
  }

  /** One turn of TreeMap.load on the heap: the front dictionary's payload is stored, a new
      record `r` is made for it and added under the record waiting for it, and its children
      join the queue. The new state is `Step(st, r)`. */
  method LoadNext<D>(tree: TreeMap, queue: seq<(Dict<D>, NodeRec)>, data: map<string, Option<D>>,
                     ghost st: LoadState<D>)
    returns (queue': seq<(Dict<D>, NodeRec)>, data': map<string, Option<D>>, r: NodeRec)
    requires queue == st.queue && data == st.data && queue != []
    requires queue[0].0.id.Given? && queue[0].1 in st.src && Snapshot(tree, st)
    modifies tree, queue[0].1
    ensures fresh(r) && r.id == queue[0].0.id.value
    ensures queue[0].1 in st.kidsOf
    ensures Snapshot(tree, Step(st, r))
    ensures queue' == Step(st, r).queue && data' == Step(st, r).data
  {
    var c := queue[0].0;
    var p := queue[0].1;
    var cid := c.id.value;
    data' := data;
    if c.data.Some? {
      data' := data'[cid := c.data.value];
    }
    r := new NodeRec(cid, None);
    tree.AddChild(r, Some(p));
    queue' := queue[1..] + Enqueue(Kids(c), r);
    ghost var st' := Step(st, r);
    forall rec | rec in st'.src
      ensures rec in st'.kidsOf && rec in st'.parentOf
      ensures rec.children == st'.kidsOf[rec] && rec.parent == st'.parentOf[rec]
    {
      if rec != r && rec != p {
        assert rec in st.src;
      }
    }
  }

  /** The records after a turn are those before it and the new one. */
  lemma StepSrc<D>(st: LoadState<D>, r: NodeRec)
    requires st.queue != [] && st.queue[0].0.id.Given? && st.queue[0].1 in st.kidsOf
    ensures forall rec :: rec in Step(st, r).src ==> rec in st.src || rec == r
  {
  }

  /** The heap before the first turn matches `Start`. */
  lemma StartSnapshot<D>(tree: TreeMap, d: Dict<D>, root: NodeRec, data: map<string, Option<D>>)
    requires Loads(d) && tree.nodes == map[root.id := root][RootKey := root]
    requires root.children == [] && root.parent == None
    ensures Snapshot(tree, Start(d, root, data))
  {
  }

  /** What a finished load leaves behind, for the records `src` built from the dictionaries
      of `d` with `root` built from `d` itself:
      - the root is parentless, and with no "root" id below the top the alias names it;
      - the table's keys are the alias and the ids of `d`; each names a record of `src`
        with that id (the alias aside); payloads are stored only under ids of `d`;
      - each record has its dictionary's id and lists its dictionary's child ids in order;
      - each other record names as parent a record that lists it;
      - with unique ids, each record is the one stored under its id, the records are
        `Built` from `d` and the payload table agrees with `d`. */
  ghost predicate Loaded<D>(tree: TreeMap, d: Dict<D>, root: NodeRec,
                            src: map<NodeRec, Dict<D>>, data: map<string, Option<D>>)
    reads tree, src.Keys
  {
    && Loads(d) && root in src && src[root] == d && root.parent == None
    && (AliasFree(d) ==> RootKey in tree.nodes && tree.nodes[RootKey] == root)
    && (forall x :: x in tree.nodes <==> x == RootKey || x in AllIds(d))
    && (forall x :: x in tree.nodes ==>
          tree.nodes[x] in src && (x != RootKey ==> tree.nodes[x].id == x))
    && (forall x :: x in data ==> x in AllIds(d))
    && (forall rec :: rec in src ==>
          && Loads(src[rec]) && rec.id == src[rec].id.value
          && |rec.children| == |Kids(src[rec])|
          && forall i :: 0 <= i < |rec.children| ==> Kids(src[rec])[i].id == Given(rec.children[i]))
    && (forall rec :: rec in src && rec != root ==>
          exists p :: p in src && rec.parent == Some(p.id) && rec.id in p.children)
    && (UniqueIds(d) ==>
          && (forall rec :: rec in src ==> rec.id in tree.nodes && tree.nodes[rec.id] == rec)
          && Built(tree, src) && DataAgrees(src, data))
  }

  /** The end of the loop: the invariant with an empty queue gives `Loaded`, and with unique
      ids and no empty child lists the export of the table gives back the input. */
  lemma Done<D>(tree: TreeMap, d: Dict<D>, root: NodeRec, st: LoadState<D>)
    requires Inv(d, root, st) && st.queue == [] && Snapshot(tree, st)
    ensures Loaded(tree, d, root, st.src, st.data)
    ensures UniqueIds(d) && NoEmptyLists(d) ==>
      && TableMirrors(tree, ShapeFrom(tree, st.src, root))
      && ExportMap(tree, root, st.data, ShapeFrom(tree, st.src, root)) == d
  {
    DoneTable(tree, d, root, st);
    if UniqueIds(d) {
      DoneBuilt(tree, d, root, st);
      assert UniqueOk(st);
      if NoEmptyLists(d) {
        ExportBuilt(tree, st.src, st.data, root);
      }
    }
  }

  /** One turn of the load loop keeps the invariant and the snapshot, and shrinks the ids
      waiting in the queue. */
  method LoadTurn<D>(tree: TreeMap, queue: seq<(Dict<D>, NodeRec)>, data: map<string, Option<D>>,
                     ghost d: Dict<D>, ghost root: NodeRec, ghost st: LoadState<D>)
    returns (queue': seq<(Dict<D>, NodeRec)>, data': map<string, Option<D>>, ghost st': LoadState<D>)
    requires Inv(d, root, st) && Snapshot(tree, st) && queue == st.queue && data == st.data
    requires queue != []
    modifies tree, queue[0].1
    ensures Inv(d, root, st') && Snapshot(tree, st') && queue' == st'.queue && data' == st'.data
    ensures |QueueIds(queue')| < |QueueIds(queue)|
    ensures forall rec :: rec in st'.src ==> rec in st.src || fresh(rec)
  {
    StepBasics(st);
    var r;
    queue', data', r := LoadNext(tree, queue, data, st);
    StepKeepsInv(d, root, st, r);
    StepSrc(st, r);
    st' := Step(st, r);
  }

  /** The state before the first turn, as the loop sees it. */
  lemma Begin<D>(tree: TreeMap, d: Dict<D>, root: NodeRec, data: map<string, Option<D>>)
    returns (st: LoadState<D>)
    requires Loads(d) && root.id == d.id.value
    requires data == if d.data.Some? then map[d.id.value := d.data.value] else map[]
    requires tree.nodes == map[root.id := root][RootKey := root]
    requires root.children == [] && root.parent == None
    ensures Inv(d, root, st) && Snapshot(tree, st)
    ensures st.queue == Enqueue(Kids(d), root) && st.data == data
    ensures forall rec :: rec in st.src ==> rec == root
  {
    st := Start(d, root, data);
    StartInv(d, root, data);
    StartSnapshot(tree, d, root, data);
  }

  /** The queue loop of TreeMap.load, run from the state `st` until the queue is empty. */
  method LoadLoop<D>(tree: TreeMap, queue: seq<(Dict<D>, NodeRec)>, data: map<string, Option<D>>,
                     ghost d: Dict<D>, ghost root: NodeRec, ghost st: LoadState<D>)
    returns (data': map<string, Option<D>>, ghost src: map<NodeRec, Dict<D>>)
    requires Inv(d, root, st) && Snapshot(tree, st) && queue == st.queue && data == st.data
    modifies tree, st.src.Keys
    ensures Loaded(tree, d, root, src, data')
    ensures UniqueIds(d) && NoEmptyLists(d) ==>
      && TableMirrors(tree, ShapeFrom(tree, src, root))
      && ExportMap(tree, root, data', ShapeFrom(tree, src, root)) == d
    ensures forall rec :: rec in src ==> rec in st.src || fresh(rec)
  {
    var q := queue;
    data' := data;
    ghost var cur := st;
    while q != []
      invariant Inv(d, root, cur) && Snapshot(tree, cur) && q == cur.queue && data' == cur.data
      invariant forall rec :: rec in cur.src ==> rec in st.src || fresh(rec)
      decreases |QueueIds(q)|
    {
      q, data', cur := LoadTurn(tree, q, data', d, root, cur);
    }
    Done(tree, d, root, cur);
    src := cur.src;
  }

  /** TreeMap.load after the root record is made: the loop run from the root alone. */
  method LoadFrom<D>(tree: TreeMap, data: map<string, Option<D>>, d: Dict<D>, root: NodeRec)
    returns (data': map<string, Option<D>>, ghost src: map<NodeRec, Dict<D>>)
    requires Loads(d) && root.id == d.id.value
    requires data == if d.data.Some? then map[d.id.value := d.data.value] else map[]
    requires tree.nodes == map[root.id := root][RootKey := root]
    requires root.children == [] && root.parent == None
    modifies tree, root
    ensures Loaded(tree, d, root, src, data')
    ensures UniqueIds(d) && NoEmptyLists(d) ==>
      && TableMirrors(tree, ShapeFrom(tree, src, root))
      && ExportMap(tree, root, data', ShapeFrom(tree, src, root)) == d
    ensures forall rec :: rec in src ==> rec == root || fresh(rec)
  {
    ghost var st := Begin(tree, d, root, data);
    data', src := LoadLoop(tree, Enqueue(Kids(d), root), data, d, root, st);
  }

  /** TreeMap.load: the payload table is cleared; the top dictionary becomes the root record,
      stored under its id and under the alias; then dictionaries are taken from the front of a
      queue, each becoming a new record added as the next child of the record built for its
      enclosing dictionary, its own children joining the back of the queue. */
  method TreeMapLoad<D>(d: Dict<D>)
    returns (tree: TreeMap, data: map<string, Option<D>>,
             ghost src: map<NodeRec, Dict<D>>, ghost root: NodeRec, ghost s: Shape<NodeRec>)
    requires Loads(d) // every id and children extraction is unwrapped
    ensures fresh(tree) && forall rec :: rec in src ==> fresh(rec)
    ensures Loaded(tree, d, root, src, data)
    ensures UniqueIds(d) && NoEmptyLists(d) ==>
      s.node == root && TableMirrors(tree, s) && ExportMap(tree, root, data, s) == d
  {
    data := map[];
    var id := d.id.value;
    if d.data.Some? {
      data := data[id := d.data.value];
    }
    var top := new NodeRec(id, None);
    root := top;
    tree := new TreeMap(Some(top), id);
    data, src := LoadFrom(tree, data, d, top);
    if UniqueIds(d) {
      s := ShapeFrom(tree, src, root);
    } else {
      s := Shape(root, []);
    }
  }
}
