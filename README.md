# pyo3Tree: the two Rust trees and the Python walks, in Dafny

pyo3Tree keeps a tree of nodes that Python code builds, searches, re-parents, loads from
nested dictionaries and exports back to them. The Rust side has two trees:

- **the arena tree** (`treemap_rs`): a table from id strings to node records. Every record
  holds its own id, the ids of its children in order and the id of its parent. The table keeps
  a second key, `"root"`, as an alias for the root record.
- **the pointer tree** (`tree_rs`): a tree of heap nodes. Every node holds its id, a list of
  references to its children and a back reference to its parent.

The Python binding (`tree_py`) adds two walks:

- `load` builds a tree from a dictionary `{id, data?, children?}`. The arena load is
  breadth-first, with a queue. The pointer load recurses depth-first and then fills in the
  parent references.
- `export` writes the tree back as a nested dictionary.

## How the model is laid out

- `wrappers.dfy` holds `Option` and `Result`.
- `seqs.dfy` holds `IndexOf` and `RemoveFirst`, which model `position` followed by `remove`.
- `shapes.dfy` holds `Shape`, a finite unfolding of a linked structure from one node. It also
  holds the two walk orders over it: `LevelOrder` (breadth-first) and `Preorder`.
- `arena.dfy` (module `Arena`) models `treemap_rs/src/lib.rs`.
  - `NodeRec` and `TreeMap` are classes whose fields the methods update in place.
  - The table is a `map<string, NodeRec>` field.
- `pointer.dfy` (module `Pointer`) models `tree_rs/src/lib.rs`.
  - `Node` and `Tree` are classes.
  - A node's children are a `seq<Node>` field and its parent is a `Node?` field.
- `records.dfy` (module `Records`) models the incoming and outgoing dictionaries as datatypes.
  It also holds the pure recursive walks of `tree_py/src/lib.rs`: `load_py_tree` is `LoadTree`
  and `set_py_dict_recursively` is `Export`.
- `pointer_load.dfy` (module `PointerLoad`) models `Tree.load` and `Tree.export` of the binding
  on the heap. Node allocation is `Build`, the parent pass is `SetParents`, and the export is
  `ExportTree`.
- `arena_load.dfy` (module `ArenaLoad`) models `TreeMap.load` and `TreeMap.export` of the
  binding.
  - The load is the queue loop of `tree_py/src/lib.rs:91-100`, written as a `while` loop in
    `LoadLoop`.
  - The loop invariant is stated over a ghost record of the loop state: the table, the queue,
    which dictionary each record came from, and the ids taken so far.
  - The payload table `DATA_MAP` is a parameter and a result.
- `forest.dfy` (module `Forest`) describes a tree by its links: every node's children in
  order and its parent. It defines when links form one finite tree (`IsTree`), and what
  `move_node` (`Move`) and `add_child` of a new node (`Add`) do to the links.
- `scenario.dfy` (module `Scenario`) replays `test_node_movement` of
  `tree_py/src/test.py:137-183` on the pointer tree: load, two lookups, one move, export.

### How the walks are shown to terminate

- **Ancestor walks** (`get_ancestors` in both trees) take a ghost `chain`: the list of
  ancestors the walk will find. `IsAncestorChain` states that following the parent links from
  the node gives exactly that list and then stops. A caller that cannot supply such a chain
  would call a walk that never returns. That happens on a cycle of parent links, and
  `SelfParentHasNoChain` shows it happens after `move_node(t, t)`.
- **Breadth-first search and the exports** take a ghost `Shape` that mirrors the heap from the
  root. Their results are stated against `LevelOrder` and `Preorder` of that shape.

### Keeping a tree a tree

- Each tree reads its links off the heap as `Forest.Links`: `Pointer.View(nodes)` over a set
  of nodes, and `Arena.TreeMap.View()` over the records stored under their own ids. In the
  arena view a parent id is looked up in the table, so the alias `"root"` names the root
  record. `Valid` says that these links form one finite tree below the root.
- `MoveNode` and `AddChild` in both trees state their effect on the links as `Forest.Move`
  and `Forest.Add` of the old links.
- `Forest.MoveKeepsTree` and `Forest.AddKeepsTree` show that these keep a tree a tree. After
  the change, the new parent is the one node that lists the moved or added node, exactly once.
- `MoveNodeInTree` and `AddChildInTree` in both trees join the two facts. They work on a valid
  tree, read the ancestor chain off the links, and leave a valid tree.

### Where the code departs from its own tests and messages

- The unit test `test_add_node_to_empty_tree` (`treemap_rs/src/lib.rs:135-143`) expects a
  child added without a parent to hold the root's own id as its parent id. `add_child`
  (`treemap_rs/src/lib.rs:44-50`) writes the alias `"root"` instead.
- The pointer `move_node` prints "Cannot move a node into one of its descendants" when it
  refuses a move (`tree_rs/src/lib.rs:74-75`). The check before that message looks only at the
  ancestors of the new parent. A node is not among its own ancestors, so a move of a node
  under itself goes ahead.

Both cases are under "## Findings". In these cases and in the ones below, the model follows
the code.

- `tree_py/src/lib.rs:5` binds `TreeMap_rs` to the `TreeMap` of `tree_rs`. That type has no
  `add_child`, so the binding's arena calls only make sense against `treemap_rs`. The model
  runs the binding's arena walks against `Arena.TreeMap`.
- The binding constructs a `Node_rs` with a `data` field (`tree_py/src/lib.rs:258`), but
  `tree_rs`'s `Node` (`tree_rs/src/lib.rs:110-115`) has none.
  - On the heap, the pointer node carries the id and the links only.
  - The payload travels through the pure `Records` walks.
  - The heap round trip `PointerLoad.LoadThenExport` is stated for payload-free dictionaries.
- The arena export writes `"data"` whenever `DATA_MAP` has an entry for the id, including an
  entry holding Python's `None`. The pointer export drops a `None` payload. So the arena round
  trip returns `"data": None` unchanged, while the pointer round trip drops it.
- `TreeMap.new` and the load store the root under the key `"root"` as well as under its id. A
  dictionary with id `"root"` below the top therefore overwrites the alias, and after that the
  export starts from that node. `ArenaLoad.AliasFree` names the inputs that avoid this, and the
  arena round trip is stated for them.

## Model

| member | source | states |
|---|---|---|
| Arena.NodeRec.constructor | treemap_rs/src/lib.rs:113-120 | a new record has the given id and parent and no children |
| Arena.TreeMap.constructor | treemap_rs/src/lib.rs:12-30 | the table holds exactly the root under its id and under the alias "root"; with no root given, a new childless, parentless root with a fresh id is made, and the table holds a valid one-node tree |
| Arena.TreeMap.AddChild | treemap_rs/src/lib.rs:32-53 | the child is entered under its id; the parent (the alias target when none is given) gets the child's id appended; the child's parent becomes the given parent's id, or the literal "root" when no parent is given; for a new childless record under a record of the table, the links change exactly as `Forest.Add` says |
| Arena.TreeMap.AddChildUnderRootId | treemap_rs/src/lib.rs:32-53 | as AddChild, except that without a parent the child's parent is the root record's own id; the target keeps its own parent, and the links change exactly as `Forest.Add` says |
| Arena.TreeMap.FindById | treemap_rs/src/lib.rs:55-57 | returns the record the table holds under the id |
| Arena.TreeMap.GetAncestors | treemap_rs/src/lib.rs:59-64 | returns the ancestor chain of the node: each entry is the record the table holds under the previous entry's parent id, ending at a record with no parent |
| Arena.CollectAncestors | treemap_rs/src/lib.rs:99-105 | appends the node's whole ancestor chain, nearest first, to the collection |
| Arena.TreeMap.ChainUnique | treemap_rs/src/lib.rs:99-105 | a node has at most one ancestor chain, so the walk's result is determined |
| Arena.TreeMap.ChainIsSimple | treemap_rs/src/lib.rs:99-105 | an ancestor chain never repeats a record and never contains the node itself |
| Arena.TreeMap.MoveNode | treemap_rs/src/lib.rs:70-96 | fails exactly when the target is an ancestor of the new parent, and then changes nothing; otherwise removes the first occurrence of the target's id from the old parent's children, appends it to the new parent's children and makes the new parent's id the target's parent; the links change exactly as `Forest.Move` says, and the new parent followed by its chain becomes the target's ancestor chain |
| Arena.TreeMap.Relink | treemap_rs/src/lib.rs:76-95 | a move past the ancestor check: the target's id leaves its old parent's children and is appended to the new parent's, the target names the new parent, the links change exactly as `Forest.Move` says, and the new parent followed by its chain becomes the target's ancestor chain |
| Arena.TreeMap.DetachFromParent | treemap_rs/src/lib.rs:80-87 | the first copy of the target's id leaves the children of the record its parent id names, and nothing else changes; the links change exactly as `Forest.Detach` says |
| Arena.TreeMap.AppendUnder | treemap_rs/src/lib.rs:89-91 | the target's id is appended to the new parent's children and the target names the new parent; the links change exactly as `Forest.Attach` says |
| Arena.TreeMap.ListedByParent | treemap_rs/src/lib.rs:82-86 | in a valid table, a record other than the root has a parent id in the table, and that record lists it exactly once and is the only record that lists it |
| Arena.TreeMap.ChainOfNode | treemap_rs/src/lib.rs:99-105 | in a valid table, every record has an ancestor chain, and it is the parent chain of the links |
| Arena.TreeMap.MoveChecked | treemap_rs/src/lib.rs:70-74 | in a valid table, the chain the ancestor check walks is the new parent's ancestors read off the links, and the target is on it exactly when its id is; a target off it has a parent record other than itself |
| Arena.TreeMap.MoveKeepsValid | treemap_rs/src/lib.rs:70-96 | a move of a record of a valid table under another, off the other's ancestor chain, leaves a valid table in which the new parent is the one record listing the target, exactly once |
| Arena.TreeMap.AddKeepsValid | treemap_rs/src/lib.rs:32-53 | adding a new childless record under a record of a valid table leaves a valid table in which the target is the one record listing the child, exactly once |
| Arena.TreeMap.AddChildInTree | treemap_rs/src/lib.rs:32-53 | add_child of a new childless record under a record of a valid table: the table stays valid, the child is stored under its id and its parent id resolves to the target, which lists it exactly once and alone |
| Arena.TreeMap.AddChildThenFind | treemap_rs/src/lib.rs:169-181 | add_child followed by find_by_id of the child's id returns the child itself |
| Arena.TreeMap.MoveNodeInTree | treemap_rs/src/lib.rs:70-96 | on a valid table: refused exactly when the target is among the new parent's ancestors, changing nothing; otherwise the table stays valid, the new parent alone lists the target, once, and the target's ancestors are the new parent followed by the new parent's ancestors |
| Pointer.Node.constructor | tree_rs/src/lib.rs:117-124 | a new node has the given id and parent and no children |
| Pointer.Tree.constructor | tree_rs/src/lib.rs:30-35 | the tree's root is the given node, or a new childless, parentless node |
| Pointer.Tree.AddChild | tree_rs/src/lib.rs:37-46 | the parent (the root when none is given) gets the child appended, and the child's parent becomes that node; for a new childless node, the links change exactly as `Forest.Add` says |
| Pointer.FirstWithId | tree_rs/src/lib.rs:48-65 | the first node of a visiting order with the id; null exactly when no node in it has that id |
| Pointer.Tree.FindById | tree_rs/src/lib.rs:48-65 | the queue loop returns the first node with the id in breadth-first order from the root; null exactly when no node of the tree has the id |
| Pointer.FoundInShape | tree_rs/src/lib.rs:48-65 | the breadth-first search finds a node with the id exactly when one exists in the tree, and what it finds is in the tree |
| Shapes.LevelOrderIsPermutation | tree_rs/src/lib.rs:48-65 | the breadth-first order visits exactly the nodes of the depth-first order, each as often |
| Shapes.LevelOrderCovers | tree_rs/src/lib.rs:48-65 | the breadth-first order reaches every node of the tree and no other |
| Pointer.Tree.GetAncestors | tree_rs/src/lib.rs:67-71 | returns the node's ancestor chain: parent, grandparent, and so on up to the node with no parent |
| Pointer.CollectAncestors | tree_rs/src/lib.rs:101-108 | appends the node's whole ancestor chain, nearest first, to the collection |
| Pointer.ChainUnique | tree_rs/src/lib.rs:101-108 | a node has at most one ancestor chain |
| Pointer.ChainIsSimple | tree_rs/src/lib.rs:101-108 | an ancestor chain never repeats a node and never contains the node itself |
| Pointer.SelfParentHasNoChain | tree_rs/src/lib.rs:101-108 | a node that is its own parent has no finite ancestor chain, so the walk from it never ends |
| Pointer.Tree.MoveNode | tree_rs/src/lib.rs:73-98 | refuses exactly when the target is an ancestor of the new parent, and then changes nothing; otherwise removes the target from its old parent's children, appends it to the new parent's children and sets its parent; a target moved under itself becomes its own parent and child; otherwise the new parent followed by its chain becomes the target's ancestor chain, and the links change exactly as `Forest.Move` says |
| Pointer.Tree.MoveNodeRefusingSelf | tree_rs/src/lib.rs:73-98 | refuses exactly when the target is the new parent or one of its ancestors; after a move, the new parent followed by its chain is the target's ancestor chain |
| Pointer.DetachFromParent | tree_rs/src/lib.rs:79-90 | the first entry identical to the target leaves its parent's children, and the parent keeps its own parent; the links change exactly as `Forest.Detach` says |
| Pointer.AppendUnder | tree_rs/src/lib.rs:92-97 | the target is appended to the new parent's children and points at it; the new parent followed by its chain becomes the target's ancestor chain, and the links change exactly as `Forest.Attach` says |
| Pointer.ListedByParent | tree_rs/src/lib.rs:79-90 | in a valid tree, a node other than the root has a parent in the tree that lists it exactly once, and no other node lists it |
| Pointer.ChainOfNode | tree_rs/src/lib.rs:101-108 | in a valid tree, no node is its own parent, and every node has an ancestor chain, which is the parent chain of the links |
| Pointer.MoveKeepsValid | tree_rs/src/lib.rs:73-98 | a move of a node of a valid tree under another, off the other's ancestor chain, leaves a valid tree in which the new parent is the one node listing the target, exactly once |
| Pointer.AddKeepsValid | tree_rs/src/lib.rs:37-46 | adding a new childless node under a node of a valid tree leaves a valid tree in which the target is the one node listing the child, exactly once |
| Pointer.TreeShape | tree_rs/src/lib.rs:48-65 | the walk from the root of a valid tree is finite and visits exactly the nodes of the tree |
| Pointer.AddedShape | tree_rs/src/lib.rs:48-65 | after adding a new node whose id no node of the tree has, the walk from the root meets that node and no other node with its id |
| Pointer.Tree.AddChildInTree | tree_rs/src/lib.rs:37-46 | add_child of a new childless node under a node of a valid tree: the tree with the new node is valid, and the target alone lists the child, exactly once |
| Pointer.Tree.AddChildThenFind | tree_rs/src/lib.rs:37-65 | add_child of a node with an id new to the tree, followed by find_by_id of that id, finds that node |
| Pointer.Tree.MoveNodeInTree | tree_rs/src/lib.rs:73-98 | on a valid tree: refused exactly when the target is among the new parent's ancestors, changing nothing; otherwise the tree stays valid, the new parent alone lists the target, once, and the target's ancestors are the new parent followed by the new parent's ancestors |
| Forest.MoveKeepsTree | tree_rs/src/lib.rs:73-98 | moving a node of a tree under another node, off that node's ancestor chain, gives a tree, in which the new parent is the one node listing the moved node, exactly once |
| Forest.AddKeepsTree | tree_rs/src/lib.rs:37-46 | adding a new node under a node of a tree gives a tree, in which the parent is the one node listing the new node, exactly once |
| Forest.AncestorsOfChain | tree_rs/src/lib.rs:101-108 | the ancestors collected by following parent links are the node's parent chain |
| Forest.MoveAncestors | tree_rs/src/lib.rs:73-98 | after a move that goes ahead, the moved node's ancestors are the new parent followed by the new parent's old ancestors |
| Scenario.InputLoads | tree_py/src/test.py:139-152 | the test's input dictionary loads, to the expected six records |
| Scenario.ShapeOfInput | tree_py/src/lib.rs:206-211 | the loaded tree has the six nodes of the input, in its arrangement, with distinct ids |
| Scenario.OutputOfMoved | tree_py/src/test.py:154-171 | the moved arrangement exports to the expected output dictionary |
| Scenario.FindUnique | tree_rs/src/lib.rs:48-65 | find_by_id of an id exactly one node carries returns that node |
| Scenario.NodeMovement | tree_py/src/test.py:173-183 | after load, two lookups and the move, the moved node's parent has the first child's id, the third child keeps one child, and the export equals the expected dictionary |
| Seqs.IndexOf | treemap_rs/src/lib.rs:84 | the position of the first occurrence, or the length when there is none |
| Seqs.RemoveFirstSpec | treemap_rs/src/lib.rs:84-86 | removing the first occurrence takes exactly one copy of the value out of the list, or leaves the list as it was when the value is absent |
| Records.LoadTree | tree_py/src/lib.rs:230-259 | fails exactly on a missing or non-string id or a non-list "children", with the matching error; otherwise the record has the id, the payload (None for an absent key) and one child per child dictionary |
| Records.LoadAll | tree_py/src/lib.rs:252-256 | one record per child dictionary, in order, with that dictionary's id |
| Records.Export | tree_py/src/lib.rs:261-280 | "id" always; "data" exactly when the payload is not None; "children" exactly when there are children, one per child |
| Records.ExportAll | tree_py/src/lib.rs:271-277 | each child is exported in order |
| Records.LoadExport | tree_py/src/lib.rs:230-280 | loading an export gives back the record |
| Records.ExportIsCanonical | tree_py/src/lib.rs:261-280 | an export never holds "data": None or an empty "children" list |
| Records.ExportLoad | tests/unit/test_import_export.py:24-44 | exporting a loaded canonical dictionary gives back that dictionary |
| Records.RoundTripExactly | tree_py/src/lib.rs:230-280 | a loadable dictionary survives load-then-export if and only if it is canonical |
| PointerLoad.Build | tree_py/src/lib.rs:230-259 | builds new nodes whose ids and child order are the loaded record's, each node reached once, no parent set |
| PointerLoad.BuildAll | tree_py/src/lib.rs:252-256 | builds one new subtree per child record, in order, with no node shared between them |
| PointerLoad.SetParents | tree_py/src/lib.rs:218-228 | every child in the tree now refers back to the node whose children list holds it; the top node's parent is set only when one is given |
| PointerLoad.LinkChild | tree_py/src/lib.rs:224-227 | one turn of the loop over the children: the i-th child subtree is linked, the ones before it stay linked |
| PointerLoad.TreeLoad | tree_py/src/lib.rs:206-211 | a new tree whose root has no parent and whose nodes unfold, without sharing, to the ids and child order of the loaded dictionary, every child linked to its parent |
| PointerLoad.ExportTree | tree_py/src/lib.rs:261-280 | the export from a node is the record export of the ids and child order reachable from it |
| PointerLoad.ExportKids | tree_py/src/lib.rs:271-277 | each child node is exported in order |
| PointerLoad.LoadThenExport | tests/unit/test_import_export.py:24-44 | a canonical, payload-free dictionary loaded into the pointer tree and exported comes back equal |
| ArenaLoad.ExportMap | tree_py/src/lib.rs:139-157 | "id" always; "data" exactly when the payload table has an entry for the id, holding that entry; "children" exactly when there are children, each child id resolved through the table |
| ArenaLoad.ExportMapKids | tree_py/src/lib.rs:149-154 | each child id is resolved and exported in order |
| ArenaLoad.ExportMapIsLoadable | tree_py/src/lib.rs:139-157 | what the arena export produces loads again and holds no empty "children" list |
| ArenaLoad.ExportBuilt | tree_py/src/lib.rs:139-157 | exporting from a record that the load built gives back the dictionary it was built from, given matching payloads and no empty "children" lists |
| ArenaLoad.Begin | tree_py/src/lib.rs:82-89 | after the root is made and its children are queued under it, the loop invariant holds |
| ArenaLoad.StartInv | tree_py/src/lib.rs:82-89 | the state with only the root built and its children queued satisfies the loop invariant |
| ArenaLoad.StepKeepsInv | tree_py/src/lib.rs:91-99 | one turn of the queue loop (pop the front, make its record, add it under the queued parent, queue its children under it) keeps the loop invariant |
| ArenaLoad.LoadNext | tree_py/src/lib.rs:91-98 | the front dictionary becomes a new record with its id, added under its queued parent, and its children join the back of the queue |
| ArenaLoad.LoadTurn | tree_py/src/lib.rs:91-99 | one turn keeps the invariant and strictly shrinks the ids still waiting in the queue |
| ArenaLoad.LoadLoop | tree_py/src/lib.rs:91-100 | the loop ends with every dictionary built into the table: each record has its dictionary's id, child ids and queued parent |
| ArenaLoad.Done | tree_py/src/lib.rs:91-103 | when the queue is empty the table holds the alias and the ids of the input and no other key; with unique ids every record is entered under its id, and with unique ids and no empty "children" lists, exporting from the root record gives back the input |
| ArenaLoad.LoadFrom | tree_py/src/lib.rs:86-100 | from the root's table, the loop builds the whole input |
| ArenaLoad.TreeMapLoad | tree_py/src/lib.rs:76-104 | a new table holding a record per input dictionary under its id and the root under "root"; with unique ids and no empty "children" lists, exporting from the root gives back the input |

## Left out

- Locks (`RwLock`, `Mutex`), `Arc` and `Weak`. Calls run one at a time on the model's heap.
  - A second lock on a record or node the same thread already holds would never return. Such
    calls are excluded by `requires`:
    - `Arena.TreeMap.AddChild` needs `LinkTarget(parent) != child`.
    - `Arena.TreeMap.AddChild` with no parent given also needs `child.id != RootKey`: a child
      stored under "root" would replace the alias target, and treemap_rs/src/lib.rs:33-48 would
      then take the child's write lock twice.
    - `Arena.TreeMap.MoveNode` needs `tgt != newParent` and a target that is not its own parent.
    - `Pointer.Tree.MoveNode` needs a target that is not its own parent.
  - A `Weak` whose node is gone (`upgrade` failing) is not modelled: nodes in the model are
    never freed.
- `Pointer.Tree.FindById` on a heap with a cycle reachable from the root. Its `requires` asks
  for a finite `Shape` mirroring the heap, which rules out every such heap. The search at
  tree_rs/src/lib.rs:48-65 still returns there whenever it meets the id before it comes back
  round the cycle (say `add_child(c, c)` for a node `c` of the tree, then `find_by_id(c.id)`).
- Uuid generation. Every fresh id is a parameter of the member that would generate it.
- Panics from `unwrap`. Each one is excluded by a `requires` rather than modelled.
  - Examples: a missing id in `find_by_id`, a failed `get_ancestors`, a parent id missing from
    the table.
  - In the loads, a malformed dictionary below the top is unwrapped by the caller, so
    `Records.Loads` is a precondition there. `Records.LoadTree` models the error results of
    one level.
- The PyO3 glue: the `#[pyclass]`/`#[pymethods]` wrappers, their conversions and their
  re-wrapping of errors as `PyRuntimeError`. The wrappers only forward to the Rust methods
  modelled here.
- The global `DATA_MAP` and `TREE_MAP`. The arena load takes and returns the payload table
  and the table instead.
  - `DATA_MAP.clear()` at the start of the load is the empty table passed in by
    `ArenaLoad.TreeMapLoad`.
  - `TREE_MAP`'s stale content before `load` is not modelled.
- The message printed when the pointer `move_node` refuses a move.
- `tree_rs`'s `TreeMap::new` (`tree_rs/src/lib.rs:14-25`). No core operation uses that type.
- The Python payload objects. They are an opaque type parameter `D`, and Python's `None` is
  `Option.None`.
- The benchmarks and example programs, which only drive the operations above.
- ArenaLoad.TreeMapLoad: the round trip is proved only for inputs with no repeated id, no
  dictionary called "root" below the top, and no empty "children" list.
  - A repeated id overwrites a table entry.
  - An empty list is exported without its "children" key.
  - For other inputs only the facts in `Loaded` are stated.
- ArenaLoad.TreeMapLoad: the order in which records are created (breadth-first) shows only in
  the final table, not as a sequence of creation events.
- Pointer.Tree.MoveNodeInTree: requires a target other than the new parent. The move of a
  node under itself is stated on `Pointer.Tree.MoveNode`; it does not leave a tree (see
  "## Findings").
- Arena.TreeMap.AddChildInTree and Pointer.Tree.AddChildInTree: only a new node without
  children is added. A node added a second time stays listed by its earlier parent too, as
  `AddChild` states; those links are not a tree.
- Scenario.NodeMovement: the test is replayed on the pointer tree, which is the tree
  `tree_py`'s `Tree` wraps. The dictionaries carry no payloads, so the payload type is left
  open.
- PointerLoad.TreeLoad: the pointer node has no payload field, so the payload of a loaded
  dictionary does not reach the heap. The payload behaviour of the export is stated on
  `Records.Export`.

## Findings

| source | as written | input that shows it | evidently intended | confidence | as-written member | corrected member |
|---|---|---|---|---|---|---|
| treemap_rs/src/lib.rs:44-50 | `add_child` with no parent appends the child to the root record but sets the child's parent to the literal string "root" | a new tree, then `add_child(c, None)`: `c.parent` is `Some("root")`, not the root's uuid | the root's own id, as `treemap_rs/src/lib.rs:135-143` asserts | high (not executed) | Arena.TreeMap.AddChild | Arena.TreeMap.AddChildUnderRootId |
| tree_rs/src/lib.rs:73-98 | `move_node(t, t)` passes the ancestor check, because a node is not among its own ancestors, and then makes `t` its own parent and child | `move_node(a, a)` for a child `a` of the root: afterwards `a.parent == a` and `a` is in `a.children`, so `get_ancestors(a)` never returns | a move of a node under itself is refused like a move under a descendant | high (not executed) | Pointer.Tree.MoveNode | Pointer.Tree.MoveNodeRefusingSelf |
