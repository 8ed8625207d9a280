/** The nested `{id, data?, children?}` dictionaries the Python binding in tree_py/src/lib.rs
    reads and writes, and the pure walks over them: `load_py_tree` builds a record tree from a
    dictionary and `set_py_dict_recursively` writes a sparse dictionary back. */
module Records {
  import opened Wrappers

  /** How one key of an incoming dictionary reads: absent, present with a value of the
      expected type, or present with a value of some other type. */
  datatype Field<T> = Absent | Given(value: T) | Mistyped

  /** How the "children" key of an incoming dictionary reads: absent, a list of dictionaries,
      or something else. */
  datatype ChildField<D> = Missing | Present(value: seq<Dict<D>>) | WrongType

  /** An incoming dictionary. `data` is None when the key is absent and Some(None) when the
      key holds Python's None. */
  datatype Dict<D> = Dict(id: Field<string>, data: Option<Option<D>>, children: ChildField<D>)

  /** A loaded node: its id, its payload (None standing for Python's None) and its children in
      order. */
  datatype Record<D> = Record(id: string, data: Option<D>, children: seq<Record<D>>)

  /** Why `load_py_tree` refuses a dictionary. */
  datatype LoadError = IdMissing | IdNotString | ChildrenNotList

  /** The child dictionaries of `d`: the list under "children", none when the key is absent.
      An ill-typed "children" makes `load_py_tree` fail and the arena loader panic, so the
      loaders only ask for the children of a dictionary that passed that check; the empty
      list given for it here is never used. */
  function Kids<D>(d: Dict<D>): seq<Dict<D>>
  {
    if d.children.Present? then d.children.value else []
  }

  /** `d` itself passes the checks of `load_py_tree`: a string id and, when present, a list of
      dictionaries under "children". */
  predicate LoadsHere<D>(d: Dict<D>) {
    d.id.Given? && !d.children.WrongType?
  }

  /** `d` and every dictionary below it pass those checks. */
  predicate Loads<D>(d: Dict<D>)
    decreases d
  {
    && LoadsHere(d)
    && (d.children.Present? ==> forall i :: 0 <= i < |d.children.value| ==> Loads(d.children.value[i]))
  }

  /** The payload `load_py_tree` stores: an absent key and a None value both give None. */
  function Payload<D>(data: Option<Option<D>>): Option<D> {
    if data.Some? then data.value else None
  }

  /** load_py_tree: the id, then the payload, then the children, in input order. A missing or
      non-string id and an ill-typed "children" are reported; a failure further down is
      unwrapped by the enclosing call, so it is excluded here. */
  function LoadTree<D>(d: Dict<D>): (r: Result<Record<D>, LoadError>)
    requires d.id.Given? && d.children.Present? ==>
               forall i :: 0 <= i < |d.children.value| ==> Loads(d.children.value[i])
    ensures r.Err? <==> !LoadsHere(d)
    ensures d.id.Absent? ==> r == Err(IdMissing)
    ensures d.id.Mistyped? ==> r == Err(IdNotString)
    ensures d.id.Given? && d.children.WrongType? ==> r == Err(ChildrenNotList)
    ensures r.Ok? ==>
      r.value.id == d.id.value && r.value.data == Payload(d.data) &&
      |r.value.children| == |Kids(d)|
    decreases d
  {
    match d.id
    case Absent => Err(IdMissing)
    case Mistyped => Err(IdNotString)
    case Given(id) =>
      match d.children
      case WrongType => Err(ChildrenNotList)
      case Missing => Ok(Record(id, Payload(d.data), []))
      case Present(cs) => Ok(Record(id, Payload(d.data), LoadAll(cs)))
  }

  /** The loop of `load_py_tree` over the child dictionaries. */
  function LoadAll<D>(cs: seq<Dict<D>>): (rs: seq<Record<D>>)
    requires forall i :: 0 <= i < |cs| ==> Loads(cs[i])
    ensures |rs| == |cs|
    ensures forall i :: 0 <= i < |cs| ==> cs[i].id == Given(rs[i].id)
    decreases cs
  {
    if cs == [] then []
    else
      assert Loads(cs[0]);
      [LoadTree(cs[0]).value] + LoadAll(cs[1..])
  }

  /** set_py_dict_recursively: "id" always, "data" only for a payload other than None,
      "children" only when there are any, in stored order. */
  function Export<D>(r: Record<D>): (d: Dict<D>)
    ensures d.id == Given(r.id)
    ensures d.data.Some? <==> r.data.Some?
    ensures d.children.Missing? <==> r.children == []
    ensures |Kids(d)| == |r.children|
    decreases r
  {
    Dict(Given(r.id),
         if r.data.Some? then Some(r.data) else None,
         if r.children == [] then Missing else Present(ExportAll(r.children)))
  }

  function ExportAll<D>(rs: seq<Record<D>>): (ds: seq<Dict<D>>)
    ensures |ds| == |rs|
    ensures forall i :: 0 <= i < |rs| ==> ds[i] == Export(rs[i])
    decreases rs
  {
    if rs == [] then [] else [Export(rs[0])] + ExportAll(rs[1..])
  }

  /** The dictionaries that `set_py_dict_recursively` can produce: a string id, no "data" key
      holding None, no empty "children" list, and the same all the way down. */
  predicate Canonical<D>(d: Dict<D>)
    decreases d
  {
    && d.id.Given?
    && d.data != Some(None)
    && (d.children.Present? ==>
          |d.children.value| > 0 &&
          forall i :: 0 <= i < |d.children.value| ==> Canonical(d.children.value[i]))
    && !d.children.WrongType?
  }

  /** Loading what was exported gives back the record. */
  lemma {:induction false} LoadExport<D>(r: Record<D>)
    ensures Loads(Export(r))
    ensures LoadTree(Export(r)) == Ok(r)
    decreases r
  {
    LoadExportAll(r.children);
  }

  lemma {:induction false} LoadExportAll<D>(rs: seq<Record<D>>)
    ensures forall i :: 0 <= i < |rs| ==> Loads(ExportAll(rs)[i])
    ensures LoadAll(ExportAll(rs)) == rs
    decreases rs
  {
    if rs != [] {
      LoadExport(rs[0]);
      LoadExportAll(rs[1..]);
      assert ExportAll(rs) == [Export(rs[0])] + ExportAll(rs[1..]);
      assert ExportAll(rs)[1..] == ExportAll(rs[1..]);
    }
  }

  /** Every exported dictionary is canonical. */
  lemma {:induction false} ExportIsCanonical<D>(r: Record<D>)
    ensures Canonical(Export(r))
    decreases r
  {
    ExportAllIsCanonical(r.children);
  }

  lemma {:induction false} ExportAllIsCanonical<D>(rs: seq<Record<D>>)
    ensures forall i :: 0 <= i < |rs| ==> Canonical(ExportAll(rs)[i])
    decreases rs
  {
    if rs != [] {
      ExportIsCanonical(rs[0]);
      ExportAllIsCanonical(rs[1..]);
    }
  }

  /** A canonical dictionary loads, and exporting what it loads to gives it back. */
  lemma {:induction false} ExportLoad<D>(d: Dict<D>)
    requires Canonical(d)
    ensures Loads(d)
    ensures Export(LoadTree(d).value) == d
    decreases d
  {
    if d.children.Present? {
      ExportLoadAll(d.children.value);
    }
  }

  lemma {:induction false} ExportLoadAll<D>(cs: seq<Dict<D>>)
    requires forall i :: 0 <= i < |cs| ==> Canonical(cs[i])
    ensures forall i :: 0 <= i < |cs| ==> Loads(cs[i])
    ensures ExportAll(LoadAll(cs)) == cs
    decreases cs
  {
    if cs != [] {
      ExportLoad(cs[0]);
      ExportLoadAll(cs[1..]);
      assert cs == [cs[0]] + cs[1..];
    }
  }

  /** The round trip of test_import_export.py holds for exactly the canonical dictionaries:
      a None payload, an empty child list or a non-canonical descendant does not survive it. */
  lemma RoundTripExactly<D>(d: Dict<D>)
    requires Loads(d)
    ensures Export(LoadTree(d).value) == d <==> Canonical(d)
  {
    if Canonical(d) {
      ExportLoad(d);
    } else {
      ExportIsCanonical(LoadTree(d).value);
    }
  }
}
