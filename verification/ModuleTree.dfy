/** The module tree whose dependency modules are expanded only when a path goes through them. */
module ModuleTree {
  type Name = string
  type DefId = nat

  datatype Option<+T> = None | Some(value: T)

  datatype QueryResult = TypeItem | ExprItem

  datatype ChildKind =
    | FunctionKind | ConstKind | StaticKind | StructKind | EnumKind | UnionKind
    | TraitKind | ModuleKind | TypeAliasKind | OtherKind

  datatype Child = Child(name: Name, def: DefId, kind: ChildKind, isPublic: bool)

  datatype ImplFn = ImplFn(name: Name, def: DefId)

  /** What the compiler knows of its dependencies. The module graph may be cyclic. */
  datatype Deps = Deps(children: map<DefId, seq<Child>>, impls: map<DefId, seq<ImplFn>>) {
    function Children(def: DefId): seq<Child> {
      if def in children then children[def] else []
    }

    function Impls(def: DefId): seq<ImplFn> {
      if def in impls then impls[def] else []
    }
  }

  type Id = Option<(DefId, QueryResult)>

  datatype ModuleData = Expanded(id: Id, items: map<Name, ModuleData>) | Unexpanded(def: DefId)

  /** `type_query_result`. */
  function QueryOf(kind: ChildKind): QueryResult {
    match kind
    case FunctionKind => ExprItem
    case ConstKind => ExprItem
    case StaticKind => ExprItem
    case _ => TypeItem
  }

  // ---- one level of expansion ----

  function ImplNode(f: ImplFn): ModuleData {
    Expanded(Some((f.def, ExprItem)), map[])
  }

  /** `fill_impl_children`: methods never replace what is there. */
  function WithImpls(items: map<Name, ModuleData>, impls: seq<ImplFn>): map<Name, ModuleData> {
    if impls == [] then items
    else
      var before := WithImpls(items, impls[..|impls| - 1]);
      var f := impls[|impls| - 1];
      if f.name in before then before else before[f.name := ImplNode(f)]
  }

  function ChildNode(deps: Deps, c: Child): ModuleData {
    if c.kind == ModuleKind || c.kind == TraitKind then Unexpanded(c.def)
    else Expanded(Some((c.def, QueryOf(c.kind))), WithImpls(map[], deps.Impls(c.def)))
  }

  function WithChildren(deps: Deps, children: seq<Child>): map<Name, ModuleData> {
    if children == [] then map[]
    else
      var before := WithChildren(deps, children[..|children| - 1]);
      var c := children[|children| - 1];
      if c.name in before && !c.isPublic then before else before[c.name := ChildNode(deps, c)]
  }

  /** `ensure_expanded`. */
  function Expand(deps: Deps, node: ModuleData): (r: ModuleData)
    ensures r.Expanded?
  {
    match node
    case Expanded(_, _) => node
    case Unexpanded(def) =>
      Expanded(Some((def, TypeItem)), WithImpls(WithChildren(deps, deps.Children(def)), deps.Impls(def)))
  }

  // ---- which child a name stands for, read off the oracle ----

  ghost predicate IsChild(children: seq<Child>, k: nat, name: Name) {
    k < |children| && children[k].name == name
  }

  /** The last public child of the name if there is one, otherwise the first child. */
  ghost predicate Chosen(children: seq<Child>, k: nat, name: Name) {
    && IsChild(children, k, name)
    && (if children[k].isPublic then forall j: nat :: IsChild(children, j, name) && children[j].isPublic ==> j <= k
        else forall j: nat :: IsChild(children, j, name) ==> k <= j && !children[j].isPublic)
  }

  ghost predicate IsImpl(impls: seq<ImplFn>, k: nat, name: Name) {
    k < |impls| && impls[k].name == name && forall j :: 0 <= j < k ==> impls[j].name != name
  }

  lemma ChildSnoc(front: seq<Child>, c: Child, k: nat, name: Name)
    ensures IsChild(front + [c], k, name) <==> IsChild(front, k, name) || (k == |front| && c.name == name)
  {
  }

  ghost predicate HasChild(children: seq<Child>, name: Name) {
    exists k: nat :: IsChild(children, k, name)
  }

  lemma HasSnoc(front: seq<Child>, c: Child, name: Name)
    ensures HasChild(front + [c], name) <==> HasChild(front, name) || c.name == name
  {
    if k: nat :| IsChild(front, k, name) { ChildSnoc(front, c, k, name); }
    if k: nat :| IsChild(front + [c], k, name) { ChildSnoc(front, c, k, name); }
    ChildSnoc(front, c, |front|, name);
  }

  lemma {:induction false} ChildrenFound(deps: Deps, children: seq<Child>, name: Name)
    ensures name in WithChildren(deps, children) <==> HasChild(children, name)
    decreases |children|
  {
    if children != [] {
      var front, c := children[..|children| - 1], children[|children| - 1];
      assert children == front + [c];
      ChildrenFound(deps, front, name);
      HasSnoc(front, c, name);
    }
  }

  /** A further child is chosen if it is the first of its name or public, and otherwise changes no choice. */
  lemma ChosenSnoc(front: seq<Child>, c: Child, k: nat, name: Name)
    requires if HasChild(front, name) then Chosen(front, k, name) else k == |front| && c.name == name
    ensures Chosen(front + [c], if c.name == name && c.isPublic then |front| else k, name)
  {
    forall j: nat
      ensures IsChild(front + [c], j, name) <==> IsChild(front, j, name) || (j == |front| && c.name == name)
    {
      ChildSnoc(front, c, j, name);
    }
  }

  lemma {:induction false} ChildrenChosen(deps: Deps, children: seq<Child>, name: Name) returns (k: nat)
    requires name in WithChildren(deps, children)
    ensures Chosen(children, k, name) && WithChildren(deps, children)[name] == ChildNode(deps, children[k])
    decreases |children|
  {
    var front, c := children[..|children| - 1], children[|children| - 1];
    assert children == front + [c];
    ChildrenFound(deps, front, name);
    k := |front|;
    if name in WithChildren(deps, front) { k := ChildrenChosen(deps, front, name); }
    ChosenSnoc(front, c, k, name);
    if c.name == name && c.isPublic { k := |front|; }
  }

  lemma {:induction false} ImplsChosen(items: map<Name, ModuleData>, impls: seq<ImplFn>, name: Name)
    ensures var r := WithImpls(items, impls);
            && (name in items ==> name in r && r[name] == items[name])
            && (name in r && name !in items ==> exists k: nat :: IsImpl(impls, k, name) && r[name] == ImplNode(impls[k]))
            && (name !in r ==> forall k: nat :: k < |impls| ==> impls[k].name != name)
    decreases |impls|
  {
    if impls != [] {
      var front, f := impls[..|impls| - 1], impls[|impls| - 1];
      ImplsChosen(items, front, name);
      var before, r := WithImpls(items, front), WithImpls(items, impls);
      if name in r && name !in items {
        if name in before {
          var k: nat :| IsImpl(front, k, name) && before[name] == ImplNode(front[k]);
          assert IsImpl(impls, k, name);
        } else {
          assert IsImpl(impls, |front|, name);
        }
      }
    }
  }

  /** What a name of a dependency module stands for once the module is expanded: the chosen child if the
      oracle lists any, otherwise the first inherent function of that name, otherwise nothing. */
  lemma ExpandedName(deps: Deps, def: DefId, name: Name)
    ensures var items, children, impls := Expand(deps, Unexpanded(def)).items, deps.Children(def), deps.Impls(def);
            if HasChild(children, name) then
              name in items && exists k: nat :: Chosen(children, k, name) && items[name] == ChildNode(deps, children[k])
            else if name in items then exists k: nat :: IsImpl(impls, k, name) && items[name] == ImplNode(impls[k])
            else forall k: nat :: k < |impls| ==> impls[k].name != name
  {
    var own := WithChildren(deps, deps.Children(def));
    ChildrenFound(deps, deps.Children(def), name);
    if name in own {
      var k := ChildrenChosen(deps, deps.Children(def), name);
    }
    ImplsChosen(own, deps.Impls(def), name);
  }

  // ---- lookup ----

  predicate IsGeneric(segment: Name) {
    segment != "" && segment[0] == '<'
  }

  /** What a path means: expand the node, skip generic segments, follow the rest. */
  function Lookup(deps: Deps, node: ModuleData, path: seq<Name>): Id
    decreases |path|
  {
    var content := Expand(deps, node);
    if path == [] then content.id
    else if IsGeneric(path[0]) then Lookup(deps, content, path[1..])
    else if path[0] in content.items then Lookup(deps, content.items[path[0]], path[1..])
    else None
  }

  /** Nodes that answer every path alike. */
  ghost predicate Alike(deps: Deps, a: ModuleData, b: ModuleData) {
    forall path :: Lookup(deps, a, path) == Lookup(deps, b, path)
  }

  lemma {:induction false} ExpandAlike(deps: Deps, node: ModuleData)
    ensures Alike(deps, node, Expand(deps, node))
  {
    forall path
      ensures Lookup(deps, node, path) == Lookup(deps, Expand(deps, node), path)
    {
      ExpandLookup(deps, node, path);
    }
  }

  lemma {:induction false} ExpandLookup(deps: Deps, node: ModuleData, path: seq<Name>)
    ensures Lookup(deps, node, path) == Lookup(deps, Expand(deps, node), path)
  {
    assert Expand(deps, Expand(deps, node)) == Expand(deps, node);
  }

  /** Replacing an item by one that answers alike changes no answer of the module. */
  lemma {:induction false} ReplaceAlike(deps: Deps, id: Id, items: map<Name, ModuleData>, name: Name, child: ModuleData)
    requires name in items && Alike(deps, items[name], child)
    ensures Alike(deps, Expanded(id, items), Expanded(id, items[name := child]))
  {
    forall path
      ensures Lookup(deps, Expanded(id, items), path) == Lookup(deps, Expanded(id, items[name := child]), path)
    {
      ReplaceLookup(deps, id, items, name, child, path);
    }
  }

  lemma {:induction false} ReplaceLookup(deps: Deps, id: Id, items: map<Name, ModuleData>, name: Name, child: ModuleData, path: seq<Name>)
    requires name in items && Alike(deps, items[name], child)
    ensures Lookup(deps, Expanded(id, items), path) == Lookup(deps, Expanded(id, items[name := child]), path)
    decreases |path|
  {
    if path != [] && IsGeneric(path[0]) {
      ReplaceLookup(deps, id, items, name, child, path[1..]);
    }
  }

  // ---- the resolver's own passes over the tree ----

  /** `fill_impl_children`. */
  method FillImplChildren(items: map<Name, ModuleData>, def: DefId, deps: Deps) returns (filled: map<Name, ModuleData>)
    ensures filled == WithImpls(items, deps.Impls(def))
  {
    filled := items;
    var impls := deps.Impls(def);
    for k := 0 to |impls|
      invariant filled == WithImpls(items, impls[..k])
    {
      assert impls[..k + 1][..k] == impls[..k];
      if impls[k].name !in filled {
        filled := filled[impls[k].name := Expanded(Some((impls[k].def, ExprItem)), map[])];
      }
    }
    assert impls[..|impls|] == impls;
  }

  /** `ensure_expanded`: one level, from the dependency's children and inherent functions. */
  method EnsureExpanded(node: ModuleData, deps: Deps) returns (r: ModuleData)
    ensures r == Expand(deps, node)
  {
    if node.Expanded? { return node; }
    var items: map<Name, ModuleData> := map[];
    var children := deps.Children(node.def);
    for k := 0 to |children|
      invariant items == WithChildren(deps, children[..k])
    {
      assert children[..k + 1][..k] == children[..k];
      var c := children[k];
      var data;
      if c.kind == ModuleKind || c.kind == TraitKind {
        data := Unexpanded(c.def);
      } else {
        var methods := FillImplChildren(map[], c.def, deps);
        data := Expanded(Some((c.def, QueryOf(c.kind))), methods);
      }
      if c.name !in items || c.isPublic {
        items := items[c.name := data];
      }
    }
    assert children[..|children|] == children;
    items := FillImplChildren(items, node.def, deps);
    r := Expanded(Some((node.def, TypeItem)), items);
  }

  /** `resolve_path_inner`: answers as the path means, and leaves a tree that answers every later path
      as the old one would have. */
  method ResolvePath(node: ModuleData, path: seq<Name>, deps: Deps) returns (found: Id, after: ModuleData)
    ensures found == Lookup(deps, node, path)
    ensures Alike(deps, node, after) && after.Expanded?
    decreases |path|
  {
    after := EnsureExpanded(node, deps);
    ExpandAlike(deps, node);
    if path == [] { return after.id, after; }
    if IsGeneric(path[0]) {
      ghost var expanded := after;
      found, after := ResolvePath(after, path[1..], deps);
      return;
    }
    if path[0] !in after.items { return None, after; }
    var child;
    found, child := ResolvePath(after.items[path[0]], path[1..], deps);
    ReplaceAlike(deps, after.id, after.items, path[0], child);
    after := Expanded(after.id, after.items[path[0] := child]);
  }

  /** Any sequence of lookups gets the answers of the original, unexpanded tree. */
  method ResolveAll(node: ModuleData, paths: seq<seq<Name>>, deps: Deps) returns (found: seq<Id>, after: ModuleData)
    ensures |found| == |paths| && forall k :: 0 <= k < |paths| ==> found[k] == Lookup(deps, node, paths[k])
    ensures Alike(deps, node, after)
  {
    found, after := [], node;
    for k := 0 to |paths|
      invariant |found| == k && forall j :: 0 <= j < k ==> found[j] == Lookup(deps, node, paths[j])
      invariant Alike(deps, node, after)
    {
      var id;
      id, after := ResolvePath(after, paths[k], deps);
      found := found + [id];
    }
  }
}
