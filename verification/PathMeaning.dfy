/** What a path resolves to, told as a trail through modules, items and inherent functions, without the lazy tree. */
module PathMeaning {
  import opened ModuleTree

  /** Where a path has led so far. */
  datatype Stop = Module(def: DefId) | Item(child: Child) | Method(def: DefId)

  predicate OpensUp(c: Child) {
    c.kind == ModuleKind || c.kind == TraitKind
  }

  /** In a module, a name stands for the chosen child, or failing any child for the first inherent function; in an item
      for its first inherent function. Nothing is below a method. */
  ghost predicate Leads(deps: Deps, from: Stop, name: Name, to: Stop) {
    match from
    case Module(def) =>
      if HasChild(deps.Children(def), name) then
        exists k: nat :: Chosen(deps.Children(def), k, name)
                         && to == if OpensUp(deps.Children(def)[k]) then Module(deps.Children(def)[k].def) else Item(deps.Children(def)[k])
      else LeadsToMethod(deps.Impls(def), name, to)
    case Item(child) => LeadsToMethod(deps.Impls(child.def), name, to)
    case Method(_) => false
  }

  ghost predicate LeadsToMethod(impls: seq<ImplFn>, name: Name, to: Stop) {
    exists k: nat :: IsImpl(impls, k, name) && to == Method(impls[k].def)
  }

  /** Functions, constants and statics are expressions, everything else is a type or a module. */
  function Answer(s: Stop): (DefId, QueryResult) {
    match s
    case Module(def) => (def, TypeItem)
    case Item(c) => (c.def, if c.kind.FunctionKind? || c.kind.ConstKind? || c.kind.StaticKind? then ExprItem else TypeItem)
    case Method(def) => (def, ExprItem)
  }

  /** Segments in angle brackets are generic arguments. */
  predicate IsArguments(segment: Name) {
    |segment| > 0 && segment[0] == '<'
  }

  /** The stops a path makes, one more than it has segments; generic arguments lead nowhere new. */
  ghost predicate IsTrail(deps: Deps, path: seq<Name>, trail: seq<Stop>) {
    && |trail| == |path| + 1
    && (forall k :: 0 <= k < |path| ==> if IsArguments(path[k]) then trail[k + 1] == trail[k] else Leads(deps, trail[k], path[k], trail[k + 1]))
  }

  /** The node the tree has for a stop, before it is expanded. */
  function NodeOf(deps: Deps, s: Stop): ModuleData {
    match s
    case Module(def) => Unexpanded(def)
    case Item(c) => Expanded(Some((c.def, QueryOf(c.kind))), WithImpls(map[], deps.Impls(c.def)))
    case Method(def) => Expanded(Some((def, ExprItem)), map[])
  }

  lemma OneMethod(impls: seq<ImplFn>, name: Name, a: Stop, b: Stop)
    requires LeadsToMethod(impls, name, a) && LeadsToMethod(impls, name, b)
    ensures a == b
  {
    var j: nat :| IsImpl(impls, j, name) && a == Method(impls[j].def);
    var k: nat :| IsImpl(impls, k, name) && b == Method(impls[k].def);
    assert j == k;
  }

  /** A name leads to one stop at most. */
  lemma OneStop(deps: Deps, from: Stop, name: Name, a: Stop, b: Stop)
    requires Leads(deps, from, name, a) && Leads(deps, from, name, b)
    ensures a == b
  {
    match from {
      case Module(def) =>
        if HasChild(deps.Children(def), name) {
          var j: nat :| Chosen(deps.Children(def), j, name)
                        && a == if OpensUp(deps.Children(def)[j]) then Module(deps.Children(def)[j].def) else Item(deps.Children(def)[j]);
          var k: nat :| Chosen(deps.Children(def), k, name)
                        && b == if OpensUp(deps.Children(def)[k]) then Module(deps.Children(def)[k].def) else Item(deps.Children(def)[k]);
          assert IsChild(deps.Children(def), j, name) && IsChild(deps.Children(def), k, name);
          assert j == k;
        } else {
          OneMethod(deps.Impls(def), name, a, b);
        }
      case Item(child) => OneMethod(deps.Impls(child.def), name, a, b);
      case Method(_) =>
    }
  }

  lemma MethodsFound(deps: Deps, impls: seq<ImplFn>, name: Name) returns (to: Stop)
    ensures var items := WithImpls(map[], impls);
            if name in items then LeadsToMethod(impls, name, to) && items[name] == NodeOf(deps, to)
            else forall other :: !LeadsToMethod(impls, name, other)
  {
    ImplsChosen(map[], impls, name);
    to := Method(0);
    if name in WithImpls(map[], impls) {
      var k: nat :| IsImpl(impls, k, name) && WithImpls(map[], impls)[name] == ImplNode(impls[k]);
      to := Method(impls[k].def);
    }
  }

  lemma ModuleFound(deps: Deps, def: DefId, name: Name) returns (to: Stop)
    ensures var items := Expand(deps, Unexpanded(def)).items;
            if name in items then Leads(deps, Module(def), name, to) && items[name] == NodeOf(deps, to)
            else forall other :: !Leads(deps, Module(def), name, other)
  {
    var items, children, impls := Expand(deps, Unexpanded(def)).items, deps.Children(def), deps.Impls(def);
    ExpandedName(deps, def, name);
    to := Method(0);
    if HasChild(children, name) {
      var k: nat :| Chosen(children, k, name) && items[name] == ChildNode(deps, children[k]);
      to := if OpensUp(children[k]) then Module(children[k].def) else Item(children[k]);
    } else if name in items {
      var k: nat :| IsImpl(impls, k, name) && items[name] == ImplNode(impls[k]);
      to := Method(impls[k].def);
      assert LeadsToMethod(impls, name, to);
    }
  }

  /** A stop's node, expanded, has exactly the names that lead on, each with the node of the stop it leads to. */
  lemma NodeFound(deps: Deps, from: Stop, name: Name) returns (to: Stop)
    ensures var items := Expand(deps, NodeOf(deps, from)).items;
            if name in items then Leads(deps, from, name, to) && items[name] == NodeOf(deps, to)
            else forall other :: !Leads(deps, from, name, other)
  {
    match from {
      case Module(def) => to := ModuleFound(deps, def, name);
      case Item(child) => to := MethodsFound(deps, deps.Impls(child.def), name);
      case Method(_) => to := from;
    }
  }

  ghost predicate HasTrail(deps: Deps, from: Stop, path: seq<Name>) {
    exists trail :: IsTrail(deps, path, trail) && trail[0] == from
  }

  lemma TrailTail(deps: Deps, path: seq<Name>, trail: seq<Stop>)
    requires IsTrail(deps, path, trail) && path != []
    ensures IsTrail(deps, path[1..], trail[1..])
  {
  }

  lemma TrailGrown(deps: Deps, from: Stop, path: seq<Name>, rest: seq<Stop>)
    requires path != [] && IsTrail(deps, path[1..], rest)
    requires if IsArguments(path[0]) then rest[0] == from else Leads(deps, from, path[0], rest[0])
    ensures IsTrail(deps, path, [from] + rest)
  {
    var trail := [from] + rest;
    forall k | 0 <= k < |path|
      ensures if IsArguments(path[k]) then trail[k + 1] == trail[k] else Leads(deps, trail[k], path[k], trail[k + 1])
    {
      if k > 0 { assert path[1..][k - 1] == path[k]; }
    }
  }

  /** A trail ends at what the lookup finds, and without a trail it finds nothing. */
  lemma {:induction false} LookupMeaning(deps: Deps, from: Stop, path: seq<Name>)
    ensures forall trail :: IsTrail(deps, path, trail) && trail[0] == from
                            ==> Lookup(deps, NodeOf(deps, from), path) == Some(Answer(trail[|path|]))
    ensures Lookup(deps, NodeOf(deps, from), path).Some? <==> HasTrail(deps, from, path)
    decreases |path|
  {
    var node := NodeOf(deps, from);
    if path == [] {
      assert IsTrail(deps, path, [from]);
    } else if IsGeneric(path[0]) {
      LookupMeaning(deps, from, path[1..]);
      ExpandLookup(deps, node, path[1..]);
      TrailsThrough(deps, from, from, path);
    } else {
      var to := NodeFound(deps, from, path[0]);
      if path[0] in Expand(deps, node).items {
        LookupMeaning(deps, to, path[1..]);
        TrailsThrough(deps, from, to, path);
      } else {
        forall trail | IsTrail(deps, path, trail)
          ensures trail[0] != from
        {
          assert Leads(deps, trail[0], path[0], trail[1]);
        }
      }
    }
  }

  /** If the first segment leads from `from` to `to`, trails from `from` are those from `to`, one stop longer. */
  lemma TrailsThrough(deps: Deps, from: Stop, to: Stop, path: seq<Name>)
    requires path != [] && if IsArguments(path[0]) then to == from else Leads(deps, from, path[0], to)
    ensures HasTrail(deps, from, path) <==> HasTrail(deps, to, path[1..])
    ensures forall trail :: IsTrail(deps, path, trail) && trail[0] == from
                            ==> IsTrail(deps, path[1..], trail[1..]) && trail[1..][0] == to && trail[|path|] == trail[1..][|path| - 1]
  {
    forall trail | IsTrail(deps, path, trail) && trail[0] == from
      ensures IsTrail(deps, path[1..], trail[1..]) && trail[1..][0] == to
    {
      TrailTail(deps, path, trail);
      if !IsArguments(path[0]) { OneStop(deps, from, path[0], to, trail[1]); }
    }
    if trail :| IsTrail(deps, path, trail) && trail[0] == from {
      assert IsTrail(deps, path[1..], trail[1..]);
    }
    if rest :| IsTrail(deps, path[1..], rest) && rest[0] == to {
      TrailGrown(deps, from, path, rest);
      assert ([from] + rest)[0] == from;
    }
  }
}
