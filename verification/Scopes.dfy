/** Plain names: `resolve_relative` and `ambiguous_in_scope` walk the same scopes and stop at the same one. */
module Scopes {
  import opened ModuleTree

  /** The module at `path` below `root`. Modules of the crate itself are always expanded. */
  function Descend(root: ModuleData, path: seq<Name>): Option<ModuleData> {
    if path == [] then Some(root)
    else
      var outer := Descend(root, path[..|path| - 1]);
      if outer.None? || outer.value.Unexpanded? || path[|path| - 1] !in outer.value.items then None
      else Some(outer.value.items[path[|path| - 1]])
  }

  /** The modules passed on the way, each listed in the one before it under its segment. */
  ghost predicate IsWayDown(root: ModuleData, path: seq<Name>, way: seq<ModuleData>) {
    && |way| == |path| + 1 && way[0] == root
    && (forall k :: 0 <= k < |path| ==> way[k].Expanded? && path[k] in way[k].items && way[k + 1] == way[k].items[path[k]])
  }

  /** A module is found only if there is a way down to it. */
  lemma {:induction false} WayFound(root: ModuleData, path: seq<Name>) returns (way: seq<ModuleData>)
    requires Descend(root, path).Some?
    ensures IsWayDown(root, path, way) && Descend(root, path) == Some(way[|path|])
    decreases |path|
  {
    way := [root];
    if path != [] {
      way := WayFound(root, path[..|path| - 1]);
      way := way + [Descend(root, path).value];
    }
  }

  /** A way down leads to the module found. */
  lemma {:induction false} WayFollowed(root: ModuleData, path: seq<Name>, way: seq<ModuleData>)
    requires IsWayDown(root, path, way)
    ensures Descend(root, path) == Some(way[|path|])
    decreases |path|
  {
    if path != [] {
      WayFollowed(root, path[..|path| - 1], way[..|path|]);
    }
  }

  predicate Binds(deps: Deps, root: ModuleData, scope: seq<Name>, name: Name) {
    Descend(root, scope).Some? && Lookup(deps, Descend(root, scope).value, [name]).Some?
  }

  /** The deepest of the first `n + 1` enclosing scopes that binds the name. */
  function Innermost(deps: Deps, root: ModuleData, path: seq<Name>, name: Name, n: nat): (r: Option<nat>)
    requires n <= |path|
    ensures match r
            case Some(k) => k <= n && Binds(deps, root, path[..k], name) && forall j :: k < j <= n ==> !Binds(deps, root, path[..j], name)
            case None => forall j :: 0 <= j <= n ==> !Binds(deps, root, path[..j], name)
  {
    if Binds(deps, root, path[..n], name) then Some(n)
    else if n == 0 then None
    else Innermost(deps, root, path, name, n - 1)
  }

  lemma {:induction false} PrefixExists(root: ModuleData, path: seq<Name>, n: nat)
    requires n <= |path| && Descend(root, path).Some?
    ensures Descend(root, path[..n]).Some?
    decreases |path|
  {
    if n < |path| {
      var front := path[..|path| - 1];
      assert front[..n] == path[..n];
      PrefixExists(root, front, n);
    } else {
      assert path[..n] == path;
    }
  }

  /** `current.as_content_mut().items.get_mut(segment)?`, one segment after the other. */
  method Navigate(root: ModuleData, path: seq<Name>) returns (node: Option<ModuleData>)
    ensures node == Descend(root, path)
  {
    var current := root;
    for k := 0 to |path|
      invariant Descend(root, path[..k]) == Some(current)
    {
      assert path[..k + 1][..k] == path[..k];
      if current.Unexpanded? || path[k] !in current.items {
        MissingStays(root, path, k + 1);
        return None;
      }
      current := current.items[path[k]];
    }
    assert path[..|path|] == path;
    return Some(current);
  }

  lemma {:induction false} MissingStays(root: ModuleData, path: seq<Name>, n: nat)
    requires n <= |path| && Descend(root, path[..n]).None?
    ensures Descend(root, path).None?
    decreases |path| - n
  {
    if n < |path| {
      assert path[..n + 1][..n] == path[..n];
      MissingStays(root, path, n + 1);
    } else {
      assert path[..n] == path;
    }
  }

  /** `resolve_relative` for a plain name: the answer of the innermost scope that binds it. The last resort,
      the crate root, has been asked by then. In a module path that leads nowhere nothing is found. */
  method ResolveRelative(root: ModuleData, path: seq<Name>, name: Name, deps: Deps) returns (found: Id)
    ensures Descend(root, path).None? ==> found == None
    ensures Descend(root, path).Some? ==>
              match Innermost(deps, root, path, name, |path|)
              case Some(k) => found == Lookup(deps, Descend(root, path[..k]).value, [name])
              case None => found == None
  {
    var n: int := |path|;
    while n >= 0
      invariant -1 <= n <= |path| && (n < |path| ==> Descend(root, path).Some?)
      invariant forall j :: n < j <= |path| ==> !Binds(deps, root, path[..j], name)
      invariant n >= 0 ==> Innermost(deps, root, path, name, |path|) == Innermost(deps, root, path, name, n)
      invariant n < 0 ==> Innermost(deps, root, path, name, |path|) == None
    {
      var scope := Navigate(root, path[..n]);
      if scope.None? {
        if n < |path| { PrefixExists(root, path, n); } else { assert path[..n] == path; }
        return None;
      }
      if n == |path| { assert path[..n] == path; }
      var after;
      found, after := ResolvePath(scope.value, [name], deps);
      if found.Some? { return; }
      n := n - 1;
    }
    assert path[..0] == [];
    assert !Binds(deps, root, path[..0], name);
    var after;
    found, after := ResolvePath(root, [name], deps);
  }

  /** Whether the scope that answers for the name lists it as ambiguous. */
  method AmbiguousInScope(root: ModuleData, path: seq<Name>, name: Name, deps: Deps, ambiguous: set<(seq<Name>, Name)>)
    returns (r: bool)
    ensures match Innermost(deps, root, path, name, |path|)
            case Some(k) => r == ((path[..k], name) in ambiguous)
            case None => r == false
  {
    var n: int := |path|;
    while n >= 0
      invariant -1 <= n <= |path|
      invariant n >= 0 ==> Innermost(deps, root, path, name, |path|) == Innermost(deps, root, path, name, n)
      invariant n < 0 ==> Innermost(deps, root, path, name, |path|) == None
    {
      var scope := Navigate(root, path[..n]);
      if scope.Some? {
        var found, after := ResolvePath(scope.value, [name], deps);
        if found.Some? {
          return (path[..n], name) in ambiguous;
        }
      }
      n := n - 1;
    }
    r := false;
  }
}
