/** `use` imports: the tracker's policy, the module it guards, and why import order does not matter. */
module Imports {
  type Name = string
  type Source = string

  /** A module item, opaque to the tracker. */
  datatype Item = Item(id: nat)

  datatype Option<+T> = None | Some(value: T)

  /** What one module knows about its names. */
  datatype Scope = Scope(items: map<Name, Item>, singles: set<Name>, globs: map<Name, Source>, ambiguous: set<Name>)

  datatype Decision = Proceed | Duplicate

  /** A `use` item with its target already looked up. */
  datatype Import = Single(alias: Name, item: Item) | Glob(source: Source, offers: map<Name, Item>)

  // ---- the policy on one scope ----

  /** `check_single`, for a name that is or is not bound in the module. */
  function CheckSingle(s: Scope, alias: Name, bound: bool): Decision {
    if alias in s.singles then Duplicate
    else if bound && alias !in s.globs then Duplicate
    else Proceed
  }

  function CommitSingle(s: Scope, alias: Name): Scope {
    s.(singles := s.singles + {alias}, globs := s.globs - {alias}, ambiguous := s.ambiguous - {alias})
  }

  /** `note_glob`: the new policy state, and whether to insert the name. */
  function NoteGlob(s: Scope, name: Name, source: Source, bound: bool): (Scope, bool) {
    if name in s.singles then (s, false)
    else if name !in s.globs then
      if bound then (s, false) else (s.(globs := s.globs[name := source]), true)
    else if s.globs[name] != source then (s.(ambiguous := s.ambiguous + {name}), true)
    else (s, true)
  }

  function ImportSingle(s: Scope, alias: Name, item: Item): (Scope, Decision) {
    match CheckSingle(s, alias, alias in s.items)
    case Duplicate => (s, Duplicate)
    case Proceed => (CommitSingle(s.(items := s.items[alias := item]), alias), Proceed)
  }

  /** One name of a glob; an existing binding is kept. */
  function ImportGlobName(s: Scope, name: Name, item: Item, source: Source): Scope {
    var (noted, insert) := NoteGlob(s, name, source, name in s.items);
    if insert && name !in s.items then noted.(items := s.items[name := item]) else noted
  }

  // ---- one name at a time ----

  datatype NameView = NameView(item: Option<Item>, single: bool, glob: Option<Source>, ambiguous: bool)

  function View(s: Scope, x: Name): NameView {
    NameView(if x in s.items then Some(s.items[x]) else None, x in s.singles,
             if x in s.globs then Some(s.globs[x]) else None, x in s.ambiguous)
  }

  lemma SameViews(s: Scope, t: Scope)
    requires forall x: Name :: View(s, x) == View(t, x)
    ensures s == t
  {
    assert forall x: Name :: View(s, x).item == View(t, x).item && View(s, x).single == View(t, x).single
                             && View(s, x).glob == View(t, x).glob && View(s, x).ambiguous == View(t, x).ambiguous;
    assert s.items.Keys == t.items.Keys by {
      forall x: Name ensures x in s.items <==> x in t.items { assert View(s, x).item == View(t, x).item; }
    }
    assert s.items == t.items by {
      forall x | x in s.items ensures s.items[x] == t.items[x] { assert View(s, x).item == View(t, x).item; }
    }
    assert s.singles == t.singles by {
      forall x: Name ensures x in s.singles <==> x in t.singles { assert View(s, x).single == View(t, x).single; }
    }
    assert s.globs.Keys == t.globs.Keys by {
      forall x: Name ensures x in s.globs <==> x in t.globs { assert View(s, x).glob == View(t, x).glob; }
    }
    assert s.globs == t.globs by {
      forall x | x in s.globs ensures s.globs[x] == t.globs[x] { assert View(s, x).glob == View(t, x).glob; }
    }
    assert s.ambiguous == t.ambiguous by {
      forall x: Name ensures x in s.ambiguous <==> x in t.ambiguous { assert View(s, x).ambiguous == View(t, x).ambiguous; }
    }
  }

  /** The effect of one import on one name. */
  function ViewStep(v: NameView, x: Name, i: Import): NameView {
    match i
    case Single(alias, item) =>
      if alias != x || v.single || (v.item.Some? && v.glob.None?) then v
      else NameView(Some(item), true, None, false)
    case Glob(source, offers) =>
      if x !in offers || v.single then v
      else if v.glob.None? then
        if v.item.Some? then v else v.(glob := Some(source), item := Some(offers[x]))
      else
        var noted := if v.glob.value != source then v.(ambiguous := true) else v;
        if v.item.None? then noted.(item := Some(offers[x])) else noted
  }

  lemma SingleStep(s: Scope, alias: Name, item: Item, x: Name)
    ensures View(ImportSingle(s, alias, item).0, x) == ViewStep(View(s, x), x, Single(alias, item))
  {
  }

  lemma GlobStep(s: Scope, source: Source, offers: map<Name, Item>, x: Name)
    requires x in offers
    ensures View(ImportGlobName(s, x, offers[x], source), x) == ViewStep(View(s, x), x, Glob(source, offers))
    ensures forall y :: y != x ==> View(ImportGlobName(s, x, offers[x], source), y) == View(s, y)
  {
  }

  function ViewAfter(v: NameView, x: Name, imports: seq<Import>): NameView {
    if imports == [] then v
    else ViewStep(ViewAfter(v, x, imports[..|imports| - 1]), x, imports[|imports| - 1])
  }

  // ---- what an import list means, order aside ----

  /** `x` before any import. */
  function Start(locals: map<Name, Item>, x: Name): NameView {
    NameView(if x in locals then Some(locals[x]) else None, false, None, false)
  }

  ghost predicate Offered(imports: seq<Import>, x: Name, source: Source, item: Item) {
    exists i :: i in imports && i.Glob? && i.source == source && x in i.offers && i.offers[x] == item
  }

  /** Single imports have distinct aliases, none of them local, and a glob source always offers the same items. */
  ghost predicate WellFormed(locals: map<Name, Item>, imports: seq<Import>) {
    && (forall j, k :: 0 <= j < k < |imports| && imports[j].Single? && imports[k].Single? ==> imports[j].alias != imports[k].alias)
    && (forall i :: i in imports && i.Single? ==> i.alias !in locals)
    && (forall i, j :: i in imports && j in imports && i.Glob? && j.Glob? && i.source == j.source ==> i.offers == j.offers)
  }

  ghost predicate SingleOf(imports: seq<Import>, x: Name) {
    exists item :: Single(x, item) in imports
  }

  ghost predicate OfferedAny(imports: seq<Import>, x: Name) {
    exists source, item :: Offered(imports, x, source, item)
  }

  ghost predicate OfferedElse(imports: seq<Import>, x: Name, first: Source) {
    exists source, item :: source != first && Offered(imports, x, source, item)
  }

  /** The meaning of name `x`: locals win, then singles, then globs; two glob sources make it ambiguous. */
  ghost predicate Means(v: NameView, locals: map<Name, Item>, imports: seq<Import>, x: Name) {
    if x in locals then v == NameView(Some(locals[x]), false, None, false)
    else if SingleOf(imports, x) then
      v.single && v.glob.None? && !v.ambiguous && v.item.Some? && Single(x, v.item.value) in imports
    else if OfferedAny(imports, x) then
      && !v.single && v.item.Some? && v.glob.Some?
      && Offered(imports, x, v.glob.value, v.item.value)
      && (v.ambiguous <==> OfferedElse(imports, x, v.glob.value))
    else v == NameView(None, false, None, false)
  }

  lemma WellFormedPrefix(locals: map<Name, Item>, imports: seq<Import>)
    requires imports != [] && WellFormed(locals, imports)
    ensures WellFormed(locals, imports[..|imports| - 1])
  {
    var front := imports[..|imports| - 1];
    assert forall i :: i in front ==> i in imports;
  }

  ghost predicate Offers(i: Import, x: Name, source: Source, item: Item) {
    i.Glob? && i.source == source && x in i.offers && i.offers[x] == item
  }

  lemma OfferedSnoc(front: seq<Import>, last: Import, x: Name, source: Source, item: Item)
    ensures Offered(front + [last], x, source, item) <==> Offered(front, x, source, item) || Offers(last, x, source, item)
  {
    if Offered(front, x, source, item) {
      var i :| i in front && i.Glob? && i.source == source && x in i.offers && i.offers[x] == item;
      assert i in front + [last];
    }
    if Offers(last, x, source, item) {
      assert last in front + [last];
    }
  }

  /** How a further import changes what is said of `x`. */
  lemma Snoc(front: seq<Import>, last: Import, x: Name, first: Source)
    ensures SingleOf(front + [last], x) <==> SingleOf(front, x) || (last.Single? && last.alias == x)
    ensures OfferedAny(front + [last], x) <==> OfferedAny(front, x) || (last.Glob? && x in last.offers)
    ensures OfferedElse(front + [last], x, first) <==>
            OfferedElse(front, x, first) || (last.Glob? && x in last.offers && last.source != first)
  {
    forall source, item
      ensures Offered(front + [last], x, source, item) <==> Offered(front, x, source, item) || Offers(last, x, source, item)
    {
      OfferedSnoc(front, last, x, source, item);
    }
    if last.Single? && last.alias == x {
      assert Single(x, last.item) in front + [last];
    }
    if item :| Single(x, item) in front {
      assert Single(x, item) in front + [last];
    }
    if last.Glob? && x in last.offers {
      assert Offers(last, x, last.source, last.offers[x]);
    }
  }

  lemma NotYetSingle(locals: map<Name, Item>, imports: seq<Import>, x: Name)
    requires imports != [] && WellFormed(locals, imports)
    requires imports[|imports| - 1].Single? && imports[|imports| - 1].alias == x
    ensures !SingleOf(imports[..|imports| - 1], x) && x !in locals
  {
    var front := imports[..|imports| - 1];
    forall k | 0 <= k < |front|
      ensures !(front[k].Single? && front[k].alias == x)
    {
      assert front[k] == imports[k];
    }
    assert imports[|imports| - 1] in imports;
  }

  /** A glob keeps what is said of `x` true. */
  lemma MeansGlob(v: NameView, locals: map<Name, Item>, front: seq<Import>, last: Import, x: Name)
    requires last.Glob? && Means(v, locals, front, x) && WellFormed(locals, front + [last])
    ensures Means(ViewStep(v, x, last), locals, front + [last], x)
  {
    var w := ViewStep(v, x, last);
    Snoc(front, last, x, if w.glob.Some? then w.glob.value else "");
    assert w.glob.Some? && OfferedElse(front, x, w.glob.value) ==> OfferedAny(front, x);
    if w.glob.Some? && w.item.Some? { OfferedSnoc(front, last, x, w.glob.value, w.item.value); }
  }

  lemma MeansSingle(v: NameView, locals: map<Name, Item>, front: seq<Import>, last: Import, x: Name)
    requires last.Single? && Means(v, locals, front, x) && WellFormed(locals, front + [last])
    ensures Means(ViewStep(v, x, last), locals, front + [last], x)
  {
    var w := ViewStep(v, x, last);
    Snoc(front, last, x, if w.glob.Some? then w.glob.value else "");
    if last.alias == x {
      assert (front + [last])[..|front|] == front;
      NotYetSingle(locals, front + [last], x);
      assert last == Single(x, last.item);
    } else if w.glob.Some? && w.item.Some? {
      OfferedSnoc(front, last, x, w.glob.value, w.item.value);
    }
  }

  /** Running the imports in their order gives every name its order-free meaning. */
  lemma {:induction false} MeansAfter(locals: map<Name, Item>, imports: seq<Import>, x: Name)
    requires WellFormed(locals, imports)
    ensures Means(ViewAfter(Start(locals, x), x, imports), locals, imports, x)
    decreases |imports|
  {
    if imports != [] {
      var front, last := imports[..|imports| - 1], imports[|imports| - 1];
      assert imports == front + [last];
      WellFormedPrefix(locals, imports);
      MeansAfter(locals, front, x);
      var v := ViewAfter(Start(locals, x), x, front);
      if last.Single? { MeansSingle(v, locals, front, last, x); } else { MeansGlob(v, locals, front, last, x); }
    }
  }

  // ---- order does not matter ----

  lemma SameImports(imports: seq<Import>, other: seq<Import>, x: Name)
    requires multiset(imports) == multiset(other)
    ensures SingleOf(imports, x) <==> SingleOf(other, x)
    ensures OfferedAny(imports, x) <==> OfferedAny(other, x)
    ensures forall source, item :: Offered(imports, x, source, item) <==> Offered(other, x, source, item)
    ensures forall i :: i in imports <==> i in other
  {
    assert forall i :: i in imports <==> i in multiset(imports);
    assert forall i :: i in other <==> i in multiset(other);
    if item :| Single(x, item) in imports { assert Single(x, item) in other; }
    if item :| Single(x, item) in other { assert Single(x, item) in imports; }
    forall source, item
      ensures Offered(imports, x, source, item) <==> Offered(other, x, source, item)
    {
    }
  }

  lemma OneSingle(locals: map<Name, Item>, imports: seq<Import>, x: Name, a: Item, b: Item)
    requires WellFormed(locals, imports) && Single(x, a) in imports && Single(x, b) in imports
    ensures a == b
  {
    var j :| 0 <= j < |imports| && imports[j] == Single(x, a);
    var k :| 0 <= k < |imports| && imports[k] == Single(x, b);
    assert j == k;
  }

  lemma Twice<T>(s: seq<T>, j: nat, k: nat)
    requires j < k < |s| && s[j] == s[k]
    ensures multiset(s)[s[j]] >= 2
  {
    assert s == s[..k] + s[k..];
    assert s[..k][j] == s[j] && s[k..][0] == s[j];
    assert s[j] in multiset(s[..k]) && s[j] in multiset(s[k..]);
  }

  lemma TwoIndices<T>(s: seq<T>, x: T) returns (j: nat, k: nat)
    requires multiset(s)[x] >= 2
    ensures j < k < |s| && s[j] == s[k] == x
  {
    assert x in multiset(s);
    j :| j < |s| && s[j] == x;
    var rest := s[..j] + s[j + 1..];
    assert s == s[..j] + [x] + s[j + 1..];
    assert multiset(s) == multiset(rest) + multiset{x};
    assert x in multiset(rest);
    var i: nat :| i < |rest| && rest[i] == x;
    k := if i < j then i else i + 1;
    if k < j { j, k := k, j; }
  }

  lemma WellFormedAnyOrder(locals: map<Name, Item>, imports: seq<Import>, other: seq<Import>)
    requires WellFormed(locals, imports) && multiset(imports) == multiset(other)
    ensures WellFormed(locals, other)
  {
    assert forall i :: i in imports <==> i in multiset(imports);
    assert forall i :: i in other <==> i in multiset(other);
    forall j, k | 0 <= j < k < |other| && other[j].Single? && other[k].Single?
      ensures other[j].alias != other[k].alias
    {
      if other[j] == other[k] {
        Twice(other, j, k);
        var a, b := TwoIndices(imports, other[j]);
      } else {
        assert other[j] in imports && other[k] in imports;
        var a: nat :| a < |imports| && imports[a] == other[j];
        var b: nat :| b < |imports| && imports[b] == other[k];
        assert imports[if a < b then a else b].alias != imports[if a < b then b else a].alias;
      }
    }
  }

  /** Two orders of the same imports agree on every name: on whether it is single, glob-bound or ambiguous,
      and, unless it is ambiguous, on what it is bound to and by which source. */
  lemma OrderIrrelevant(locals: map<Name, Item>, imports: seq<Import>, other: seq<Import>, x: Name)
    requires WellFormed(locals, imports) && multiset(imports) == multiset(other)
    ensures var v, w := ViewAfter(Start(locals, x), x, imports), ViewAfter(Start(locals, x), x, other);
            v.single == w.single && v.ambiguous == w.ambiguous && v.glob.Some? == w.glob.Some? && v.item.Some? == w.item.Some?
            && (!v.ambiguous ==> v == w)
  {
    WellFormedAnyOrder(locals, imports, other);
    MeansAfter(locals, imports, x);
    MeansAfter(locals, other, x);
    SameImports(imports, other, x);
    var v, w := ViewAfter(Start(locals, x), x, imports), ViewAfter(Start(locals, x), x, other);
    if x !in locals && SingleOf(imports, x) {
      OneSingle(locals, imports, x, v.item.value, w.item.value);
    } else if x !in locals && OfferedAny(imports, x) {
      assert Offered(imports, x, w.glob.value, w.item.value);
      assert Offered(other, x, v.glob.value, v.item.value);
      if v.glob.value != w.glob.value {
        assert OfferedElse(imports, x, v.glob.value) && OfferedElse(other, x, w.glob.value);
      } else {
        assert OfferedElse(imports, x, v.glob.value) <==> OfferedElse(other, x, w.glob.value);
      }
    }
  }

  // ---- the tracker and its modules ----

  /** A bound name is local, single or glob-bound, never two of these; only glob-bound names are ambiguous. */
  predicate SplitView(locals: map<Name, Item>, x: Name, v: NameView) {
    if x in locals then v == NameView(Some(locals[x]), false, None, false)
    else
      && (v.item.Some? <==> v.single || v.glob.Some?)
      && !(v.single && v.glob.Some?)
      && (v.ambiguous ==> v.glob.Some?)
  }

  /** Whatever is imported, duplicates and all, names stay split and locals stay as they were. */
  lemma {:induction false} SplitAfter(locals: map<Name, Item>, imports: seq<Import>, x: Name)
    ensures SplitView(locals, x, ViewAfter(Start(locals, x), x, imports))
    decreases |imports|
  {
    if imports != [] { SplitAfter(locals, imports[..|imports| - 1], x); }
  }

  // ---- duplicates ----

  /** The `n`-th import is a single one whose alias is local or that of an earlier single import. */
  ghost predicate IsDuplicate(locals: map<Name, Item>, imports: seq<Import>, n: nat)
    requires n < |imports|
  {
    imports[n].Single? && (imports[n].alias in locals
                           || exists m :: 0 <= m < n && imports[m].Single? && imports[m].alias == imports[n].alias)
  }

  /** The aliases of the duplicates, in order. */
  ghost function Duplicates(locals: map<Name, Item>, imports: seq<Import>): seq<Name> {
    if imports == [] then []
    else
      var n := |imports| - 1;
      Duplicates(locals, imports[..n]) + if IsDuplicate(locals, imports, n) then [imports[n].alias] else []
  }

  /** The imports that are no duplicates. */
  ghost function Accepted(locals: map<Name, Item>, imports: seq<Import>): seq<Import> {
    if imports == [] then []
    else
      var n := |imports| - 1;
      Accepted(locals, imports[..n]) + if IsDuplicate(locals, imports, n) then [] else [imports[n]]
  }

  /** A name is single once it has been imported as one, duplicate or not, unless it is local. */
  lemma {:induction false} SingleAfter(locals: map<Name, Item>, imports: seq<Import>, x: Name)
    ensures ViewAfter(Start(locals, x), x, imports).single <==> x !in locals && SingleOf(imports, x)
    decreases |imports|
  {
    SplitAfter(locals, imports, x);
    if imports != [] {
      var front, last := imports[..|imports| - 1], imports[|imports| - 1];
      assert imports == front + [last];
      SingleAfter(locals, front, x);
      SplitAfter(locals, front, x);
      Snoc(front, last, x, "");
    }
  }

  lemma EarlierSingle(locals: map<Name, Item>, imports: seq<Import>, n: nat)
    requires n < |imports| && imports[n].Single?
    ensures IsDuplicate(locals, imports, n) <==> imports[n].alias in locals || SingleOf(imports[..n], imports[n].alias)
  {
    var x := imports[n].alias;
    if item :| Single(x, item) in imports[..n] {
      var m :| 0 <= m < n && imports[..n][m] == Single(x, item);
      assert imports[m].Single? && imports[m].alias == x;
    }
    if m :| 0 <= m < n && imports[m].Single? && imports[m].alias == x {
      assert imports[..n][m] == Single(x, imports[m].item);
    }
  }

  /** The tracker rejects a single import exactly if it is a duplicate in the list. */
  lemma RejectsDuplicates(locals: map<Name, Item>, before: Scope, imports: seq<Import>, n: nat)
    requires n < |imports| && imports[n].Single?
    requires forall x :: View(before, x) == ViewAfter(Start(locals, x), x, imports[..n])
    ensures CheckSingle(before, imports[n].alias, imports[n].alias in before.items) == Duplicate <==> IsDuplicate(locals, imports, n)
  {
    var x := imports[n].alias;
    var v := View(before, x);
    assert v == ViewAfter(Start(locals, x), x, imports[..n]);
    SingleAfter(locals, imports[..n], x);
    SplitAfter(locals, imports[..n], x);
    EarlierSingle(locals, imports, n);
  }

  /** A list has no duplicates exactly when its single imports have distinct, non-local aliases. */
  lemma {:induction false} NoDuplicates(locals: map<Name, Item>, imports: seq<Import>)
    ensures Duplicates(locals, imports) == [] <==> forall n: nat :: n < |imports| ==> !IsDuplicate(locals, imports, n)
    decreases |imports|
  {
    if imports != [] {
      var last := |imports| - 1;
      var front := imports[..last];
      NoDuplicates(locals, front);
      assert forall n: nat :: n < last ==> (IsDuplicate(locals, front, n) <==> IsDuplicate(locals, imports, n));
    }
  }

  lemma WellFormedNoDuplicates(locals: map<Name, Item>, imports: seq<Import>)
    requires WellFormed(locals, imports)
    ensures Duplicates(locals, imports) == []
  {
    forall n: nat | n < |imports|
      ensures !IsDuplicate(locals, imports, n)
    {
      assert imports[n] in imports;
    }
    NoDuplicates(locals, imports);
  }

  /** A duplicate changes nothing: every name ends as if only the accepted imports had been there. */
  lemma {:induction false} DuplicatesSkipped(locals: map<Name, Item>, imports: seq<Import>, x: Name)
    ensures ViewAfter(Start(locals, x), x, imports) == ViewAfter(Start(locals, x), x, Accepted(locals, imports))
    decreases |imports|
  {
    if imports != [] {
      var n := |imports| - 1;
      var front, last := imports[..n], imports[n];
      DuplicatesSkipped(locals, front, x);
      if IsDuplicate(locals, imports, n) {
        assert Accepted(locals, imports) == Accepted(locals, front);
        SingleAfter(locals, front, x);
        SplitAfter(locals, front, x);
        EarlierSingle(locals, imports, n);
      } else {
        var kept := Accepted(locals, front);
        assert (kept + [last])[..|kept|] == kept;
      }
    }
  }

  ghost predicate DistinctAliases(imports: seq<Import>) {
    forall j, k :: 0 <= j < k < |imports| && imports[j].Single? && imports[k].Single? ==> imports[j].alias != imports[k].alias
  }

  /** The accepted imports have distinct aliases, none of them local. */
  lemma {:induction false} AcceptedDistinct(locals: map<Name, Item>, imports: seq<Import>)
    ensures forall i :: i in Accepted(locals, imports) ==> i in imports && (i.Single? ==> i.alias !in locals)
    ensures DistinctAliases(Accepted(locals, imports))
    decreases |imports|
  {
    if imports != [] {
      var n := |imports| - 1;
      var front, last := imports[..n], imports[n];
      var kept := Accepted(locals, front);
      AcceptedDistinct(locals, front);
      assert forall i :: i in front ==> i in imports;
      if IsDuplicate(locals, imports, n) {
        assert Accepted(locals, imports) == kept;
      } else {
        forall j | 0 <= j < |kept| && kept[j].Single? && last.Single?
          ensures kept[j].alias != last.alias
        {
          EarlierSingle(locals, imports, n);
          assert kept[j] in kept && kept[j] == Single(kept[j].alias, kept[j].item);
        }
      }
    }
  }

  class ImportTracker {
    var singles: map<string, set<Name>>
    var globSources: map<string, map<Name, Source>>
    var ambiguous: map<string, set<Name>>
    /** The items of each module, which the resolver owns. */
    var modules: map<string, map<Name, Item>>

    constructor (locals: map<string, map<Name, Item>>)
      ensures modules == locals && singles == map[] && globSources == map[] && ambiguous == map[]
    {
      modules := locals;
      singles, globSources, ambiguous := map[], map[], map[];
    }

    /** What the maps say of one module. */
    function ScopeOf(key: string): Scope
      reads this
    {
      Scope(if key in modules then modules[key] else map[],
            if key in singles then singles[key] else {},
            if key in globSources then globSources[key] else map[],
            if key in ambiguous then ambiguous[key] else {})
    }

    method CheckSingleImport(key: string, alias: Name, bound: bool) returns (d: Decision)
      ensures d == CheckSingle(ScopeOf(key), alias, bound)
    {
      if key in singles && alias in singles[key] { return Duplicate; }
      if bound && !(key in globSources && alias in globSources[key]) { return Duplicate; }
      return Proceed;
    }

    method CommitSingleImport(key: string, alias: Name)
      modifies this`singles, this`globSources, this`ambiguous
      ensures ScopeOf(key) == CommitSingle(old(ScopeOf(key)), alias)
      ensures forall k :: k != key ==> ScopeOf(k) == old(ScopeOf(k))
    {
      singles := singles[key := (if key in singles then singles[key] else {}) + {alias}];
      if key in globSources {
        globSources := globSources[key := globSources[key] - {alias}];
      }
      if key in ambiguous {
        ambiguous := ambiguous[key := ambiguous[key] - {alias}];
      }
    }

    /** Records one name of a glob and says whether to insert it. */
    method NoteGlobName(key: string, name: Name, source: Source, bound: bool) returns (insert: bool)
      modifies this`globSources, this`ambiguous
      ensures (ScopeOf(key), insert) == NoteGlob(old(ScopeOf(key)), name, source, bound)
      ensures forall k :: k != key ==> ScopeOf(k) == old(ScopeOf(k))
    {
      if key in singles && name in singles[key] { return false; }
      if !(key in globSources && name in globSources[key]) {
        if bound { return false; }
        globSources := globSources[key := (if key in globSources then globSources[key] else map[])[name := source]];
      } else if globSources[key][name] != source {
        ambiguous := ambiguous[key := (if key in ambiguous then ambiguous[key] else {}) + {name}];
      }
      return true;
    }

    method ImportOne(key: string, alias: Name, item: Item) returns (d: Decision)
      requires key in modules
      modifies this
      ensures (ScopeOf(key), d) == ImportSingle(old(ScopeOf(key)), alias, item)
      ensures forall k :: k != key ==> ScopeOf(k) == old(ScopeOf(k))
      ensures modules.Keys == old(modules.Keys)
    {
      d := CheckSingleImport(key, alias, alias in modules[key]);
      if d == Duplicate { return; }
      modules := modules[key := modules[key][alias := item]];
      CommitSingleImport(key, alias);
    }

    /** Imports one name a glob offers. */
    method ImportOffered(key: string, name: Name, item: Item, source: Source)
      requires key in modules
      modifies this
      ensures ScopeOf(key) == ImportGlobName(old(ScopeOf(key)), name, item, source)
      ensures forall k :: k != key ==> ScopeOf(k) == old(ScopeOf(k))
      ensures modules.Keys == old(modules.Keys)
    {
      var bound := name in modules[key];
      var insert := NoteGlobName(key, name, source, bound);
      if insert && name !in modules[key] {
        modules := modules[key := modules[key][name := item]];
      }
    }

    /** Imports every name the source offers, in whatever order they come. */
    method ImportGlob(key: string, source: Source, offers: map<Name, Item>)
      requires key in modules
      modifies this
      ensures forall x :: View(ScopeOf(key), x) == ViewStep(old(View(ScopeOf(key), x)), x, Glob(source, offers))
      ensures forall k :: k != key ==> ScopeOf(k) == old(ScopeOf(k))
      ensures modules.Keys == old(modules.Keys)
    {
      var rest := offers.Keys;
      ghost var start := ScopeOf(key);
      while rest != {}
        invariant rest <= offers.Keys && key in modules
        invariant forall x :: View(ScopeOf(key), x) == if x in rest then View(start, x) else ViewStep(View(start, x), x, Glob(source, offers))
        invariant forall k :: k != key ==> ScopeOf(k) == old(ScopeOf(k))
        invariant modules.Keys == old(modules.Keys)
      {
        var name :| name in rest;
        ghost var before := ScopeOf(key);
        ImportOffered(key, name, offers[name], source);
        GlobStep(before, source, offers, name);
        rest := rest - {name};
      }
    }

    /** `import_use_items` on resolved targets: duplicates, and only they, are reported in order and skipped. */
    method ImportUseItems(key: string, imports: seq<Import>) returns (errors: seq<Name>)
      requires key in modules
      modifies this
      ensures forall x :: View(ScopeOf(key), x) == ViewAfter(old(View(ScopeOf(key), x)), x, imports)
      ensures forall k :: k != key ==> ScopeOf(k) == old(ScopeOf(k))
      ensures old(ScopeOf(key)) == Scope(old(ScopeOf(key).items), {}, map[], {})
              ==> errors == Duplicates(old(ScopeOf(key).items), imports)
    {
      errors := [];
      ghost var start := ScopeOf(key);
      for n := 0 to |imports|
        invariant key in modules
        invariant forall x :: View(ScopeOf(key), x) == ViewAfter(View(start, x), x, imports[..n])
        invariant forall k :: k != key ==> ScopeOf(k) == old(ScopeOf(k))
        invariant Fresh(start) ==> errors == Duplicates(start.items, imports[..n])
      {
        ghost var before := ScopeOf(key);
        assert imports[..n + 1][..n] == imports[..n];
        if Fresh(start) { StepReports(start, before, imports, n); }
        match imports[n] {
          case Single(alias, item) =>
            var d := ImportOne(key, alias, item);
            forall x
              ensures View(ScopeOf(key), x) == ViewStep(View(before, x), x, imports[n])
            {
              SingleStep(before, alias, item, x);
            }
            if d == Duplicate {
              errors := errors + [alias];
            }
          case Glob(source, offers) =>
            ImportGlob(key, source, offers);
        }
      }
      assert imports[..|imports|] == imports;
    }
  }

  /** Nothing imported yet. */
  predicate Fresh(s: Scope) {
    s == Scope(s.items, {}, map[], {})
  }

  /** How the list of duplicates grows by one import. */
  lemma StepReports(start: Scope, before: Scope, imports: seq<Import>, n: nat)
    requires Fresh(start) && n < |imports|
    requires forall x :: View(before, x) == ViewAfter(View(start, x), x, imports[..n])
    ensures Duplicates(start.items, imports[..n + 1])
            == Duplicates(start.items, imports[..n])
               + if imports[n].Single? && CheckSingle(before, imports[n].alias, imports[n].alias in before.items) == Duplicate
                 then [imports[n].alias] else []
  {
    var upTo := imports[..n + 1];
    assert upTo[..n] == imports[..n];
    assert forall x :: View(start, x) == Start(start.items, x);
    if imports[n].Single? { RejectsDuplicates(start.items, before, upTo, n); }
  }
}
