/** Merging a translation unit's repeated declarations: two passes that must number its items alike. */
module Dedup {
  type Name = string

  /** In increasing importance. */
  datatype Kind =
    | ExternVarDeclOrFuncDecl | StaticUninitOrFuncDecl | ExternFunction | ExternVarDecl | StaticUninitUnsized
    | StaticUninit | Typedef | FunctionDeclaration | StaticInitialized | FunctionDefinition | RustFunctionDefinition
    | RustTypeAlias | RustStruct

  datatype Option<+T> = None | Some(value: T)

  function Weight(k: Kind): nat {
    match k
    case ExternVarDeclOrFuncDecl => 0
    case StaticUninitOrFuncDecl => 1
    case ExternFunction => 2
    case ExternVarDecl => 3
    case StaticUninitUnsized => 4
    case StaticUninit => 5
    case Typedef => 6
    case FunctionDeclaration => 7
    case StaticInitialized => 8
    case FunctionDefinition => 9
    case RustFunctionDefinition => 10
    case RustTypeAlias => 11
    case RustStruct => 12
  }

  /** `check_mergeable` with the more important kind first. */
  predicate Absorbs(big: Kind, small: Kind) {
    match big
    case Typedef => small == Typedef
    case FunctionDefinition =>
      small.ExternFunction? || small.FunctionDeclaration? || small.ExternVarDeclOrFuncDecl? || small.StaticUninitOrFuncDecl?
    case FunctionDeclaration =>
      small.ExternFunction? || small.FunctionDeclaration? || small.ExternVarDeclOrFuncDecl? || small.StaticUninitOrFuncDecl?
    case ExternFunction => small == ExternFunction
    case ExternVarDecl => small.ExternVarDecl? || small.ExternVarDeclOrFuncDecl? || small.StaticUninitOrFuncDecl?
    case StaticInitialized =>
      small.StaticUninit? || small.StaticUninitUnsized? || small.ExternVarDecl? || small.ExternVarDeclOrFuncDecl?
      || small.StaticUninitOrFuncDecl?
    case StaticUninit => small.StaticUninit? || small.StaticUninitUnsized? || small.ExternVarDecl?
    case StaticUninitUnsized =>
      small.StaticUninitUnsized? || small.ExternVarDecl? || small.ExternVarDeclOrFuncDecl? || small.StaticUninitOrFuncDecl?
    case ExternVarDeclOrFuncDecl => small == ExternVarDeclOrFuncDecl
    case StaticUninitOrFuncDecl => small.StaticUninitOrFuncDecl? || small.ExternVarDeclOrFuncDecl?
    case _ => false
  }

  predicate Mergeable(a: Kind, b: Kind) {
    if Weight(a) < Weight(b) then Absorbs(b, a) else Absorbs(a, b)
  }

  /** A declared name; a Rust type alias or struct is never dropped. */
  datatype Entry = Entry(name: Name, kind: Kind)

  /** What `deduplicate_tu_items` sees of an item. The other items carry no name. */
  datatype TuItem =
    | Function(name: Name, isRust: bool)
    | RustType(name: Name, isStruct: bool)
    | Declaration(isTypedef: bool, isExtern: bool, usesTypedefName: bool, declarators: seq<Declarator>)
    | OtherItem

  datatype Declarator = Declarator(name: Name, isFunction: bool, hasInitializer: bool, isUnsizedArray: bool)

  function FunctionKind(isRust: bool): Kind {
    if isRust then RustFunctionDefinition else FunctionDefinition
  }

  function RustTypeKind(isStruct: bool): Kind {
    if isStruct then RustStruct else RustTypeAlias
  }

  function DeclaratorKind(i: TuItem, d: Declarator): Kind
    requires i.Declaration?
  {
    if i.isTypedef then Typedef
    else if d.isFunction then (if i.isExtern then ExternFunction else FunctionDeclaration)
    else if d.hasInitializer then StaticInitialized
    else if i.usesTypedefName then (if i.isExtern then ExternVarDeclOrFuncDecl else StaticUninitOrFuncDecl)
    else if i.isExtern then ExternVarDecl
    else if d.isUnsizedArray then StaticUninitUnsized
    else StaticUninit
  }

  function DeclaratorEntries(i: TuItem, ds: seq<Declarator>): seq<Entry>
    requires i.Declaration?
  {
    if ds == [] then []
    else DeclaratorEntries(i, ds[..|ds| - 1]) + [Entry(ds[|ds| - 1].name, DeclaratorKind(i, ds[|ds| - 1]))]
  }

  /** The numbered entries of one item. */
  function ItemEntries(i: TuItem): seq<Entry> {
    match i
    case Function(name, isRust) => [Entry(name, FunctionKind(isRust))]
    case RustType(name, isStruct) => [Entry(name, RustTypeKind(isStruct))]
    case Declaration(_, _, _, ds) => DeclaratorEntries(i, ds)
    case OtherItem => []
  }

  /** All numbered entries; an entry's number is its index here. */
  function Entries(items: seq<TuItem>): seq<Entry> {
    if items == [] then [] else Entries(items[..|items| - 1]) + ItemEntries(items[|items| - 1])
  }

  // ---- the first pass, entry by entry ----

  datatype Best = Best(id: nat, kind: Kind)

  datatype Tally = Tally(best: map<Name, Best>, clean: bool)

  /** Rust types never take over a name; anything else does when it is more important. */
  function Count(t: Tally, id: nat, e: Entry): Tally {
    if e.name !in t.best then t.(best := t.best[e.name := Best(id, e.kind)])
    else
      var before := t.best[e.name];
      var clean := t.clean && Mergeable(before.kind, e.kind);
      if Weight(e.kind) > Weight(before.kind) && !IsRustType(e.kind)
      then Tally(t.best[e.name := Best(id, e.kind)], clean) else t.(clean := clean)
  }

  function CountAll(entries: seq<Entry>): Tally {
    if entries == [] then Tally(map[], true)
    else Count(CountAll(entries[..|entries| - 1]), |entries| - 1, entries[|entries| - 1])
  }

  // ---- what it finds ----

  /** Entry `id` is the first of the most important entries of its name. */
  ghost predicate Foremost(entries: seq<Entry>, id: nat) {
    && id < |entries|
    && (forall k :: 0 <= k < |entries| && entries[k].name == entries[id].name ==> Weight(entries[k].kind) <= Weight(entries[id].kind))
    && (forall k :: 0 <= k < id && entries[k].name == entries[id].name ==> Weight(entries[k].kind) < Weight(entries[id].kind))
  }

  predicate IsRustType(k: Kind) {
    k.RustTypeAlias? || k.RustStruct?
  }

  lemma RustTypesNeverMerge(a: Kind, b: Kind)
    requires Mergeable(a, b)
    ensures !IsRustType(a) && !IsRustType(b)
  {
  }

  /** What counting `e` does to the best entries when it raises no error. */
  predicate Takes(before: map<Name, Best>, id: nat, e: Entry, after: map<Name, Best>) {
    if e.name !in before then after == before[e.name := Best(id, e.kind)]
    else if Weight(e.kind) > Weight(before[e.name].kind) then after == before[e.name := Best(id, e.kind)]
    else after == before
  }

  lemma CleanCount(entries: seq<Entry>)
    requires entries != [] && CountAll(entries).clean
    ensures var front, e := entries[..|entries| - 1], entries[|entries| - 1];
            && CountAll(front).clean
            && (e.name in CountAll(front).best ==> Mergeable(CountAll(front).best[e.name].kind, e.kind))
            && Takes(CountAll(front).best, |front|, e, CountAll(entries).best)
  {
    var front, e := entries[..|entries| - 1], entries[|entries| - 1];
    if e.name in CountAll(front).best && CountAll(front).clean && Mergeable(CountAll(front).best[e.name].kind, e.kind) {
      RustTypesNeverMerge(CountAll(front).best[e.name].kind, e.kind);
    }
  }

  ghost predicate Occurs(entries: seq<Entry>, name: Name) {
    exists k :: 0 <= k < |entries| && entries[k].name == name
  }

  /** `best` knows the name exactly when it occurs, and then by its foremost entry. */
  ghost predicate Knows(entries: seq<Entry>, best: map<Name, Best>, name: Name) {
    && (name in best <==> Occurs(entries, name))
    && (name in best ==> Foremost(entries, best[name].id) && entries[best[name].id] == Entry(name, best[name].kind))
  }

  lemma KnowsStep(front: seq<Entry>, e: Entry, before: map<Name, Best>, after: map<Name, Best>, name: Name)
    requires Knows(front, before, name) && Takes(before, |front|, e, after)
    ensures Knows(front + [e], after, name)
  {
    var entries := front + [e];
    assert entries[|front|] == e;
    if e.name != name {
      assert forall k :: 0 <= k < |entries| && entries[k].name == name ==> k < |front| && front[k].name == name;
      assert forall k :: 0 <= k < |front| ==> entries[k] == front[k];
    } else {
      assert Occurs(entries, name);
      if name in before {
        var id := before[name].id;
        assert forall k :: 0 <= k < |front| && front[k].name == name ==> Weight(front[k].kind) <= Weight(front[id].kind);
        assert forall k :: 0 <= k < |front| ==> entries[k] == front[k];
      } else {
        assert forall k :: 0 <= k < |front| ==> entries[k] == front[k] && front[k].name != name;
      }
    }
  }

  lemma {:induction false} CountsForemost(entries: seq<Entry>, name: Name)
    requires CountAll(entries).clean
    ensures Knows(entries, CountAll(entries).best, name)
    decreases |entries|
  {
    if entries != [] {
      var front, e := entries[..|entries| - 1], entries[|entries| - 1];
      CleanCount(entries);
      CountsForemost(front, name);
      KnowsStep(front, e, CountAll(front).best, CountAll(entries).best, name);
      assert entries == front + [e];
    }
  }

  /** Entry `k` merges with the foremost of the entries of its name before it, if there are any. */
  ghost predicate MergesInto(entries: seq<Entry>, k: nat)
    requires k < |entries|
  {
    forall f: nat :: Foremost(entries[..k], f) && entries[f].name == entries[k].name
                     ==> Mergeable(entries[f].kind, entries[k].kind)
  }

  ghost predicate EachMerges(entries: seq<Entry>) {
    forall k :: 0 <= k < |entries| ==> MergesInto(entries, k)
  }

  lemma MergesLast(front: seq<Entry>, e: Entry)
    requires CountAll(front).clean
    ensures MergesInto(front + [e], |front|)
            <==> (e.name in CountAll(front).best ==> Mergeable(CountAll(front).best[e.name].kind, e.kind))
  {
    var entries, best := front + [e], CountAll(front).best;
    assert entries[..|front|] == front;
    CountsForemost(front, e.name);
    forall f: nat | Foremost(front, f) && front[f].name == e.name
      ensures e.name in best && best[e.name].id == f
    {
      assert Occurs(front, e.name);
    }
    if e.name in best {
      var id := best[e.name].id;
      assert Foremost(front, id) && entries[id] == front[id] && entries[|front|] == e;
    }
  }

  lemma MergesFront(front: seq<Entry>, e: Entry)
    ensures EachMerges(front + [e]) <==> EachMerges(front) && MergesInto(front + [e], |front|)
  {
    var entries := front + [e];
    forall k | 0 <= k < |front|
      ensures MergesInto(entries, k) <==> MergesInto(front, k)
    {
      assert entries[..k] == front[..k];
    }
  }

  /** The first pass finds no error exactly when each entry merges with the foremost one before it. */
  lemma {:induction false} CleanExactly(entries: seq<Entry>)
    ensures CountAll(entries).clean <==> EachMerges(entries)
    decreases |entries|
  {
    if entries != [] {
      var front, e := entries[..|entries| - 1], entries[|entries| - 1];
      assert entries == front + [e];
      CleanExactly(front);
      MergesFront(front, e);
      if CountAll(front).clean { MergesLast(front, e); }
    }
  }

  // ---- the errors of any unit ----

  /** Entries that can become the best of their name: a Rust type only if it is the first. */
  ghost predicate Eligible(entries: seq<Entry>, k: nat) {
    k < |entries| && (IsRustType(entries[k].kind) ==> forall j :: 0 <= j < k ==> entries[j].name != entries[k].name)
  }

  /** The first of the most important eligible entries of its name. */
  ghost predicate Champion(entries: seq<Entry>, id: nat) {
    && Eligible(entries, id)
    && (forall k: nat :: Eligible(entries, k) && entries[k].name == entries[id].name
                         ==> Weight(entries[k].kind) <= Weight(entries[id].kind) && (k < id ==> Weight(entries[k].kind) < Weight(entries[id].kind)))
  }

  /** `best` knows the name exactly when it occurs, and then by its champion, errors or not. */
  ghost predicate KnowsChampion(entries: seq<Entry>, best: map<Name, Best>, name: Name) {
    && (name in best <==> Occurs(entries, name))
    && (name in best ==> Champion(entries, best[name].id) && entries[best[name].id] == Entry(name, best[name].kind))
  }

  lemma EligibleSnoc(front: seq<Entry>, e: Entry, k: nat)
    ensures Eligible(front + [e], k)
            <==> Eligible(front, k) || (k == |front| && (IsRustType(e.kind) ==> !Occurs(front, e.name)))
  {
    var entries := front + [e];
    assert forall j :: 0 <= j < |front| ==> entries[j] == front[j];
    if k == |front| && IsRustType(e.kind) && Occurs(front, e.name) {
      var j :| 0 <= j < |front| && front[j].name == e.name;
      assert entries[j].name == e.name;
    }
  }

  lemma ChampionStep(front: seq<Entry>, e: Entry, t: Tally, name: Name)
    requires KnowsChampion(front, t.best, name) && (e.name != name || KnowsChampion(front, t.best, e.name))
    ensures KnowsChampion(front + [e], Count(t, |front|, e).best, name)
  {
    var entries := front + [e];
    assert forall j :: 0 <= j < |front| ==> entries[j] == front[j];
    assert entries[|front|] == e;
    forall k: nat
      ensures Eligible(entries, k) <==> Eligible(front, k) || (k == |front| && (IsRustType(e.kind) ==> !Occurs(front, e.name)))
    {
      EligibleSnoc(front, e, k);
    }
    OccursSnoc(front, e, name);
  }

  lemma OccursSnoc(front: seq<Entry>, e: Entry, name: Name)
    ensures Occurs(front + [e], name) <==> Occurs(front, name) || e.name == name
  {
    var entries := front + [e];
    assert entries[|front|] == e;
    if j :| 0 <= j < |front| && front[j].name == name { assert entries[j].name == name; }
    if j :| 0 <= j < |entries| && entries[j].name == name { assert j < |front| ==> front[j].name == name; }
  }

  /** At any time, errors or not, the map holds the champion of each name met. */
  lemma {:induction false} CountsChampion(entries: seq<Entry>, name: Name)
    ensures KnowsChampion(entries, CountAll(entries).best, name)
    decreases |entries|
  {
    if entries != [] {
      var front, e := entries[..|entries| - 1], entries[|entries| - 1];
      CountsChampion(front, name);
      ChampionStep(front, e, CountAll(front), name);
      assert entries == front + [e];
    }
  }

  /** Entry `k` does not merge with the champion of its name among the entries before it. */
  ghost predicate Clashes(entries: seq<Entry>, k: nat)
    requires k < |entries|
  {
    exists f: nat :: Champion(entries[..k], f) && entries[f].name == entries[k].name && !Mergeable(entries[f].kind, entries[k].kind)
  }

  /** The names of the clashing entries, in order. */
  ghost function ClashList(entries: seq<Entry>): seq<Name> {
    if entries == [] then []
    else
      var n := |entries| - 1;
      ClashList(entries[..n]) + if Clashes(entries, n) then [entries[n].name] else []
  }

  lemma ClashesStep(front: seq<Entry>, e: Entry)
    ensures var best := CountAll(front).best;
            ClashList(front + [e])
            == ClashList(front) + if e.name in best && !Mergeable(best[e.name].kind, e.kind) then [e.name] else []
  {
    var entries, best := front + [e], CountAll(front).best;
    assert entries[..|front|] == front && entries[|front|] == e;
    CountsChampion(front, e.name);
    forall f: nat | Champion(front, f) && front[f].name == e.name
      ensures e.name in best && best[e.name].id == f
    {
      assert Occurs(front, e.name);
    }
    if e.name in best {
      var f := best[e.name].id;
      assert Champion(entries[..|front|], f) && entries[f] == front[f];
    }
  }

  /** Whether a unit is accepted depends on the order of its entries, not on its pairs: an initialized variable
      may come between two declarations that do not merge, and may not come after them. */
  lemma OrderMatters(name: Name)
    ensures var declared, initialized, tentative :=
              Entry(name, ExternVarDeclOrFuncDecl), Entry(name, StaticInitialized), Entry(name, StaticUninit);
            && !Mergeable(declared.kind, tentative.kind)
            && CountAll([declared, initialized, tentative]).clean
            && !CountAll([declared, tentative, initialized]).clean
  {
    var declared, initialized, tentative :=
      Entry(name, ExternVarDeclOrFuncDecl), Entry(name, StaticInitialized), Entry(name, StaticUninit);
    var a, b := [declared, initialized, tentative], [declared, tentative, initialized];
    CountThree(declared, initialized, tentative);
    CountThree(declared, tentative, initialized);
  }

  lemma CountThree(x: Entry, y: Entry, z: Entry)
    ensures CountAll([x, y, z]) == Count(Count(Count(Tally(map[], true), 0, x), 1, y), 2, z)
  {
    assert [x, y, z][..2] == [x, y] && [x, y][..1] == [x] && [x][..0] == [];
    assert CountAll([x]) == Count(Tally(map[], true), 0, x);
    assert CountAll([x, y]) == Count(CountAll([x]), 1, y);
  }

  // ---- the second pass ----

  predicate Keeps(best: map<Name, Best>, e: Entry, id: nat) {
    IsRustType(e.kind) || (e.name in best && best[e.name].id == id)
  }

  /** Numbers of the kept entries among the first `n`. */
  function KeptIds(entries: seq<Entry>, best: map<Name, Best>, n: nat): seq<nat>
    requires n <= |entries|
  {
    if n == 0 then []
    else KeptIds(entries, best, n - 1) + (if Keeps(best, entries[n - 1], n - 1) then [n - 1] else [])
  }

  function KeptDeclarators(i: TuItem, ds: seq<Declarator>, best: map<Name, Best>, id: nat): seq<Declarator>
    requires i.Declaration?
  {
    if ds == [] then []
    else
      var d := ds[|ds| - 1];
      KeptDeclarators(i, ds[..|ds| - 1], best, id)
      + (if d.name in best && best[d.name].id == id + |ds| - 1 then [d] else [])
  }

  /** What is left of an item whose first entry has number `id`. A declaration stays even when emptied. */
  function KeptItem(i: TuItem, best: map<Name, Best>, id: nat): seq<TuItem> {
    match i
    case Function(name, _) => if name in best && best[name].id == id then [i] else []
    case RustType(_, _) => [i]
    case Declaration(_, _, _, ds) => [i.(declarators := KeptDeclarators(i, ds, best, id))]
    case OtherItem => [i]
  }

  function KeptItems(items: seq<TuItem>, best: map<Name, Best>): seq<TuItem> {
    if items == [] then []
    else KeptItems(items[..|items| - 1], best) + KeptItem(items[|items| - 1], best, |Entries(items[..|items| - 1])|)
  }

  /** The entries with the given numbers. */
  function Pick(entries: seq<Entry>, ids: seq<nat>): seq<Entry>
    requires forall k :: 0 <= k < |ids| ==> ids[k] < |entries|
  {
    seq(|ids|, k requires 0 <= k < |ids| => entries[ids[k]])
  }

  lemma {:induction false} KeptIdsMeaning(entries: seq<Entry>, best: map<Name, Best>, n: nat)
    requires n <= |entries|
    ensures var ids := KeptIds(entries, best, n);
            && (forall id :: id in ids <==> 0 <= id < n && Keeps(best, entries[id], id))
            && (forall j, k :: 0 <= j < k < |ids| ==> ids[j] < ids[k])
  {
    if n > 0 {
      KeptIdsMeaning(entries, best, n - 1);
      var before, ids := KeptIds(entries, best, n - 1), KeptIds(entries, best, n);
      assert ids == before + if Keeps(best, entries[n - 1], n - 1) then [n - 1] else [];
      forall k | 0 <= k < |before|
        ensures before[k] < n - 1
      {
        assert before[k] in before;
      }
    }
  }

  /** Kept ids of a longer list agree on the shorter one. */
  lemma {:induction false} KeptIdsPrefix(entries: seq<Entry>, more: seq<Entry>, best: map<Name, Best>, n: nat)
    requires n <= |entries|
    ensures KeptIds(entries + more, best, n) == KeptIds(entries, best, n)
  {
    if n > 0 { KeptIdsPrefix(entries, more, best, n - 1); }
  }

  lemma {:induction false} KeptIdsBounded(entries: seq<Entry>, best: map<Name, Best>, n: nat)
    requires n <= |entries|
    ensures forall k :: 0 <= k < |KeptIds(entries, best, n)| ==> KeptIds(entries, best, n)[k] < n
  {
    if n > 0 { KeptIdsBounded(entries, best, n - 1); }
  }

  /** All kept entries, in order. */
  function Kept(entries: seq<Entry>, best: map<Name, Best>): seq<Entry> {
    KeptIdsBounded(entries, best, |entries|);
    Pick(entries, KeptIds(entries, best, |entries|))
  }

  lemma KeptSnoc(entries: seq<Entry>, e: Entry, best: map<Name, Best>)
    ensures Kept(entries + [e], best) == Kept(entries, best) + (if Keeps(best, e, |entries|) then [e] else [])
  {
    var longer := entries + [e];
    KeptIdsPrefix(entries, [e], best, |entries|);
    KeptIdsBounded(entries, best, |entries|);
    KeptIdsBounded(longer, best, |longer|);
    assert KeptIds(longer, best, |longer|)
        == KeptIds(entries, best, |entries|) + (if Keeps(best, e, |entries|) then [|entries|] else []);
  }

  lemma DeclaratorsSnoc(i: TuItem, ds: seq<Declarator>, d: Declarator)
    requires i.Declaration?
    ensures DeclaratorEntries(i, ds + [d]) == DeclaratorEntries(i, ds) + [Entry(d.name, DeclaratorKind(i, d))]
  {
    assert (ds + [d])[..|ds|] == ds;
  }

  lemma {:induction false} DeclaratorCount(i: TuItem, ds: seq<Declarator>)
    requires i.Declaration?
    ensures |DeclaratorEntries(i, ds)| == |ds|
    decreases |ds|
  {
    if ds != [] { DeclaratorCount(i, ds[..|ds| - 1]); }
  }

  lemma KeptMore(before: seq<Entry>, es: seq<Entry>, e: Entry, best: map<Name, Best>, first: seq<Entry>, left: seq<Entry>)
    requires Kept(before + es, best) == first + left
    ensures Kept(before + (es + [e]), best) == first + (left + if Keeps(best, e, |before| + |es|) then [e] else [])
  {
    KeptSnoc(before + es, e, best);
    assert before + (es + [e]) == (before + es) + [e];
  }

  /** Dropping a declarator drops its entry. */
  lemma {:induction false} LastKept(i: TuItem, ds: seq<Declarator>, best: map<Name, Best>, id: nat)
    requires i.Declaration? && ds != []
    ensures var front, d := ds[..|ds| - 1], ds[|ds| - 1];
            var e := Entry(d.name, DeclaratorKind(i, d));
            DeclaratorEntries(i, KeptDeclarators(i, ds, best, id))
            == DeclaratorEntries(i, KeptDeclarators(i, front, best, id)) + if Keeps(best, e, id + |front|) then [e] else []
  {
    var front, d := ds[..|ds| - 1], ds[|ds| - 1];
    var left := KeptDeclarators(i, front, best, id);
    DeclaratorsSnoc(i, left, d);
    assert left + [] == left;
  }

  lemma {:induction false} DeclaratorsKept(before: seq<Entry>, i: TuItem, ds: seq<Declarator>, best: map<Name, Best>)
    requires i.Declaration?
    ensures Kept(before + DeclaratorEntries(i, ds), best)
            == Kept(before, best) + DeclaratorEntries(i, KeptDeclarators(i, ds, best, |before|))
    decreases |ds|
  {
    if ds == [] {
      assert before + DeclaratorEntries(i, ds) == before;
    } else {
      var front, d := ds[..|ds| - 1], ds[|ds| - 1];
      DeclaratorsKept(before, i, front, best);
      DeclaratorCount(i, front);
      LastKept(i, ds, best, |before|);
      KeptMore(before, DeclaratorEntries(i, front), Entry(d.name, DeclaratorKind(i, d)), best,
               Kept(before, best), DeclaratorEntries(i, KeptDeclarators(i, front, best, |before|)));
    }
  }

  /** The pass over items keeps exactly the entries its numbers select. */
  lemma {:induction false} ItemsKept(items: seq<TuItem>, best: map<Name, Best>)
    ensures Entries(KeptItems(items, best)) == Kept(Entries(items), best)
    decreases |items|
  {
    if items != [] {
      var front, i := items[..|items| - 1], items[|items| - 1];
      ItemsKept(front, best);
      var before := Entries(front);
      var kept := KeptItems(front, best);
      ItemKept(before, i, best);
      EntriesMore(kept, KeptItem(i, best, |before|));
    }
  }

  lemma {:induction false} EntriesSnoc(kept: seq<TuItem>, i: TuItem)
    ensures Entries(kept + [i]) == Entries(kept) + ItemEntries(i)
  {
    assert (kept + [i])[..|kept|] == kept;
  }

  lemma {:induction false} EntriesMore(kept: seq<TuItem>, more: seq<TuItem>)
    requires |more| <= 1
    ensures Entries(kept + more) == Entries(kept) + Entries(more)
  {
    if more == [] {
      assert kept + more == kept;
    } else {
      EntriesSnoc(kept, more[0]);
      EntriesOfOne(more[0]);
      assert more == [more[0]];
    }
  }

  lemma ItemKept(before: seq<Entry>, i: TuItem, best: map<Name, Best>)
    ensures Kept(before + ItemEntries(i), best) == Kept(before, best) + Entries(KeptItem(i, best, |before|))
  {
    EntriesOfOne(i);
    match i {
      case Function(name, isRust) =>
        KeptSnoc(before, Entry(name, FunctionKind(isRust)), best);
      case RustType(name, isStruct) =>
        KeptSnoc(before, Entry(name, RustTypeKind(isStruct)), best);
      case Declaration(_, _, _, ds) =>
        DeclaratorsKept(before, i, ds, best);
        var left := i.(declarators := KeptDeclarators(i, ds, best, |before|));
        SameDeclaratorKinds(i, left, left.declarators);
        EntriesOfOne(left);
      case OtherItem =>
        assert before + [] == before;
    }
  }

  lemma EntriesOfOne(i: TuItem)
    ensures Entries([i]) == ItemEntries(i)
  {
    assert [i][..0] == [];
  }

  lemma {:induction false} SameDeclaratorKinds(i: TuItem, j: TuItem, ds: seq<Declarator>)
    requires i.Declaration? && j.Declaration? && j == i.(declarators := j.declarators)
    ensures DeclaratorEntries(i, ds) == DeclaratorEntries(j, ds)
    decreases |ds|
  {
    if ds != [] { SameDeclaratorKinds(i, j, ds[..|ds| - 1]); }
  }

  // ---- what is left of an error-free unit ----

  lemma {:induction false} StaysClean(entries: seq<Entry>, n: nat)
    requires n <= |entries| && CountAll(entries).clean
    ensures CountAll(entries[..n]).clean
    decreases |entries|
  {
    if n < |entries| {
      assert entries[..|entries| - 1][..n] == entries[..n];
      StaysClean(entries[..|entries| - 1], n);
    } else {
      assert entries[..n] == entries;
    }
  }

  lemma RustTypesLast(a: Kind, b: Kind)
    requires Weight(a) <= Weight(b) && !IsRustType(b)
    ensures !IsRustType(a)
  {
  }

  /** In an error-free unit a Rust type shares its name with nothing before it. */
  lemma RustTypeAlone(entries: seq<Entry>, j: nat, k: nat)
    requires CountAll(entries).clean && j < k < |entries| && entries[j].name == entries[k].name
    ensures !IsRustType(entries[k].kind) && !IsRustType(entries[j].kind)
  {
    var upTo, before := entries[..k + 1], entries[..k];
    StaysClean(entries, k + 1);
    assert upTo[..k] == before;
    CleanCount(upTo);
    CountsForemost(before, entries[k].name);
    assert before[j].name == entries[k].name;
    assert Occurs(before, entries[k].name);
    var top := CountAll(before).best[entries[k].name];
    RustTypesNeverMerge(top.kind, entries[k].kind);
    RustTypesLast(before[j].kind, top.kind);
  }

  /** Kept entries are exactly the foremost ones. */
  lemma KeepsForemost(entries: seq<Entry>, id: nat)
    requires CountAll(entries).clean && id < |entries|
    ensures Keeps(CountAll(entries).best, entries[id], id) <==> Foremost(entries, id)
  {
    var e := entries[id];
    CountsForemost(entries, e.name);
    if IsRustType(e.kind) {
      forall k | 0 <= k < |entries| && entries[k].name == e.name
        ensures k == id
      {
        if k < id { RustTypeAlone(entries, k, id); }
        if id < k { RustTypeAlone(entries, id, k); }
      }
    }
  }

  lemma KeptIdsForemost(entries: seq<Entry>, id: nat)
    requires CountAll(entries).clean
    ensures id in KeptIds(entries, CountAll(entries).best, |entries|) <==> Foremost(entries, id)
  {
    KeptIdsMeaning(entries, CountAll(entries).best, |entries|);
    if id < |entries| { KeepsForemost(entries, id); }
  }

  /** The numbers left are exactly those of the foremost entries, in order, one for each name. */
  lemma KeptOnce(entries: seq<Entry>)
    requires CountAll(entries).clean
    ensures var ids := KeptIds(entries, CountAll(entries).best, |entries|);
            && (forall k :: 0 <= k < |ids| ==> ids[k] < |entries|)
            && (forall id: nat :: id in ids <==> Foremost(entries, id))
            && (forall j, k :: 0 <= j < k < |ids| ==> ids[j] < ids[k] && entries[ids[j]].name != entries[ids[k]].name)
  {
    var ids := KeptIds(entries, CountAll(entries).best, |entries|);
    KeptIdsMeaning(entries, CountAll(entries).best, |entries|);
    forall id: nat
      ensures id in ids <==> Foremost(entries, id)
    {
      KeptIdsForemost(entries, id);
    }
    assert forall k :: 0 <= k < |ids| ==> ids[k] in ids;
  }

  /** After an error-free run every declared name is left exactly once, as the first of its most important
      entries, and what is left is in its original order. */
  lemma Deduplicated(items: seq<TuItem>)
    requires EachMerges(Entries(items))
    ensures var entries, best := Entries(items), CountAll(Entries(items)).best;
            var ids := KeptIds(entries, best, |entries|);
            && (forall k :: 0 <= k < |ids| ==> ids[k] < |entries|)
            && Entries(KeptItems(items, best)) == Pick(entries, ids)
            && (forall id: nat :: id in ids <==> Foremost(entries, id))
            && (forall j, k :: 0 <= j < k < |ids| ==> ids[j] < ids[k] && entries[ids[j]].name != entries[ids[k]].name)
            && (forall k :: 0 <= k < |entries| ==> entries[k].name in best && best[entries[k].name].id in ids)
            && (forall name :: name in best ==> best[name].id < |entries| && entries[best[name].id].name == name)
  {
    var entries, best := Entries(items), CountAll(Entries(items)).best;
    CleanExactly(entries);
    ItemsKept(items, best);
    KeptOnce(entries);
    forall k | 0 <= k < |entries|
      ensures entries[k].name in best && Foremost(entries, best[entries[k].name].id)
    {
      CountsForemost(entries, entries[k].name);
    }
    forall name | name in best
      ensures best[name].id < |entries| && entries[best[name].id].name == name
    {
      CountsForemost(entries, name);
    }
  }

  // ---- the two passes as they run ----

  /** What the first pass knows after these entries. */
  ghost predicate Counted(entries: seq<Entry>, best: map<Name, Best>, errors: seq<Name>, id: nat) {
    CountAll(entries) == Tally(best, errors == []) && id == |entries| && errors == ClashList(entries)
  }

  method CountEntry(best: map<Name, Best>, errors: seq<Name>, id: nat, name: Name, kind: Kind, ghost entries: seq<Entry>)
    returns (best': map<Name, Best>, errors': seq<Name>)
    requires Counted(entries, best, errors, id)
    ensures Counted(entries + [Entry(name, kind)], best', errors', id + 1)
  {
    best', errors' := best, errors;
    ClashesStep(entries, Entry(name, kind));
    assert (entries + [Entry(name, kind)])[..|entries|] == entries;
    if name in best {
      var old' := best[name];
      if !Mergeable(old'.kind, kind) {
        errors' := errors' + [name];
      }
      if !IsRustType(kind) && Weight(kind) > Weight(old'.kind) {
        best' := best'[name := Best(id, kind)];
      }
    } else {
      best' := best'[name := Best(id, kind)];
    }
  }

  method CountDeclarators(i: TuItem, best: map<Name, Best>, errors: seq<Name>, id: nat, ghost before: seq<Entry>)
    returns (best': map<Name, Best>, errors': seq<Name>, id': nat)
    requires i.Declaration? && Counted(before, best, errors, id)
    ensures Counted(before + ItemEntries(i), best', errors', id')
  {
    best', errors', id' := best, errors, id;
    var ds := i.declarators;
    ghost var sofar := before;
    for k := 0 to |ds|
      invariant sofar == before + DeclaratorEntries(i, ds[..k])
      invariant Counted(sofar, best', errors', id')
    {
      assert ds[..k + 1][..k] == ds[..k];
      best', errors' := CountEntry(best', errors', id', ds[k].name, DeclaratorKind(i, ds[k]), sofar);
      id' := id' + 1;
      sofar := sofar + [Entry(ds[k].name, DeclaratorKind(i, ds[k]))];
    }
    assert ds[..|ds|] == ds;
  }

  /** Finds the most important entry of each name; every entry it meets takes the next number. */
  method FirstPass(items: seq<TuItem>) returns (best: map<Name, Best>, errors: seq<Name>)
    ensures CountAll(Entries(items)) == Tally(best, errors == [])
    ensures errors == [] <==> EachMerges(Entries(items))
    ensures errors == ClashList(Entries(items))
  {
    best, errors := map[], [];
    var tuItemId: nat := 0;
    ghost var before: seq<Entry> := [];
    for n := 0 to |items|
      invariant before == Entries(items[..n])
      invariant Counted(before, best, errors, tuItemId)
    {
      assert items[..n + 1][..n] == items[..n];
      assert Entries(items[..n + 1]) == before + ItemEntries(items[n]);
      match items[n] {
        case Function(name, isRust) =>
          best, errors := CountEntry(best, errors, tuItemId, name, FunctionKind(isRust), before);
          tuItemId := tuItemId + 1;
        case RustType(name, isStruct) =>
          best, errors := CountEntry(best, errors, tuItemId, name, RustTypeKind(isStruct), before);
          tuItemId := tuItemId + 1;
        case Declaration(_, _, _, _) =>
          best, errors, tuItemId := CountDeclarators(items[n], best, errors, tuItemId, before);
        case OtherItem =>
          assert before + [] == before;
      }
      before := before + ItemEntries(items[n]);
    }
    assert items[..|items|] == items;
    CleanExactly(before);
  }

  method KeepDeclarators(i: TuItem, best: map<Name, Best>, id: nat) returns (left: seq<Declarator>, id': nat)
    requires i.Declaration?
    ensures left == KeptDeclarators(i, i.declarators, best, id) && id' == id + |i.declarators|
  {
    left, id' := [], id;
    var ds := i.declarators;
    for k := 0 to |ds|
      invariant id' == id + k && left == KeptDeclarators(i, ds[..k], best, id)
    {
      assert ds[..k + 1][..k] == ds[..k];
      var isNeeded := ds[k].name in best && best[ds[k].name].id == id';
      id' := id' + 1;
      if isNeeded { left := left + [ds[k]]; }
    }
    assert ds[..|ds|] == ds;
  }

  /** Drops everything but the most important entries, numbering from zero again. */
  method SecondPass(items: seq<TuItem>, best: map<Name, Best>) returns (kept: seq<TuItem>)
    ensures kept == KeptItems(items, best)
  {
    kept := [];
    var tuItemId: nat := 0;
    for n := 0 to |items|
      invariant kept == KeptItems(items[..n], best) && tuItemId == |Entries(items[..n])|
    {
      assert items[..n + 1][..n] == items[..n];
      match items[n] {
        case Function(name, _) =>
          var isNeeded := name in best && best[name].id == tuItemId;
          tuItemId := tuItemId + 1;
          if isNeeded { kept := kept + [items[n]]; }
        case RustType(_, _) =>
          tuItemId := tuItemId + 1;
          kept := kept + [items[n]];
        case Declaration(_, _, _, ds) =>
          DeclaratorCount(items[n], ds);
          var left;
          left, tuItemId := KeepDeclarators(items[n], best, tuItemId);
          kept := kept + [items[n].(declarators := left)];
        case OtherItem => kept := kept + [items[n]];
      }
    }
    assert items[..|items|] == items;
  }

  /** `deduplicate_tu_items`: the name of every clashing entry, in order, or the deduplicated items. */
  method Deduplicate(items: seq<TuItem>) returns (kept: Option<seq<TuItem>>, errors: seq<Name>)
    ensures errors == ClashList(Entries(items))
    ensures errors == [] <==> EachMerges(Entries(items))
    ensures kept == if errors == [] then Some(KeptItems(items, CountAll(Entries(items)).best)) else None
  {
    var best;
    best, errors := FirstPass(items);
    var left := SecondPass(items, best);
    kept := if errors == [] then Some(left) else None;
  }
}
