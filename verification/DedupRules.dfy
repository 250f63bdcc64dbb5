/** Which declarations of a name merge, and which of them is left: the rules behind the weights and tables of `Dedup`. */
module DedupRules {
  import opened Dedup

  // ---- what a declaration says of its name ----

  predicate IsFunction(k: Kind) {
    k.ExternFunction? || k.FunctionDeclaration? || k.FunctionDefinition?
  }

  predicate IsVariable(k: Kind) {
    k.ExternVarDecl? || k.StaticUninit? || k.StaticUninitUnsized? || k.StaticInitialized?
  }

  /** Declared through a typedef name, so it may turn out either. */
  predicate IsEither(k: Kind) {
    k.ExternVarDeclOrFuncDecl? || k.StaticUninitOrFuncDecl?
  }

  /** The kind of a declared name, told by the declaration. */
  lemma KindMeaning(i: TuItem, d: Declarator)
    requires i.Declaration?
    ensures var k := DeclaratorKind(i, d);
            && (k.Typedef? <==> i.isTypedef)
            && (IsFunction(k) <==> !i.isTypedef && d.isFunction) && !k.FunctionDefinition?
            && (IsEither(k) <==> !i.isTypedef && !d.isFunction && !d.hasInitializer && i.usesTypedefName)
            && (k.StaticInitialized? <==> !i.isTypedef && !d.isFunction && d.hasInitializer)
            && (k.ExternFunction? || k.ExternVarDecl? || k.ExternVarDeclOrFuncDecl?
                <==> i.isExtern && !i.isTypedef && (d.isFunction || !d.hasInitializer))
            && (k.StaticUninitUnsized? ==> d.isUnsizedArray) && (k.StaticUninit? ==> !d.isUnsizedArray)
            && !IsRustType(k) && !k.RustFunctionDefinition?
  {
  }

  // ---- merging ----

  /** Typedefs merge with typedefs; functions with functions unless both are definitions; variables with variables unless
      both are initialized; a name of either sort with its own sort and with any of these, save an `extern` function and a
      tentative definition. Rust items merge with nothing. */
  lemma MergeRules(a: Kind, b: Kind)
    ensures Mergeable(a, b) <==>
            || (a.Typedef? && b.Typedef?)
            || (IsFunction(a) && IsFunction(b) && !(a.FunctionDefinition? && b.FunctionDefinition?))
            || (IsVariable(a) && IsVariable(b) && !(a.StaticInitialized? && b.StaticInitialized?))
            || (IsEither(a) && IsEither(b))
            || (IsEither(a) && (IsFunction(b) || IsVariable(b)) && !b.ExternFunction? && !b.StaticUninit?)
            || (IsEither(b) && (IsFunction(a) || IsVariable(a)) && !a.ExternFunction? && !a.StaticUninit?)
  {
  }

  // ---- which one is left ----

  /** Entry `k` is the one left of its name in an error-free unit. */
  ghost predicate Left(entries: seq<Entry>, k: nat, name: Name) {
    Foremost(entries, k) && entries[k].name == name
  }

  /** A less important kind that may stand beside `top`: of its sort, or of either. */
  predicate Akin(k: Kind, top: Kind) {
    k == top || IsEither(k) || (IsFunction(k) && IsFunction(top)) || (IsVariable(k) && IsVariable(top))
  }

  lemma AkinStep(k: Kind, top: Kind, e: Kind)
    requires Mergeable(top, e)
    ensures Weight(e) <= Weight(top) ==> Akin(e, top)
    ensures Weight(e) > Weight(top) && Akin(k, top) ==> Akin(k, e)
  {
  }

  /** In an error-free unit the best entry of a name is of the sort of all the others. */
  lemma {:induction false} SameSort(entries: seq<Entry>, i: nat)
    requires CountAll(entries).clean && i < |entries|
    ensures var best := CountAll(entries).best;
            && entries[i].name in best && Akin(entries[i].kind, best[entries[i].name].kind)
            && Weight(entries[i].kind) <= Weight(best[entries[i].name].kind)
    decreases |entries|
  {
    var front, e, name := entries[..|entries| - 1], entries[|entries| - 1], entries[i].name;
    CleanCount(entries);
    if i < |front| {
      SameSort(front, i);
      if e.name == name { AkinStep(entries[i].kind, CountAll(front).best[name].kind, e.kind); }
    } else if name in CountAll(front).best {
      AkinStep(e.kind, CountAll(front).best[name].kind, e.kind);
    }
  }

  predicate Defines(k: Kind) {
    k.StaticInitialized? || k.FunctionDefinition?
  }

  /** Only a definition of the same sort can stand above a definition. */
  lemma DefinitionOnTop(k: Kind, top: Kind)
    requires Defines(k) && Akin(k, top) && Weight(k) <= Weight(top)
    ensures top == k && !Mergeable(top, StaticInitialized) && !Mergeable(top, FunctionDefinition)
  {
  }

  /** An error-free unit defines a name at most once. */
  lemma DefinedOnce(entries: seq<Entry>, i: nat, j: nat)
    requires CountAll(entries).clean && i < j < |entries| && entries[i].name == entries[j].name
    ensures !(Defines(entries[i].kind) && Defines(entries[j].kind))
  {
    var upTo, before := entries[..j + 1], entries[..j];
    StaysClean(entries, j + 1);
    assert upTo[..j] == before;
    CleanCount(upTo);
    SameSort(before, i);
    if Defines(entries[i].kind) { DefinitionOnTop(entries[i].kind, CountAll(before).best[entries[i].name].kind); }
  }

  /** The definition of a name outlives its declarations, and all of these are of its sort, or of either. */
  lemma DefinitionOutlives(entries: seq<Entry>, j: nat)
    requires EachMerges(entries) && j < |entries| && Defines(entries[j].kind)
    ensures Left(entries, j, entries[j].name)
    ensures forall i: nat :: i < |entries| && i != j && entries[i].name == entries[j].name
                             ==> !Defines(entries[i].kind) && Akin(entries[i].kind, entries[j].kind)
  {
    var name := entries[j].name;
    CleanExactly(entries);
    SameSort(entries, j);
    CountsForemost(entries, name);
    var top := CountAll(entries).best[name];
    DefinitionOnTop(entries[j].kind, top.kind);
    if top.id < j { DefinedOnce(entries, top.id, j); }
    if j < top.id { DefinedOnce(entries, j, top.id); }
    forall i: nat | i < |entries| && i != j && entries[i].name == name
      ensures !Defines(entries[i].kind) && Akin(entries[i].kind, entries[j].kind)
    {
      SameSort(entries, i);
      DefinedOnce(entries, if i < j then i else j, if i < j then j else i);
    }
  }

  /** Without a definition, a function declaration outlives `extern` ones; a tentative variable of known size outlives
      those of unknown size, these `extern` ones; and any of them a declaration through a typedef name. */
  lemma DeclarationOutlives(entries: seq<Entry>, i: nat, k: nat)
    requires EachMerges(entries) && i < |entries| && Left(entries, k, entries[i].name)
    ensures var was, left := entries[i].kind, entries[k].kind;
            && (was.FunctionDeclaration? ==> left.FunctionDeclaration? || left.FunctionDefinition?)
            && (was.ExternFunction? ==> IsFunction(left))
            && (was.StaticUninit? ==> left.StaticUninit? || left.StaticInitialized?)
            && (was.StaticUninitUnsized? ==> IsVariable(left) && !left.ExternVarDecl?)
            && (was.ExternVarDecl? ==> IsVariable(left))
            && (was.StaticUninitOrFuncDecl? ==> !left.ExternVarDeclOrFuncDecl?)
  {
    CleanExactly(entries);
    SameSort(entries, i);
    CountsForemost(entries, entries[i].name);
    var top := CountAll(entries).best[entries[i].name];
    assert Weight(top.kind) == Weight(entries[k].kind);
    SameWeight(top.kind, entries[k].kind);
  }

  lemma SameWeight(a: Kind, b: Kind)
    requires Weight(a) == Weight(b)
    ensures a == b
  {
  }
}
