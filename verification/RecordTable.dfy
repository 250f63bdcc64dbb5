/** What the table of logical fields lists: the named members of the record, whatever happens to their storage. */
module RecordTable {
  import opened CTypes
  import opened Bitfields

  /** A field as it was declared; plain members have no width. */
  datatype Entry = Entry(name: string, ty: Ty, width: Option<nat>, isSigned: bool)

  function EntryOf(f: LogicalField): Entry {
    match f.kind
    case Direct(_) => Entry(f.name, f.ty, None, false)
    case Bitfield(_, _, _, width, isSigned) => Entry(f.name, f.ty, Some(width), isSigned)
  }

  function TableOf(logical: seq<LogicalField>): seq<Entry> {
    seq(|logical|, k requires 0 <= k < |logical| => EntryOf(logical[k]))
  }

  /** What one member adds: an unnamed bit-field adds nothing. */
  function Declares(m: Member): seq<Entry> {
    if m.width.None? then [Entry(m.name, m.ty, None, false)]
    else if m.name == "" || m.width.value <= 0 then []
    else [Entry(m.name, m.ty, Some(m.width.value), Signed(m.ty))]
  }

  /** Whether a bit-field of this declared type reads back as a signed value. */
  predicate Signed(ty: Ty) {
    match ty
    case Int(_) => true
    case Alias(target) => Signed(target)
    case _ => false
  }

  /** The named members, in order. */
  function Declared(members: seq<Member>): seq<Entry> {
    if members == [] then [] else Declared(members[..|members| - 1]) + Declares(members[|members| - 1])
  }

  /** A bit-field's storage is unsigned and as wide as its declared type, which has to be an integer, `bool`,
      `char` or enum; the sign is the declared type's. */
  lemma {:induction false} StorageMatches(ty: Ty)
    ensures StorageTy(ty).Some? ==>
              && StorageTy(ty).value.1 == Signed(ty)
              && BitLayout(ty) == Some((StorageTy(ty).value.2, StorageTy(ty).value.2))
    ensures StorageTy(ty).None? ==> match ty
                                    case Alias(target) => StorageTy(target).None?
                                    case _ => !ty.Bool? && !ty.Char? && !ty.Int? && !ty.Uint? && !ty.Enum?
  {
    if ty.Alias? { StorageMatches(ty.target); }
  }

  lemma TableMore(logical: seq<LogicalField>, f: LogicalField)
    ensures TableOf(logical + [f]) == TableOf(logical) + [EntryOf(f)]
  {
  }

  lemma RetypeTable(logical: seq<LogicalField>, from: nat, index: nat, ty: Ty)
    ensures TableOf(Retype(logical, from, index, ty)) == TableOf(logical)
  {
  }

  lemma CloseTable(st: Layout)
    requires st.open.Some? ==> st.open.value.index < |st.emitted|
    ensures TableOf(CloseUnit(st).logical) == TableOf(st.logical)
  {
    if st.open.Some? { ShrinkTable(st.(open := None), st.open.value, Since(st.absBit, st.open.value.start)); }
  }

  lemma ShrinkTable(st: Layout, open: OpenStorage, used: nat)
    requires open.index < |st.emitted|
    ensures TableOf(Shrink(st, open, used).logical) == TableOf(st.logical)
  {
    var needed := SmallestUint(used);
    if used < open.bits && needed.Some? && needed.value < open.bits {
      RetypeTable(st.logical, 0, open.index, UnsignedTy(needed.value));
    }
  }

  lemma EnsureTable(st: Layout, ty: Ty, unit: nat, width: nat, at: nat)
    requires unit > 0
    requires st.open.Some? ==> st.open.value.start <= at && st.open.value.index < |st.emitted|
    ensures TableOf(Ensure(st, ty, unit, width, at).0.logical) == TableOf(st.logical)
  {
    if st.open.Some? && Growth(st.open.value, width, at).Some? {
      var open := st.open.value;
      RetypeTable(st.logical, open.firstLogical, open.index, UnsignedTy(Growth(open, width, at).value));
    }
  }

  lemma EnterTable(st: Layout, name: string, ty: Ty, unit: nat, storageTy: Ty, index: nat, offset: nat, width: nat, isSigned: bool)
    ensures TableOf(Enter(st, name, ty, unit, storageTy, index, offset, width, isSigned).logical)
         == TableOf(st.logical) + if name == "" then [] else [Entry(name, ty, Some(width), isSigned)]
  {
    if name != "" {
      var actual := if st.open.Some? then st.open.value.ty else storageTy;
      TableMore(st.logical, LogicalField(name, ty, Bitfield(index, actual, offset, width, isSigned)));
    }
  }

  /** Each member adds its own entry and leaves the others as declared. */
  lemma AddOneTable(st: Layout, kind: RecordKind, m: Member)
    requires Validate(m, kind, true).Ok?
    requires st.open.Some? ==> st.open.value.start <= st.absBit && st.open.value.index < |st.emitted|
    ensures TableOf(AddOne(st, kind, m).logical) == TableOf(st.logical) + Declares(m)
  {
    if m.width.None? {
      CloseTable(st);
      TableMore(CloseUnit(st).logical, LogicalField(m.name, m.ty, Direct(|CloseUnit(st).emitted|)));
    } else if m.width.value > 0 {
      StorageMatches(m.ty);
      if kind == Union { UnionTable(st, m); } else { StructTable(st, m); }
    }
  }

  lemma UnionTable(st: Layout, m: Member)
    requires m.width.Some? && m.width.value > 0 && StorageTy(m.ty).Some? && StorageTy(m.ty).value.1 == Signed(m.ty)
    ensures TableOf(PlaceInUnion(st, m.name, m.ty, StorageTy(m.ty).value, m.width.value).logical) == TableOf(st.logical) + Declares(m)
  {
    var (storageTy, isSigned, unit) := StorageTy(m.ty).value;
    var placed := st.(absBit := 0, emitted := st.emitted + [StructField(Storage(|st.emitted|), storageTy)]);
    EnterTable(placed, m.name, m.ty, unit, storageTy, |st.emitted|, 0, m.width.value, isSigned);
  }

  lemma StructTable(st: Layout, m: Member)
    requires m.width.Some? && m.width.value > 0 && StorageTy(m.ty).Some? && StorageTy(m.ty).value.1 == Signed(m.ty)
    requires st.open.Some? ==> st.open.value.start <= st.absBit && st.open.value.index < |st.emitted|
    ensures TableOf(PlaceInStruct(st, m.name, m.ty, StorageTy(m.ty).value, m.width.value).logical) == TableOf(st.logical) + Declares(m)
  {
    var (storageTy, isSigned, unit) := StorageTy(m.ty).value;
    RoundUpBounds(st.absBit, unit);
    var at := Candidate(st, unit, m.width.value);
    var (placed, index, offset) := Ensure(st, storageTy, unit, m.width.value, at);
    EnsureTable(st, storageTy, unit, m.width.value, at);
    EnterTable(placed.(absBit := at + m.width.value), m.name, m.ty, unit, storageTy, index, offset, m.width.value, isSigned);
  }

  /** Finishing the record changes no entry. */
  lemma FinishTable(st: Layout, kind: RecordKind)
    requires st.open.Some? ==> st.open.value.index < |st.emitted|
    ensures TableOf(Finish(st, kind).logical) == TableOf(st.logical)
  {
    var padded := PadTrailing(st, kind);
    if st.open.Some? {
      ShrinkTable(padded.(open := None), st.open.value, Since(padded.absBit, st.open.value.start));
    }
  }
}
