/** What every step of bit-field allocation keeps, and what it adds up to for a whole record. */
module BitfieldSafety {
  import opened CTypes
  import opened Bitfields
  import opened RecordTable

  /** Bits of the storage a bit-field is recorded to live in. */
  function StorageBits(f: LogicalField): nat
    requires f.kind.Bitfield? && f.kind.storageTy.Uint?
  {
    IntBits(f.kind.storageTy.uw)
  }

  /** The table agrees with the emitted field, and the bit-field lies within it. */
  ghost predicate Housed(emitted: seq<StructField>, f: LogicalField) {
    match f.kind
    case Direct(i) => i < |emitted| && emitted[i].ty == f.ty
    case Bitfield(i, ty, offset, width, _) =>
      i < |emitted| && emitted[i].ty == ty && ty.Uint? && 0 < width && offset + width <= IntBits(ty.uw)
  }

  /** Two fields in declaration order: an earlier storage, or earlier bits of the same one. */
  ghost predicate Ordered(f: LogicalField, g: LogicalField) {
    || Slot(f) < Slot(g)
    || (Slot(f) == Slot(g) && f.kind.Bitfield? && g.kind.Bitfield?
        && f.kind.bitOffset + f.kind.bitWidth <= g.kind.bitOffset)
  }

  /** No two fields share bits of one storage, and the table never drifts from the emitted fields. */
  ghost predicate Safe(emitted: seq<StructField>, logical: seq<LogicalField>) {
    && (forall k :: 0 <= k < |logical| ==> Housed(emitted, logical[k]))
    && (forall j, k :: 0 <= j < k < |logical| ==> Ordered(logical[j], logical[k]))
  }

  /** The open unit's own bits end at the cursor, and its fields are the last ones entered. */
  ghost predicate OpenOk(st: Layout, open: OpenStorage) {
    && open.index < |st.emitted| && st.emitted[open.index].ty == open.ty
    && open.ty.Uint? && UnitBits(open.bits) && IntBits(open.ty.uw) == open.bits
    && open.start <= st.absBit
    && open.firstLogical <= |st.logical|
    && (forall k :: 0 <= k < |st.logical| ==> Slot(st.logical[k]) <= open.index)
    && (forall k :: 0 <= k < |st.logical| && Slot(st.logical[k]) == open.index ==> InOpen(st, open, k))
  }

  ghost predicate InOpen(st: Layout, open: OpenStorage, k: nat)
    requires k < |st.logical|
  {
    && k >= open.firstLogical && st.logical[k].kind.Bitfield?
    && st.logical[k].name != ""
    && st.logical[k].kind.bitOffset + st.logical[k].kind.bitWidth <= Since(st.absBit, open.start)
  }

  ghost predicate Inv(st: Layout) {
    Safe(st.emitted, st.logical) && UnitBits(st.maxAlign) && (st.open.Some? ==> OpenOk(st, st.open.value))
  }

  // ---- the steps keep it ----

  lemma RetypeSafe(st: Layout, from: nat, index: nat, ty: Ty)
    requires Safe(st.emitted, st.logical) && index < |st.emitted| && ty.Uint?
    requires forall k :: 0 <= k < |st.logical| && Slot(st.logical[k]) == index
                         ==> k >= from && st.logical[k].kind.Bitfield?
                             && st.logical[k].kind.bitOffset + st.logical[k].kind.bitWidth <= IntBits(ty.uw)
    ensures Safe(st.emitted[index := st.emitted[index].(ty := ty)], Retype(st.logical, from, index, ty))
    ensures forall k :: 0 <= k < |st.logical| ==> var a, b := st.logical[k], Retype(st.logical, from, index, ty)[k];
                                                  Slot(a) == Slot(b) && a.name == b.name && a.kind.Bitfield? == b.kind.Bitfield?
                                                  && (a.kind.Bitfield? ==> a.kind.bitOffset == b.kind.bitOffset && a.kind.bitWidth == b.kind.bitWidth)
  {
    var emitted, logical := st.emitted[index := st.emitted[index].(ty := ty)], Retype(st.logical, from, index, ty);
    forall k | 0 <= k < |logical|
      ensures Housed(emitted, logical[k])
    {
      assert Housed(st.emitted, st.logical[k]);
    }
    forall j, k | 0 <= j < k < |logical|
      ensures Ordered(logical[j], logical[k])
    {
      assert Ordered(st.logical[j], st.logical[k]);
    }
  }

  lemma MoreEmitted(emitted: seq<StructField>, logical: seq<LogicalField>, f: StructField)
    requires Safe(emitted, logical)
    ensures Safe(emitted + [f], logical)
    ensures forall k :: 0 <= k < |logical| ==> Slot(logical[k]) < |emitted|
  {
    forall k | 0 <= k < |logical|
      ensures Housed(emitted + [f], logical[k]) && Slot(logical[k]) < |emitted|
    {
      assert Housed(emitted, logical[k]);
    }
  }

  /** Entering one more field after all the others. */
  lemma Entered(emitted: seq<StructField>, logical: seq<LogicalField>, f: LogicalField)
    requires Safe(emitted, logical) && Housed(emitted, f)
    requires forall k :: 0 <= k < |logical| ==> Ordered(logical[k], f)
    ensures Safe(emitted, logical + [f])
  {
  }

  lemma OpenUnitInv(st: Layout, ty: Ty, unit: nat, at: nat)
    requires Inv(st) && ty.Uint? && IntBits(ty.uw) == unit && UnitBits(unit)
    ensures var r := OpenUnit(st, ty, unit, at).(absBit := at); Inv(r) && r.open.Some? && r.open.value.start == at
    ensures forall k :: 0 <= k < |st.logical| ==> Slot(st.logical[k]) < |st.emitted|
  {
    MoreEmitted(st.emitted, st.logical, StructField(Storage(|st.emitted|), ty));
  }

  lemma GrowUnitInv(st: Layout, needed: nat)
    requires Inv(st) && st.open.Some? && UnitBits(needed) && needed >= st.open.value.bits
    ensures Inv(GrowUnit(st, needed))
  {
    var open := st.open.value;
    var ty := UnsignedTy(needed);
    forall k | 0 <= k < |st.logical| && Slot(st.logical[k]) == open.index
      ensures st.logical[k].kind.bitOffset + st.logical[k].kind.bitWidth <= needed
      ensures InOpen(st, open, k)
    {
      assert Housed(st.emitted, st.logical[k]);
    }
    RetypeSafe(st, open.firstLogical, open.index, ty);
    var r := GrowUnit(st, needed);
    forall k | 0 <= k < |r.logical| && Slot(r.logical[k]) == open.index
      ensures InOpen(r, r.open.value, k)
    {
      assert InOpen(st, open, k);
    }
  }

  lemma AheadInv(st: Layout, at: nat)
    requires Inv(st) && st.absBit <= at
    ensures Inv(st.(absBit := at))
  {
    var moved := st.(absBit := at);
    if st.open.Some? {
      var open := st.open.value;
      forall k | 0 <= k < |st.logical| && Slot(st.logical[k]) == open.index
        ensures InOpen(moved, open, k)
      {
        assert InOpen(st, open, k);
      }
    }
  }

  /** `r`'s open unit has room for `width` bits at `at`, which is `offset` bits into it. */
  ghost predicate HasRoom(r: Layout, at: nat, index: nat, offset: nat, width: nat) {
    && Inv(r.(absBit := at)) && r.open.Some? && r.open.value.index == index
    && r.open.value.start <= at && offset == at - r.open.value.start && offset + width <= r.open.value.bits
  }

  lemma GrowthFits(open: OpenStorage, width: nat, at: nat)
    requires open.start <= at && Growth(open, width, at).Some?
    ensures var needed := Growth(open, width, at).value;
            UnitBits(needed) && needed >= open.bits && at - open.start + width <= needed
  {
  }

  lemma GrownHasRoom(st: Layout, needed: nat, at: nat, width: nat)
    requires Inv(st) && st.open.Some? && UnitBits(needed) && needed >= st.open.value.bits && st.absBit <= at
    requires at - st.open.value.start + width <= needed
    ensures var r := GrowUnit(st, needed);
            HasRoom(r, at, st.open.value.index, at - st.open.value.start, width) && |r.logical| == |st.logical|
  {
    var moved := st.(absBit := at);
    AheadInv(st, at);
    GrowUnitInv(moved, needed);
    assert GrowUnit(st, needed).(absBit := at) == GrowUnit(moved, needed);
  }

  /** Where a bit-field ends up: its unit has room for it at the returned offset, past everything already there. */
  lemma EnsureInv(st: Layout, ty: Ty, unit: nat, width: nat, at: nat)
    requires Inv(st) && ty.Uint? && IntBits(ty.uw) == unit && UnitBits(unit) && 0 < width <= unit && st.absBit <= at
    ensures var (r, index, offset) := Ensure(st, ty, unit, width, at);
            HasRoom(r, at, index, offset, width) && r.maxAlign == st.maxAlign && |r.logical| == |st.logical|
  {
    OpenUnitInv(st, ty, unit, at);
    if st.open.Some? {
      var open := st.open.value;
      if at - open.start + width <= open.bits {
        AheadInv(st, at);
      } else if Growth(open, width, at).Some? {
        GrowthFits(open, width, at);
        GrownHasRoom(st, Growth(open, width, at).value, at, width);
      }
    }
  }

  lemma CandidateAhead(st: Layout, unit: nat, width: nat)
    requires unit > 0 && width > 0
    ensures st.absBit <= Candidate(st, unit, width)
  {
    RoundUpBounds(st.absBit, unit);
  }

  lemma EnterInv(r: Layout, at: nat, name: string, ty: Ty, unit: nat, storageTy: Ty, index: nat, offset: nat, width: nat, isSigned: bool)
    requires Inv(r.(absBit := at)) && r.open.Some? && r.open.value.index == index && UnitBits(unit) && 0 < width
    requires r.open.value.start <= at && offset == at - r.open.value.start && offset + width <= r.open.value.bits
    ensures Inv(Enter(r.(absBit := at + width), name, ty, unit, storageTy, index, offset, width, isSigned).(zeroLast := false))
  {
    var open, before := r.open.value, r.(absBit := at);
    var after := Enter(r.(absBit := at + width), name, ty, unit, storageTy, index, offset, width, isSigned).(zeroLast := false);
    forall k | 0 <= k < |r.logical| && Slot(r.logical[k]) == open.index
      ensures InOpen(before, open, k) && InOpen(after, open, k)
    {
      assert InOpen(before, open, k);
    }
    if name != "" {
      var f := LogicalField(name, ty, Bitfield(index, open.ty, offset, width, isSigned));
      forall k | 0 <= k < |r.logical|
        ensures Ordered(r.logical[k], f)
      {
        if Slot(r.logical[k]) == open.index { assert InOpen(before, open, k); }
      }
      Entered(r.emitted, r.logical, f);
      assert InOpen(after, open, |r.logical|);
    }
  }

  lemma PlaceAtInv(st: Layout, name: string, ty: Ty, storage: (Ty, bool, nat), width: nat, at: nat)
    requires Inv(st) && storage.0.Uint? && IntBits(storage.0.uw) == storage.2 && UnitBits(storage.2)
    requires 0 < width <= storage.2 && st.absBit <= at
    ensures Inv(PlaceAt(st, name, ty, storage, width, at))
  {
    EnsureInv(st, storage.0, storage.2, width, at);
    var e := Ensure(st, storage.0, storage.2, width, at);
    EnterInv(e.0, at, name, ty, storage.2, storage.0, e.1, e.2, width, storage.1);
  }

  lemma PlaceInStructInv(st: Layout, name: string, ty: Ty, storage: (Ty, bool, nat), width: nat)
    requires Inv(st) && StorageTy(ty) == Some(storage) && 0 < width <= storage.2
    ensures Inv(PlaceInStruct(st, name, ty, storage, width))
  {
    CandidateAhead(st, storage.2, width);
    PlaceAtInv(st, name, ty, storage, width, Candidate(st, storage.2, width));
  }

  lemma PlaceInUnionInv(st: Layout, name: string, ty: Ty, storage: (Ty, bool, nat), width: nat)
    requires Inv(st) && st.open.None? && StorageTy(ty) == Some(storage) && 0 < width <= storage.2
    ensures Inv(PlaceInUnion(st, name, ty, storage, width)) && PlaceInUnion(st, name, ty, storage, width).open.None?
  {
    MoreEmitted(st.emitted, st.logical, StructField(Storage(|st.emitted|), storage.0));
    if name != "" {
      Entered(st.emitted + [StructField(Storage(|st.emitted|), storage.0)], st.logical,
              LogicalField(name, ty, Bitfield(|st.emitted|, storage.0, 0, width, storage.1)));
    }
  }

  lemma ShrinkSafe(st: Layout, open: OpenStorage)
    requires Safe(st.emitted, st.logical) && open.index < |st.emitted| && UnitBits(open.bits)
    requires forall k :: 0 <= k < |st.logical| && Slot(st.logical[k]) == open.index ==> InOpen(st, open, k)
    ensures var r := Shrink(st, open, Since(st.absBit, open.start)); Safe(r.emitted, r.logical)
  {
    var used := Since(st.absBit, open.start);
    var needed := SmallestUint(used);
    if used < open.bits && needed.Some? && needed.value < open.bits {
      forall k | 0 <= k < |st.logical| && Slot(st.logical[k]) == open.index
        ensures InOpen(st, open, k)
      {
      }
      RetypeSafe(st, 0, open.index, UnsignedTy(needed.value));
    }
  }

  lemma CloseUnitInv(st: Layout)
    requires Inv(st)
    ensures Inv(CloseUnit(st)) && CloseUnit(st).open.None?
  {
    if st.open.Some? {
      var open := st.open.value;
      var used := Since(st.absBit, open.start);
      if used < open.bits && IsAnonymous(st, open.index) {
        forall k | 0 <= k < |st.logical|
          ensures Slot(st.logical[k]) != open.index && Housed(st.emitted, st.logical[k])
        {
        }
      } else {
        var closed := st.(open := None);
        forall k | 0 <= k < |st.logical| && Slot(st.logical[k]) == open.index
          ensures InOpen(closed, open, k)
        {
          assert InOpen(st, open, k);
        }
        ShrinkSafe(closed, open);
      }
    }
  }

  lemma AddMemberInv(st: Layout, kind: RecordKind, name: string, ty: Ty)
    requires Inv(st) && st.open.None?
    ensures Inv(AddMember(st, kind, name, ty)) && AddMember(st, kind, name, ty).open.None?
  {
    var field := StructField(User(name), ty);
    MoreEmitted(st.emitted, st.logical, field);
    Entered(st.emitted + [field], st.logical, LogicalField(name, ty, Direct(|st.emitted|)));
  }

  lemma ZeroWidthInv(st: Layout, kind: RecordKind, unit: nat)
    requires Inv(st) && unit > 0 && (kind == Union ==> st.open.None?)
    ensures Inv(ZeroWidth(st, kind, unit))
  {
    RoundUpBounds(st.absBit, unit);
    var r := ZeroWidth(st, kind, unit);
    if st.open.Some? {
      forall k | 0 <= k < |st.logical| && Slot(st.logical[k]) == st.open.value.index
        ensures InOpen(r, st.open.value, k)
      {
        assert InOpen(st, st.open.value, k);
      }
    }
  }

  lemma AddOneInv(st: Layout, kind: RecordKind, m: Member)
    requires Inv(st) && Validate(m, kind, true).Ok? && (kind == Union ==> st.open.None?)
    ensures Inv(AddOne(st, kind, m)) && (kind == Union ==> AddOne(st, kind, m).open.None?)
  {
    if m.width.None? {
      CloseUnitInv(st);
      AddMemberInv(CloseUnit(st), kind, m.name, m.ty);
    } else {
      var storage := StorageTy(m.ty).value;
      if m.width.value == 0 {
        ZeroWidthInv(st, kind, storage.2);
      } else if kind == Union {
        PlaceInUnionInv(st, m.name, m.ty, storage, m.width.value);
      } else {
        PlaceInStructInv(st, m.name, m.ty, storage, m.width.value);
      }
    }
  }

  // ---- whole records ----

  const EMPTY := Layout([], [], None, 0, 8, false, 0)

  /** The state after the first `n` members. */
  function AddAll(kind: RecordKind, members: seq<Member>, n: nat): (r: Result<Layout>)
    requires n <= |members|
    ensures r.Ok? ==> Inv(r.value) && (kind == Union ==> r.value.open.None?)
  {
    if n == 0 then Ok(EMPTY)
    else
      match AddAll(kind, members, n - 1)
      case Err(e) => Err(e)
      case Ok(st) =>
        match Validate(members[n - 1], kind, n == |members|)
        case Err(e) => Err(e)
        case Ok(_) => AddOneInv(st, kind, members[n - 1]); Ok(AddOne(st, kind, members[n - 1]))
  }

  /** Padding after a trailing zero-width field and the last shrink leave every bit-field safe. */
  lemma FinishSafe(st: Layout, kind: RecordKind)
    requires Inv(st)
    ensures var r := Finish(st, kind); Safe(r.emitted, r.logical)
  {
    var padded := PadTrailing(st, kind);
    if padded.emitted != st.emitted {
      MoreEmitted(st.emitted, st.logical, padded.emitted[|padded.emitted| - 1]);
      assert padded.emitted == st.emitted + [padded.emitted[|padded.emitted| - 1]];
    }
    if st.open.Some? {
      var open, closed := st.open.value, padded.(open := None);
      forall k | 0 <= k < |st.logical| && Slot(st.logical[k]) == open.index
        ensures InOpen(closed, open, k)
      {
        assert InOpen(st, open, k);
      }
      ShrinkSafe(closed, open);
    }
  }

  /** `define_def`, start to end. */
  function Define(kind: RecordKind, members: seq<Member>, pack: Option<nat>): Result<Layout> {
    match AddAll(kind, members, |members|)
    case Err(e) => Err(e)
    case Ok(st) => AddPhantom(Finish(st, kind), kind, pack)
  }

  lemma {:induction false} AddAllTable(kind: RecordKind, members: seq<Member>, n: nat)
    requires n <= |members| && AddAll(kind, members, n).Ok?
    ensures TableOf(AddAll(kind, members, n).value.logical) == Declared(members[..n])
    decreases n
  {
    if n > 0 {
      AddAllTable(kind, members, n - 1);
      AddOneTable(AddAll(kind, members, n - 1).value, kind, members[n - 1]);
      assert members[..n][..n - 1] == members[..n - 1];
    }
  }

  /** In every record the compiler accepts, the table lists exactly the named members as they were declared,
      each bit-field lies inside its final storage, the table agrees with the emitted fields, and no two members
      share bits of one storage. */
  lemma RecordSafe(kind: RecordKind, members: seq<Member>, pack: Option<nat>)
    requires Define(kind, members, pack).Ok?
    ensures var r := Define(kind, members, pack).value; Safe(r.emitted, r.logical) && TableOf(r.logical) == Declared(members)
  {
    var st := AddAll(kind, members, |members|).value;
    FinishSafe(st, kind);
    AddAllTable(kind, members, |members|);
    assert members[..|members|] == members;
    FinishTable(st, kind);
    var done := Finish(st, kind);
    var r := Define(kind, members, pack).value;
    PhantomLast(done, kind, pack);
    if r.emitted != done.emitted {
      MoreEmitted(done.emitted, done.logical, r.emitted[|r.emitted| - 1]);
    }
  }

  lemma PhantomLast(st: Layout, kind: RecordKind, pack: Option<nat>)
    requires AddPhantom(st, kind, pack).Ok?
    ensures var r := AddPhantom(st, kind, pack).value;
            r.logical == st.logical
            && (r.emitted == st.emitted || (r.emitted != [] && r.emitted == st.emitted + [r.emitted[|r.emitted| - 1]]))
  {
  }

  // ---- where bit-fields go ----

  lemma NoCrossAtMultiple(at: nat, width: nat, unit: nat)
    requires 0 < width <= unit && at % unit == 0
    ensures !Crosses(at, width, unit)
  {
    var k := at / unit;
    assert at == k * unit;
    Quotient(k, 0, unit);
    Quotient(k, width - 1, unit);
  }

  /** A bit-field is put at or after the cursor, and either shares the open unit or stays within one
      multiple of its declared type. */
  lemma PlacedWhole(st: Layout, unit: nat, width: nat)
    requires 0 < width <= unit
    ensures var at := Candidate(st, unit, width);
            && at >= st.absBit
            && ((st.open.Some? && Since(at, st.open.value.start) + width <= st.open.value.bits) || !Crosses(at, width, unit))
  {
    RoundUpBounds(st.absBit, unit);
    NoCrossAtMultiple(RoundUpBit(st.absBit, unit), width, unit);
  }

  lemma MultipleOfEight(at: nat, unit: nat)
    requires UnitBits(unit) && at % unit == 0
    ensures at % 8 == 0
  {
    var q, k := at / unit, unit / 8;
    assert at == q * unit == (q * k) * 8;
  }

  /** A unit the placement opens starts on a byte exactly when the cursor is on one or the field had to move
      to its type's next boundary. */
  lemma UnitStartAligned(st: Layout, name: string, ty: Ty, storage: (Ty, bool, nat), width: nat)
    requires Inv(st) && StorageTy(ty) == Some(storage) && 0 < width <= storage.2
    requires var r := PlaceInStruct(st, name, ty, storage, width); r.open.Some? && r.open.value.index == |st.emitted|
    ensures var r := PlaceInStruct(st, name, ty, storage, width);
            r.open.value.start % 8 == 0 <==> st.absBit % 8 == 0 || Crosses(st.absBit, width, storage.2)
  {
    var at := Candidate(st, storage.2, width);
    RoundUpBounds(st.absBit, storage.2);
    MultipleOfEight(RoundUpBit(st.absBit, storage.2), storage.2);
    var e := Ensure(st, storage.0, storage.2, width, at);
    assert e.0.open.value.start == at;
    if st.absBit % 8 == 0 && at != st.absBit {
      assert at == RoundUpBit(st.absBit, storage.2);
    }
  }

  const CHAR_X := Member("x", Int(W8), None, false)
  const CHAR_A7 := Member("a", Int(W8), Some(7), false)
  const INT_B3 := Member("b", Int(W32), Some(3), false)

  lemma AfterX(st: Layout)
    requires st.absBit == 0 && st.open.None? && st.emitted == []
    ensures var r := AddOne(st, Struct, CHAR_X); r.absBit == 8 && r.open.None? && |r.emitted| == 1
  {
  }

  lemma AfterA(st: Layout)
    requires st.absBit == 8 && st.open.None? && |st.emitted| == 1
    ensures var r := AddOne(st, Struct, CHAR_A7);
            r.absBit == 15 && |r.emitted| == 2 && r.open.Some? && r.open.value.start == 8 && r.open.value.bits == 8 && r.open.value.index == 1
  {
  }

  lemma AfterB(st: Layout)
    requires st.absBit == 15 && |st.emitted| == 2
    requires st.open.Some? && st.open.value.start == 8 && st.open.value.bits == 8 && st.open.value.index == 1
    ensures var r := AddOne(st, Struct, INT_B3); r.open.Some? && r.open.value.start == 15
  {
    assert Candidate(st, 32, 3) == 15;
    assert SmallestUint(10) == Some(16);
    assert Growth(st.open.value, 3, 15).None?;
  }

  lemma OneMore(kind: RecordKind, members: seq<Member>, n: nat, st: Layout)
    requires n < |members| && AddAll(kind, members, n) == Ok(st) && Validate(members[n], kind, n + 1 == |members|).Ok?
    requires Validate(members[n], kind, true).Ok? && (st.open.Some? ==> st.open.value.start <= st.absBit && st.open.value.index < |st.emitted|)
    ensures AddAll(kind, members, n + 1) == Ok(AddOne(st, kind, members[n]))
  {
  }

  const THREE := [CHAR_X, CHAR_A7, INT_B3]

  lemma UpToX()
    ensures var r := AddAll(Struct, THREE, 1);
            r.Ok? && r.value.absBit == 8 && r.value.open.None? && |r.value.emitted| == 1
  {
    OneMore(Struct, THREE, 0, EMPTY);
    AfterX(EMPTY);
  }

  lemma UpToA()
    ensures var r := AddAll(Struct, THREE, 2);
            && r.Ok? && r.value.absBit == 15 && |r.value.emitted| == 2 && r.value.open.Some?
            && r.value.open.value.start == 8 && r.value.open.value.bits == 8 && r.value.open.value.index == 1
  {
    UpToX();
    var st := AddAll(Struct, THREE, 1).value;
    OneMore(Struct, THREE, 1, st);
    AfterA(st);
  }

  /** `char x; char a:7; int b:3` opens the unit of `b` at bit 15: units need not start on a byte. */
  lemma UnalignedUnit()
    ensures var r := AddAll(Struct, THREE, 3);
            r.Ok? && r.value.open.Some? && r.value.open.value.start == 15
  {
    UpToA();
    var st := AddAll(Struct, THREE, 2).value;
    OneMore(Struct, THREE, 2, st);
    AfterB(st);
  }

  // ---- packs ----

  /** Packs that never cap an alignment to something no integer has. */
  predicate FinePack(pack: Option<nat>) {
    pack.None? || pack.value <= 2 || pack.value == 4 || pack.value == 8 || pack.value >= 16
  }

  lemma FinePackFits(kind: RecordKind, members: seq<Member>, pack: Option<nat>)
    requires FinePack(pack) && AddAll(kind, members, |members|).Ok?
    ensures Define(kind, members, pack).Ok?
  {
    FinishKeepsAlign(AddAll(kind, members, |members|).value, kind);
    AlignFits(Finish(AddAll(kind, members, |members|).value, kind), kind, pack);
  }

  lemma FinishKeepsAlign(st: Layout, kind: RecordKind)
    requires Inv(st)
    ensures UnitBits(Finish(st, kind).maxAlign)
  {
  }

  lemma AlignFits(st: Layout, kind: RecordKind, pack: Option<nat>)
    requires UnitBits(st.maxAlign) && FinePack(pack)
    ensures AddPhantom(st, kind, pack).Ok?
  {
  }

  const WIDE_BIT := [Member("a", Uint(W128), Some(1), false)]

  lemma WideBitPlaced()
    ensures var r := AddAll(Struct, WIDE_BIT, 1);
            && r.Ok? && r.value.maxAlign == 128 && |r.value.emitted| == 1 && r.value.absBit == 1 && !r.value.zeroLast
            && r.value.open.Some? && r.value.open.value.start == 0 && r.value.open.value.bits == 128 && r.value.open.value.index == 0
  {
    OneMore(Struct, WIDE_BIT, 0, EMPTY);
  }

  /** One bit of a 128-bit type asks for an alignment of 16 bytes and leaves a byte of storage. */
  lemma OddPackPanics(pack: Option<nat>)
    requires !FinePack(pack)
    ensures AddAll(Struct, WIDE_BIT, |WIDE_BIT|).Ok? && Define(Struct, WIDE_BIT, pack).Err?
  {
    WideBitPlaced();
    var st := AddAll(Struct, WIDE_BIT, 1).value;
    var r := Finish(st, Struct);
    assert PadTrailing(st, Struct) == st;
    assert SmallestUint(1) == Some(8);
    assert r.emitted == [StructField(st.emitted[0].name, Uint(W8))];
    assert r.emitted[..0] == [];
    assert EmittedAlign(r.emitted) == 8;
  }

  /** The builder never panics over an alignment exactly when the pack is fine. */
  lemma PhantomFits(pack: Option<nat>)
    ensures FinePack(pack) <==>
            forall kind, members :: AddAll(kind, members, |members|).Ok? ==> Define(kind, members, pack).Ok?
  {
    if FinePack(pack) {
      forall kind, members | AddAll(kind, members, |members|).Ok?
        ensures Define(kind, members, pack).Ok?
      {
        FinePackFits(kind, members, pack);
      }
    } else {
      OddPackPanics(pack);
    }
  }
}
