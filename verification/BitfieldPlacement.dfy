/** Where each member of a record lands: the position, the storage it shares, widens or opens, and what closing and
    finishing leave of a storage. Said without the steps that compute it. */
module BitfieldPlacement {
  import opened CTypes
  import opened Bitfields
  import opened BitfieldSafety

  // ---- positions ----

  /** `width` bits from `at` on cross a multiple of `unit`. */
  predicate Straddles(at: nat, width: nat, unit: nat)
    requires unit > 0
  {
    at % unit + width > unit
  }

  /** The open unit has room for `width` more bits. */
  predicate Roomy(st: Layout, width: nat) {
    st.open.Some? && st.absBit + width <= st.open.value.start + st.open.value.bits
  }

  /** `at` is the cursor if the open unit has room, and else the first place from the cursor on where the field does
      not straddle a multiple of its declared width. */
  ghost predicate IsPosition(st: Layout, width: nat, unit: nat, at: nat)
    requires unit > 0
  {
    if Roomy(st, width) then at == st.absBit
    else st.absBit <= at && !Straddles(at, width, unit) && forall p: nat :: st.absBit <= p < at ==> Straddles(p, width, unit)
  }

  /** `at` is the first multiple of `unit` from `cursor` on. */
  ghost predicate IsNextMultiple(cursor: nat, unit: nat, at: nat)
    requires unit > 0
  {
    cursor <= at && at % unit == 0 && forall p: nat :: cursor <= p < at ==> p % unit != 0
  }

  lemma CrossesIsStraddles(at: nat, width: nat, unit: nat)
    requires 0 < width <= unit
    ensures Crosses(at, width, unit) <==> Straddles(at, width, unit)
  {
    var k, r := at / unit, at % unit;
    assert at == k * unit + r;
    if r + width <= unit {
      Quotient(k, r + width - 1, unit);
    } else {
      assert (k + 1) * unit == k * unit + unit;
      Quotient(k + 1, r + width - 1 - unit, unit);
    }
  }

  lemma NoMultipleBetween(a: nat, b: nat, unit: nat)
    requires unit > 0 && a < b < a + unit && b % unit == 0
    ensures a % unit == unit - (b - a)
  {
    var k, d := b / unit, b - a;
    assert b == k * unit;
    assert k > 0;
    assert (k - 1) * unit == k * unit - unit;
    Quotient(k - 1, unit - d, unit);
  }

  lemma RoundedIsNext(cursor: nat, unit: nat)
    requires unit > 0
    ensures IsNextMultiple(cursor, unit, RoundUpBit(cursor, unit))
  {
    var at := RoundUpBit(cursor, unit);
    RoundUpBounds(cursor, unit);
    forall p: nat | cursor <= p < at
      ensures p % unit != 0
    {
      NoMultipleBetween(p, at, unit);
    }
  }

  lemma CandidateIsPosition(st: Layout, width: nat, unit: nat)
    requires 0 < width <= unit && (st.open.Some? ==> st.open.value.start <= st.absBit)
    ensures IsPosition(st, width, unit, Candidate(st, unit, width))
  {
    var at := RoundUpBit(st.absBit, unit);
    CrossesIsStraddles(st.absBit, width, unit);
    RoundUpBounds(st.absBit, unit);
    forall p: nat | st.absBit <= p < at && Straddles(st.absBit, width, unit)
      ensures Straddles(p, width, unit)
    {
      NoMultipleBetween(p, at, unit);
      if st.absBit < at { NoMultipleBetween(st.absBit, at, unit); }
    }
  }

  // ---- storage ----

  predicate IsUint(ty: Ty, bits: nat) {
    ty.Uint? && IntBits(ty.uw) == bits
  }

  /** `bits` is the least integer width that holds `used` bits. */
  ghost predicate LeastWidth(bits: nat, used: nat) {
    UnitBits(bits) && used <= bits && forall h: nat :: UnitBits(h) && used <= h ==> bits <= h
  }

  /** The open unit can be widened to `bits` to reach the end of the field, without moving. */
  ghost predicate Widens(open: OpenStorage, at: nat, width: nat, bits: nat) {
    open.start <= at && LeastWidth(bits, at - open.start + width) && (open.start / 8) % (bits / 8) == 0
  }

  /** Only storage `index` differs: it has the type `ty` now, in the emitted field and in the table. */
  ghost predicate OnlyRetyped(before: Layout, after: Layout, index: nat, ty: Ty) {
    && |after.emitted| >= |before.emitted| > index
    && (forall k :: 0 <= k < |before.emitted| ==>
                      after.emitted[k] == if k == index then before.emitted[k].(ty := ty) else before.emitted[k])
    && TableRetyped(before.logical, after.logical, index, ty)
  }

  ghost predicate TableRetyped(before: seq<LogicalField>, after: seq<LogicalField>, index: nat, ty: Ty) {
    && |after| >= |before|
    && (forall k :: 0 <= k < |before| ==>
                      after[k] == if before[k].kind.Bitfield? && before[k].kind.storageIndex == index
                                  then before[k].(kind := before[k].kind.(storageTy := ty)) else before[k])
  }

  ghost predicate Unchanged(before: Layout, after: Layout) {
    before.emitted <= after.emitted && before.logical <= after.logical
  }

  /** The field goes into the unit that was open, which stays as it is. */
  ghost predicate Shared(before: Layout, after: Layout) {
    Unchanged(before, after) && |after.emitted| == |before.emitted| && after.open == before.open
  }

  /** The field opens a new last storage of its declared width, from its first bit on. */
  ghost predicate Opened(before: Layout, after: Layout, unit: nat, at: nat) {
    && Unchanged(before, after) && |after.emitted| == |before.emitted| + 1
    && IsUint(after.emitted[|before.emitted|].ty, unit)
    && after.open.Some? && after.open.value.index == |before.emitted| && after.open.value.start == at
    && after.open.value.bits == unit && after.open.value.ty == after.emitted[|before.emitted|].ty
  }

  /** The field goes into the unit that was open, which is `bits` wide now. */
  ghost predicate Widened(before: Layout, after: Layout, bits: nat) {
    && before.open.Some? && after.open.Some? && |after.emitted| == |before.emitted|
    && OnlyRetyped(before, after, before.open.value.index, after.open.value.ty)
    && after.open.value.bits == bits && IsUint(after.open.value.ty, bits)
    && after.open.value == before.open.value.(ty := after.open.value.ty, bits := bits)
  }

  /** A named bit-field gets one entry, in the open unit, at its distance from the unit's first bit; others get none. */
  ghost predicate Listed(before: Layout, after: Layout, m: Member, at: nat)
    requires after.open.Some? && m.width.Some? && m.width.value >= 0 && StorageTy(m.ty).Some?
  {
    var open := after.open.value;
    if m.name == "" then |after.logical| == |before.logical| && after.maxAlign == before.maxAlign
    else
      && |after.logical| == |before.logical| + 1 && open.start <= at
      && after.logical[|before.logical|]
         == LogicalField(m.name, m.ty, Bitfield(open.index, open.ty, at - open.start, m.width.value, StorageTy(m.ty).value.1))
      && after.maxAlign == Max(before.maxAlign, StorageTy(m.ty).value.2)
  }

  /** Shared if there is room; opened if there is no open unit, the position is a multiple of the declared width, or the
      open unit cannot be widened; and widened otherwise, by as little as possible. */
  ghost predicate Chosen(before: Layout, after: Layout, unit: nat, width: nat, at: nat)
    requires unit > 0
  {
    && after.open.Some?
    && (Roomy(before, width) ==> Shared(before, after))
    && (!Roomy(before, width)
        && (before.open.None? || at % unit == 0 || !exists bits: nat :: Widens(before.open.value, at, width, bits))
        ==> Opened(before, after, unit, at))
    && (!Roomy(before, width) && before.open.Some? && at % unit != 0
        ==> forall bits: nat :: Widens(before.open.value, at, width, bits) ==> Widened(before, after, bits))
  }

  /** What a bit-field of a struct does to the layout. */
  ghost predicate Lands(before: Layout, after: Layout, m: Member, at: nat)
    requires m.width.Some? && m.width.value >= 0 && StorageTy(m.ty).Some?
  {
    && after.absBit == at + m.width.value && !after.zeroLast && after.beforeZero == before.beforeZero
    && Chosen(before, after, StorageTy(m.ty).value.2, m.width.value, at)
    && Listed(before, after, m, at)
  }

  lemma SmallestIsLeast(used: nat)
    ensures SmallestUint(used).Some? ==> LeastWidth(SmallestUint(used).value, used)
    ensures SmallestUint(used).None? ==> forall bits: nat :: !LeastWidth(bits, used)
    ensures forall bits: nat :: LeastWidth(bits, used) ==> SmallestUint(used) == Some(bits)
  {
  }

  lemma GrowthIsWidening(open: OpenStorage, width: nat, at: nat)
    requires open.start <= at && UnitBits(open.bits) && at - open.start + width > open.bits
    ensures forall bits: nat :: Widens(open, at, width, bits) <==> Growth(open, width, at) == Some(bits)
  {
    SmallestIsLeast(at - open.start + width);
  }

  lemma GrownIsWidened(st: Layout, bits: nat)
    requires Inv(st) && st.open.Some? && UnitBits(bits)
    ensures Widened(st, GrowUnit(st, bits), bits)
  {
    forall k | 0 <= k < |st.logical| && Slot(st.logical[k]) == st.open.value.index
      ensures k >= st.open.value.firstLogical
    {
      assert InOpen(st, st.open.value, k);
    }
  }

  lemma EnsureChooses(st: Layout, ty: Ty, unit: nat, width: nat, at: nat)
    requires Inv(st) && IsUint(ty, unit) && UnitBits(unit) && 0 < width <= unit && st.absBit <= at
    requires IsPosition(st, width, unit, at)
    ensures var (r, index, offset) := Ensure(st, ty, unit, width, at);
            && Chosen(st, r, unit, width, at) && |r.logical| == |st.logical|
            && index == r.open.value.index && r.open.value.start <= at && offset == at - r.open.value.start
            && r.maxAlign == st.maxAlign && r.beforeZero == st.beforeZero
  {
    if st.open.Some? && !Roomy(st, width) {
      var open := st.open.value;
      GrowthIsWidening(open, width, at);
      var growth := Growth(open, width, at);
      if growth.Some? {
        assert Widens(open, at, width, growth.value);
        GrownIsWidened(st, growth.value);
      }
    }
  }

  lemma EnterLists(before: Layout, r: Layout, m: Member, at: nat)
    requires m.width.Some? && m.width.value > 0 && StorageTy(m.ty).Some? && r.open.Some? && r.open.value.start <= at
    requires |r.logical| == |before.logical| && r.maxAlign == before.maxAlign
    ensures var s := StorageTy(m.ty).value;
            var after := Enter(r.(absBit := at + m.width.value), m.name, m.ty, s.2, s.0, r.open.value.index, at - r.open.value.start,
                               m.width.value, s.1).(zeroLast := false);
            && Listed(before, after, m, at) && r.logical <= after.logical
            && after.emitted == r.emitted && after.open == r.open && after.absBit == at + m.width.value && !after.zeroLast
            && after.beforeZero == r.beforeZero
  {
  }

  /** `after` has more entries than `r` and the same storage. */
  lemma ChosenKept(before: Layout, r: Layout, after: Layout, unit: nat, width: nat, at: nat)
    requires unit > 0 && Chosen(before, r, unit, width, at) && r.logical <= after.logical
    requires after.emitted == r.emitted && after.open == r.open
    ensures Chosen(before, after, unit, width, at)
  {
  }

  lemma StructLands(st: Layout, m: Member) returns (at: nat)
    requires Inv(st) && m.width.Some? && Validate(m, Struct, true).Ok? && m.width.value > 0
    ensures IsPosition(st, m.width.value, StorageTy(m.ty).value.2, at) && Lands(st, AddOne(st, Struct, m), m, at)
  {
    var s, width := StorageTy(m.ty).value, m.width.value;
    at := Candidate(st, s.2, width);
    CandidateAhead(st, s.2, width);
    CandidateIsPosition(st, width, s.2);
    EnsureChooses(st, s.0, s.2, width, at);
    var r := Ensure(st, s.0, s.2, width, at).0;
    EnterLists(st, r, m, at);
    ChosenKept(st, r, AddOne(st, Struct, m), s.2, width, at);
  }

  /** Member `n`, a bit-field of an accepted struct, lands where the rules say. */
  lemma BitfieldLands(members: seq<Member>, n: nat) returns (at: nat)
    requires n < |members| && AddAll(Struct, members, n + 1).Ok? && members[n].width.Some? && members[n].width.value > 0
    ensures AddAll(Struct, members, n).Ok? && StorageTy(members[n].ty).Some?
    ensures var before, after, m := AddAll(Struct, members, n).value, AddAll(Struct, members, n + 1).value, members[n];
            IsPosition(before, m.width.value, StorageTy(m.ty).value.2, at) && Lands(before, after, m, at)
  {
    at := StructLands(AddAll(Struct, members, n).value, members[n]);
  }

  // ---- the other members ----

  /** Everything but the cursor and the marks of a zero-width field is as before. */
  ghost predicate OnlyMoved(before: Layout, after: Layout) {
    && after.emitted == before.emitted && after.logical == before.logical && after.open == before.open
    && after.maxAlign == before.maxAlign
  }

  /** A zero-width bit-field moves the cursor to the first multiple of its declared width, and nothing else. */
  lemma ZeroWidthLands(kind: RecordKind, members: seq<Member>, n: nat)
    requires n < |members| && AddAll(kind, members, n + 1).Ok? && members[n].width == Some(0)
    ensures AddAll(kind, members, n).Ok? && StorageTy(members[n].ty).Some?
    ensures var before, after := AddAll(kind, members, n).value, AddAll(kind, members, n + 1).value;
            && OnlyMoved(before, after) && after.zeroLast
            && (kind == Struct ==> IsNextMultiple(before.absBit, StorageTy(members[n].ty).value.2, after.absBit)
                                   && after.beforeZero == before.absBit)
            && (kind == Union ==> after.absBit == 0 && after.beforeZero == before.beforeZero)
  {
    RoundedIsNext(AddAll(kind, members, n).value.absBit, StorageTy(members[n].ty).value.2);
  }

  /** A bit-field of a union gets a storage of its declared width to itself, and starts at its bottom. */
  lemma UnionBitfieldLands(members: seq<Member>, n: nat)
    requires n < |members| && AddAll(Union, members, n + 1).Ok? && members[n].width.Some? && members[n].width.value > 0
    ensures AddAll(Union, members, n).Ok? && StorageTy(members[n].ty).Some?
    ensures var before, after, m, s := AddAll(Union, members, n).value, AddAll(Union, members, n + 1).value, members[n],
                                       StorageTy(members[n].ty).value;
            && Unchanged(before, after) && after.open.None? && after.absBit == 0 && !after.zeroLast
            && |after.emitted| == |before.emitted| + 1 && IsUint(after.emitted[|before.emitted|].ty, s.2)
            && after.logical == before.logical
               + if m.name == "" then []
                 else [LogicalField(m.name, m.ty, Bitfield(|before.emitted|, after.emitted[|before.emitted|].ty, 0, m.width.value, s.1))]
  {
  }

  ghost predicate HasNamed(st: Layout, index: nat) {
    exists k :: 0 <= k < |st.logical| && st.logical[k].kind.Bitfield? && st.logical[k].kind.storageIndex == index && st.logical[k].name != ""
  }

  /** `bytes` is the least number of bytes that hold `bits`. */
  predicate LeastBytes(bytes: nat, bits: nat) {
    8 * bytes - 8 < bits <= 8 * bytes
  }

  /** The open unit is cut down to the least integer that holds `used` bits, if that is less than it has. */
  ghost predicate Narrowed(before: Layout, after: Layout, open: OpenStorage, used: nat) {
    forall bits: nat :: LeastWidth(bits, used) ==>
                          if used < open.bits && bits < open.bits
                          then exists ty :: IsUint(ty, bits) && OnlyRetyped(before, after, open.index, ty)
                          else Unchanged(before, after)
  }

  /** A plain member closes the open unit. Named bit-fields keep an integer to live in; without any, the unit is cut down
      to bytes. */
  ghost predicate Closed(before: Layout, after: Layout) {
    match before.open
    case None => Unchanged(before, after)
    case Some(open) =>
      var used := Since(before.absBit, open.start);
      if used < open.bits && !HasNamed(before, open.index) then
        forall bytes: nat :: LeastBytes(bytes, used) ==>
                               if bytes > 0 then OnlyRetyped(before, after, open.index, Array(Literal(bytes), Uint(W8)))
                               else Unchanged(before, after)
      else Narrowed(before, after, open, used)
  }

  lemma ShrinkNarrows(st: Layout, open: OpenStorage, used: nat)
    requires open.index < |st.emitted| && UnitBits(open.bits)
    ensures Narrowed(st, Shrink(st, open, used), open, used)
  {
    SmallestIsLeast(used);
    var needed := SmallestUint(used);
    if used < open.bits && needed.Some? && needed.value < open.bits {
      var ty := UnsignedTy(needed.value);
      assert IsUint(ty, needed.value) && OnlyRetyped(st, Shrink(st, open, used), open.index, ty);
    }
  }

  /** Neither the open unit nor the marks matter to `Narrowed`. */
  lemma NarrowedFrom(before: Layout, same: Layout, after: Layout, open: OpenStorage, used: nat)
    requires Narrowed(same, after, open, used) && same.emitted == before.emitted && same.logical == before.logical
    ensures Narrowed(before, after, open, used)
  {
    forall bits: nat | LeastWidth(bits, used)
      ensures if used < open.bits && bits < open.bits
              then exists ty :: IsUint(ty, bits) && OnlyRetyped(before, after, open.index, ty)
              else Unchanged(before, after)
    {
      if used < open.bits && bits < open.bits {
        var ty :| IsUint(ty, bits) && OnlyRetyped(same, after, open.index, ty);
        assert OnlyRetyped(before, after, open.index, ty);
      }
    }
  }

  lemma CloseCloses(st: Layout)
    requires Inv(st)
    ensures Closed(st, CloseUnit(st))
  {
    if st.open.Some? {
      var open, used, closed := st.open.value, Since(st.absBit, st.open.value.start), st.(open := None);
      forall k | 0 <= k < |st.logical| && Slot(st.logical[k]) == open.index
        ensures HasNamed(st, open.index)
      {
        assert InOpen(st, open, k);
      }
      if used >= open.bits || HasNamed(st, open.index) {
        ShrinkNarrows(closed, open, used);
        NarrowedFrom(st, closed, CloseUnit(st), open, used);
      }
    }
  }

  /** `later` has what `after` has, and more. */
  lemma ClosedKept(before: Layout, after: Layout, later: Layout)
    requires Closed(before, after) && after.emitted <= later.emitted && after.logical <= later.logical
    ensures Closed(before, later)
  {
    if before.open.Some? {
      NarrowedKept(before, after, later, before.open.value, Since(before.absBit, before.open.value.start));
    }
  }

  lemma NarrowedKept(before: Layout, after: Layout, later: Layout, open: OpenStorage, used: nat)
    requires after.emitted <= later.emitted && after.logical <= later.logical
    ensures Narrowed(before, after, open, used) ==> Narrowed(before, later, open, used)
  {
    if Narrowed(before, after, open, used) {
      forall bits: nat | LeastWidth(bits, used)
        ensures if used < open.bits && bits < open.bits
                then exists ty :: IsUint(ty, bits) && OnlyRetyped(before, later, open.index, ty)
                else Unchanged(before, later)
      {
        if used < open.bits && bits < open.bits {
          var ty :| IsUint(ty, bits) && OnlyRetyped(before, after, open.index, ty);
          assert OnlyRetyped(before, later, open.index, ty);
        }
      }
    }
  }

  /** A plain member is emitted and listed as declared; in a struct it takes its size from the first multiple of its
      alignment on, where both are known. */
  ghost predicate PlainLanded(before: Layout, after: Layout, kind: RecordKind, name: string, ty: Ty) {
    && Closed(before, after) && after.open.None? && !after.zeroLast && after.beforeZero == before.beforeZero
    && |after.emitted| == |before.emitted| + 1 && after.emitted[|before.emitted|] == StructField(User(name), ty)
    && |after.logical| == |before.logical| + 1
    && after.logical[|before.logical|] == LogicalField(name, ty, Direct(|before.emitted|))
    && Advanced(before, after, kind, ty)
  }

  lemma PlainLands(kind: RecordKind, members: seq<Member>, n: nat)
    requires n < |members| && AddAll(kind, members, n + 1).Ok? && members[n].width.None?
    ensures AddAll(kind, members, n).Ok?
    ensures PlainLanded(AddAll(kind, members, n).value, AddAll(kind, members, n + 1).value, kind, members[n].name, members[n].ty)
  {
    PlainAdded(AddAll(kind, members, n).value, kind, members[n].name, members[n].ty);
  }

  lemma CloseKeepsRest(st: Layout)
    requires Inv(st)
    ensures var r := CloseUnit(st);
            && r.absBit == st.absBit && r.maxAlign == st.maxAlign && r.beforeZero == st.beforeZero && r.open.None?
            && |r.emitted| == |st.emitted| && |r.logical| == |st.logical|
  {
  }

  lemma PlainAdded(before: Layout, kind: RecordKind, name: string, ty: Ty)
    requires Inv(before)
    ensures PlainLanded(before, AddMember(CloseUnit(before), kind, name, ty), kind, name, ty)
  {
    var closed := CloseUnit(before);
    var after := AddMember(closed, kind, name, ty);
    CloseCloses(before);
    CloseKeepsRest(before);
    MemberAdded(closed, kind, name, ty);
    ClosedKept(before, closed, after);
    AdvancedFrom(before, closed, after, kind, ty);
  }

  lemma AdvancedFrom(before: Layout, closed: Layout, after: Layout, kind: RecordKind, ty: Ty)
    requires Advanced(closed, after, kind, ty) && closed.absBit == before.absBit && closed.maxAlign == before.maxAlign
    ensures Advanced(before, after, kind, ty)
  {
  }

  lemma MemberAdded(closed: Layout, kind: RecordKind, name: string, ty: Ty)
    ensures var after := AddMember(closed, kind, name, ty);
            && after.emitted == closed.emitted + [StructField(User(name), ty)]
            && after.logical == closed.logical + [LogicalField(name, ty, Direct(|closed.emitted|))]
            && after.open == closed.open && !after.zeroLast && after.beforeZero == closed.beforeZero
            && Advanced(closed, after, kind, ty)
  {
    if BitLayout(ty).Some? { RoundedIsNext(closed.absBit, BitLayout(ty).value.1); }
  }

  ghost predicate Advanced(before: Layout, after: Layout, kind: RecordKind, ty: Ty) {
    match (kind, BitLayout(ty))
    case (Union, _) => after.absBit == 0 && after.maxAlign == before.maxAlign
    case (Struct, None) => after.absBit == before.absBit && after.maxAlign == before.maxAlign
    case (Struct, Some(layout)) =>
      && after.absBit >= layout.0 && IsNextMultiple(before.absBit, layout.1, after.absBit - layout.0)
      && after.maxAlign == Max(before.maxAlign, layout.1)
  }

  // ---- which members are accepted ----

  /** A bit-field has an integral type and a width that fits it, and no name if the width is zero; an unsized member has
      to be the last one of a struct. */
  predicate Acceptable(kind: RecordKind, m: Member, isLast: bool) {
    match m.width
    case None => m.isUnsized ==> isLast && kind == Struct
    case Some(w) => !m.isUnsized && StorageTy(m.ty).Some? && 0 <= w <= StorageTy(m.ty).value.2 && (w == 0 ==> m.name == "")
  }

  ghost predicate AllAcceptable(kind: RecordKind, members: seq<Member>, n: nat)
    requires n <= |members|
  {
    forall k :: 0 <= k < n ==> Acceptable(kind, members[k], k + 1 == |members|)
  }

  /** All members are added exactly when each of them is acceptable. */
  lemma {:induction false} AcceptedExactly(kind: RecordKind, members: seq<Member>, n: nat)
    requires n <= |members|
    ensures AddAll(kind, members, n).Ok? <==> AllAcceptable(kind, members, n)
  {
    if n > 0 {
      AcceptedExactly(kind, members, n - 1);
      AcceptedNext(kind, members, n - 1);
      AllNext(kind, members, n - 1);
    }
  }

  lemma AllNext(kind: RecordKind, members: seq<Member>, n: nat)
    requires n < |members|
    ensures AllAcceptable(kind, members, n + 1) <==> AllAcceptable(kind, members, n) && Acceptable(kind, members[n], n + 1 == |members|)
  {
  }

  lemma AcceptedNext(kind: RecordKind, members: seq<Member>, n: nat)
    requires n < |members|
    ensures AddAll(kind, members, n + 1).Ok? <==> AddAll(kind, members, n).Ok? && Acceptable(kind, members[n], n + 1 == |members|)
  {
    ValidIsAcceptable(kind, members[n], n + 1 == |members|);
  }

  lemma ValidIsAcceptable(kind: RecordKind, m: Member, isLast: bool)
    ensures Validate(m, kind, isLast).Ok? <==> Acceptable(kind, m, isLast)
  {
  }

  // ---- after the last member ----

  /** Padding bytes for a trailing zero-width field: the fewest that reach the cursor, past what the fields take and
      where the cursor was before. */
  ghost predicate Pads(st: Layout, kind: RecordKind, pad: nat) {
    forall earlier: nat :: LeastBytes(earlier, st.beforeZero) ==>
                             var have := Max(EmittedBytes(st.emitted), earlier);
                             if kind == Union || !st.zeroLast then pad == 0
                             else st.absBit <= 8 * (have + pad) && (pad > 0 ==> 8 * (have + pad - 1) < st.absBit)
  }

  /** What the fields take: each lies at the first multiple of its alignment after those before it. */
  lemma EmittedBytesMore(fields: seq<StructField>, f: StructField) returns (at: nat)
    ensures EmittedBytes([]) == 0
    ensures BitLayout(f.ty).None? ==> EmittedBytes(fields + [f]) == EmittedBytes(fields)
    ensures BitLayout(f.ty).Some? ==> IsNextMultiple(EmittedBytes(fields) * 8, BitLayout(f.ty).value.1, at)
                                      && EmittedBytes(fields + [f]) == at / 8 + BitLayout(f.ty).value.0 / 8
  {
    assert (fields + [f])[..|fields|] == fields;
    at := 0;
    if BitLayout(f.ty).Some? {
      at := RoundUpBit(EmittedBytes(fields) * 8, BitLayout(f.ty).value.1);
      RoundedIsNext(EmittedBytes(fields) * 8, BitLayout(f.ty).value.1);
    }
  }

  /** A field that tells its alignment has at least `bits` of it. */
  predicate AlignedTo(f: StructField, bits: nat) {
    BitLayout(f.ty).Some? && BitLayout(f.ty).value.1 >= bits
  }

  lemma {:induction false} EmittedAlignIsMax(fields: seq<StructField>, bits: nat)
    ensures EmittedAlign(fields) >= bits <==> bits <= 8 || exists f :: f in fields && AlignedTo(f, bits)
  {
    if fields != [] {
      var front, last := fields[..|fields| - 1], fields[|fields| - 1];
      EmittedAlignIsMax(front, bits);
      assert fields == front + [last] && last in fields;
      if f :| f in front && AlignedTo(f, bits) { assert f in fields; }
      assert AlignedTo(last, bits) || !AlignedTo(last, bits);
    }
  }

  /** A struct keeps the alignment its members ask for, up to the pack: if no field has it, a zero-sized one is added. */
  lemma AlignmentRestored(st: Layout, kind: RecordKind, pack: Option<nat>)
    requires AddPhantom(st, kind, pack).Ok?
    ensures var r := AddPhantom(st, kind, pack).value;
            && st.emitted <= r.emitted && |r.emitted| <= |st.emitted| + 1 && r.logical == st.logical
            && (|r.emitted| > |st.emitted| <==>
                kind == Struct && st.emitted != [] && st.maxAlign > 8 && (pack.Some? ==> pack.value > 1)
                && !exists f :: f in st.emitted && AlignedTo(f, if pack.Some? then Min(st.maxAlign, 8 * pack.value) else st.maxAlign))
            && (|r.emitted| > |st.emitted| ==>
                  BitLayout(r.emitted[|st.emitted|].ty) == Some((0, if pack.Some? then Min(st.maxAlign, 8 * pack.value) else st.maxAlign)))
  {
    var wanted := if pack.Some? then Min(st.maxAlign, 8 * pack.value) else st.maxAlign;
    EmittedAlignIsMax(st.emitted, wanted);
  }

  lemma PadPads(st: Layout, kind: RecordKind) returns (pad: nat)
    ensures Pads(st, kind, pad)
    ensures PadTrailing(st, kind)
            == st.(emitted := st.emitted + if pad > 0 then [StructField(TrailingPad, Array(Literal(pad), Uint(W8)))] else [])
  {
    pad := |PadTrailing(st, kind).emitted| - |st.emitted|;
    if pad > 0 {
      pad := (st.absBit + 7) / 8 - Max(EmittedBytes(st.emitted), (st.beforeZero + 7) / 8);
    }
  }

  /** What finishing does: padding after a trailing zero-width field, the last open unit cut down to an integer that
      holds the bits in use, and the alignment. */
  lemma Finishes(kind: RecordKind, members: seq<Member>, pack: Option<nat>) returns (pad: nat, done: Layout)
    requires Define(kind, members, pack).Ok?
    ensures AddAll(kind, members, |members|).Ok?
    ensures var st := AddAll(kind, members, |members|).value;
            && Pads(st, kind, pad)
            && |done.emitted| == |st.emitted| + (if pad > 0 then 1 else 0)
            && (pad > 0 ==> done.emitted[|st.emitted|] == StructField(TrailingPad, Array(Literal(pad), Uint(W8))))
            && |done.logical| == |st.logical| && done.maxAlign == st.maxAlign
            && (st.open.None? ==> Unchanged(st, done))
            && (st.open.Some? ==> Narrowed(st, done, st.open.value, Since(st.absBit, st.open.value.start)))
            && AddPhantom(done, kind, pack) == Define(kind, members, pack)
  {
    var st := AddAll(kind, members, |members|).value;
    pad := PadPads(st, kind);
    done := Finish(st, kind);
    if st.open.Some? {
      var padded := PadTrailing(st, kind);
      var open, used := st.open.value, Since(st.absBit, st.open.value.start);
      ShrinkNarrows(padded.(open := None), open, used);
      NarrowedPadded(st, padded.(open := None), done, open, used);
    }
  }

  lemma NarrowedPadded(st: Layout, padded: Layout, done: Layout, open: OpenStorage, used: nat)
    requires Narrowed(padded, done, open, used) && st.emitted <= padded.emitted && st.logical == padded.logical
    requires open.index < |st.emitted|
    ensures Narrowed(st, done, open, used)
  {
    forall bits: nat | LeastWidth(bits, used)
      ensures if used < open.bits && bits < open.bits
              then exists ty :: IsUint(ty, bits) && OnlyRetyped(st, done, open.index, ty)
              else Unchanged(st, done)
    {
      if used < open.bits && bits < open.bits {
        var ty :| IsUint(ty, bits) && OnlyRetyped(padded, done, open.index, ty);
        assert OnlyRetyped(st, done, open.index, ty);
      }
    }
  }

  // ---- whole records ----

  predicate IsBitfield(m: Member) {
    m.width.Some? && m.width.value > 0 && StorageTy(m.ty).Some?
  }

  /** Member `n` of the struct is a plain one, a zero-width field, or a bit-field, and lands where the rules say. */
  ghost predicate LandsRightly(members: seq<Member>, n: nat)
    requires n < |members|
  {
    var before, after, m := AddAll(Struct, members, n), AddAll(Struct, members, n + 1), members[n];
    && before.Ok? && after.Ok?
    && (m.width.None? ==> PlainLanded(before.value, after.value, Struct, m.name, m.ty))
    && (m.width.Some? && m.width.value == 0 && StorageTy(m.ty).Some?
        ==> OnlyMoved(before.value, after.value) && IsNextMultiple(before.value.absBit, StorageTy(m.ty).value.2, after.value.absBit))
    && (IsBitfield(m) ==> exists at: nat :: IsPosition(before.value, m.width.value, StorageTy(m.ty).value.2, at)
                                            && Lands(before.value, after.value, m, at))
  }

  lemma EarlierAdded(kind: RecordKind, members: seq<Member>, n: nat, k: nat)
    requires k <= n <= |members| && AddAll(kind, members, n).Ok?
    ensures AddAll(kind, members, k).Ok?
  {
    AcceptedExactly(kind, members, n);
    AcceptedExactly(kind, members, k);
  }

  /** In an accepted struct every member lands where the rules say. */
  lemma EachLands(members: seq<Member>, n: nat)
    requires n < |members| && AddAll(Struct, members, |members|).Ok?
    ensures LandsRightly(members, n)
  {
    EarlierAdded(Struct, members, |members|, n + 1);
    EarlierAdded(Struct, members, |members|, n);
    var m := members[n];
    if m.width.None? {
      PlainLands(Struct, members, n);
    } else if m.width.value == 0 {
      ZeroWidthLands(Struct, members, n);
    } else if m.width.value > 0 {
      var at := BitfieldLands(members, n);
    }
  }

  /** A record is refused exactly if a member is not acceptable, or its alignment is no integer's. */
  lemma RefusedExactly(kind: RecordKind, members: seq<Member>, pack: Option<nat>)
    ensures Define(kind, members, pack).Ok? ==> AllAcceptable(kind, members, |members|)
    ensures Define(kind, members, pack).Err? && AllAcceptable(kind, members, |members|)
            ==> Define(kind, members, pack) == Err(UnsupportedWidth) && !FinePack(pack)
  {
    AcceptedExactly(kind, members, |members|);
    if AllAcceptable(kind, members, |members|) && FinePack(pack) { FinePackFits(kind, members, pack); }
  }
}
