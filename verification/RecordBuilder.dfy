/** `define_def` as it runs: a builder that updates its field lists in place, proved step by step
    against `Bitfields` and, as a whole, against `BitfieldSafety.Define`. */
module RecordBuilder {
  import opened CTypes
  import opened Bitfields
  import opened BitfieldSafety
  import BitfieldPlacement
  import opened RecordTable

  class Builder {
    var emitted: seq<StructField>
    var logical: seq<LogicalField>
    var open: Option<OpenStorage>
    var absBit: nat
    var maxAlign: nat
    var zeroLast: bool
    var beforeZero: nat

    function State(): Layout
      reads this
    {
      Layout(emitted, logical, open, absBit, maxAlign, zeroLast, beforeZero)
    }

    constructor ()
      ensures State() == EMPTY
    {
      emitted, logical, open := [], [], None;
      absBit, maxAlign, zeroLast, beforeZero := 0, 8, false, 0;
    }

    /** Patches the recorded storage type of every bit-field of storage `index` from entry `from` on. */
    method RetypeLogical(from: nat, index: nat, ty: Ty)
      modifies this`logical
      ensures logical == Retype(old(logical), from, index, ty)
    {
      ghost var was := logical;
      var k := from;
      while k < |logical|
        invariant |logical| == |was|
        invariant forall j :: 0 <= j < |was| ==> logical[j] == if j < k then Retype(was, from, index, ty)[j] else was[j]
        decreases |was| - k
      {
        if logical[k].kind.Bitfield? && logical[k].kind.storageIndex == index {
          logical := logical[k := logical[k].(kind := logical[k].kind.(storageTy := ty))];
        }
        k := k + 1;
      }
      assert logical == Retype(was, from, index, ty);
    }

    /** `ensure_bitfield_storage`: share, grow in place, or close and open. */
    method EnsureStorage(ty: Ty, unit: nat, width: nat, at: nat) returns (index: nat, offset: nat)
      requires unit > 0
      requires open.Some? ==> open.value.start <= at && open.value.index < |emitted|
      modifies this`emitted, this`logical, this`open
      ensures (State(), index, offset) == Ensure(old(State()), ty, unit, width, at)
      ensures Inv(old(State())) && BitfieldPlacement.IsUint(ty, unit) && UnitBits(unit) && 0 < width <= unit
              && BitfieldPlacement.IsPosition(old(State()), width, unit, at)
              ==> BitfieldPlacement.Chosen(old(State()), State(), unit, width, at)
    {
      if Inv(State()) && BitfieldPlacement.IsUint(ty, unit) && UnitBits(unit) && 0 < width <= unit
         && BitfieldPlacement.IsPosition(State(), width, unit, at) {
        BitfieldPlacement.EnsureChooses(State(), ty, unit, width, at);
      }
      if open.Some? {
        var current := open.value;
        var rel := at - current.start;
        var span := rel + width;
        if span <= current.bits {
          return current.index, rel;
        }
        if at % unit == 0 {
          open := None;
        } else {
          var needed := SmallestUint(span);
          if needed.Some? && needed.value > current.bits && (current.start / 8) % (needed.value / 8) == 0 {
            var grown := UnsignedTy(needed.value);
            emitted := emitted[current.index := emitted[current.index].(ty := grown)];
            RetypeLogical(current.firstLogical, current.index, grown);
            open := Some(current.(ty := grown, bits := needed.value));
            return current.index, rel;
          }
          open := None;
        }
      }
      index, offset := |emitted|, 0;
      emitted := emitted + [StructField(Storage(index), ty)];
      open := Some(OpenStorage(index, ty, unit, at, |logical|));
    }

    method EnterBitfield(name: string, ty: Ty, unit: nat, storageTy: Ty, index: nat, offset: nat, width: nat, isSigned: bool)
      modifies this`logical, this`maxAlign
      ensures State() == Enter(old(State()), name, ty, unit, storageTy, index, offset, width, isSigned)
    {
      if name != "" {
        maxAlign := Max(maxAlign, unit);
        var actual := if open.Some? then open.value.ty else storageTy;
        logical := logical + [LogicalField(name, ty, Bitfield(index, actual, offset, width, isSigned))];
      }
    }

    /** The next position: the cursor if the open unit has room or no boundary is crossed, else the boundary. */
    method FindCandidate(unit: nat, width: nat) returns (candidate: nat)
      requires unit > 0 && width > 0
      ensures candidate == Candidate(State(), unit, width)
    {
      if open.Some? && Since(absBit, open.value.start) + width <= open.value.bits {
        candidate := absBit;
      } else if absBit / unit != (absBit + width - 1) / unit {
        candidate := RoundUpBit(absBit, unit);
      } else {
        candidate := absBit;
      }
    }

    method AddAt(name: string, ty: Ty, storage: (Ty, bool, nat), width: nat, candidate: nat)
      requires storage.2 > 0 && width > 0
      requires open.Some? ==> open.value.start <= candidate && open.value.index < |emitted|
      modifies this
      ensures State() == PlaceAt(old(State()), name, ty, storage, width, candidate)
    {
      var index, offset := EnsureStorage(storage.0, storage.2, width, candidate);
      absBit := candidate + width;
      EnterBitfield(name, ty, storage.2, storage.0, index, offset, width, storage.1);
      zeroLast := false;
    }

    /** Places a bit-field of a struct. */
    method AddToStruct(name: string, ty: Ty, storage: (Ty, bool, nat), width: nat)
      requires storage.2 > 0 && width > 0
      requires open.Some? ==> open.value.start <= absBit && open.value.index < |emitted|
      modifies this
      ensures State() == PlaceInStruct(old(State()), name, ty, storage, width)
    {
      CandidateAhead(State(), storage.2, width);
      var candidate := FindCandidate(storage.2, width);
      AddAt(name, ty, storage, width, candidate);
    }

    method AddToUnion(name: string, ty: Ty, storage: (Ty, bool, nat), width: nat)
      modifies this
      ensures State() == PlaceInUnion(old(State()), name, ty, storage, width)
    {
      var (storageTy, isSigned, unit) := storage;
      absBit := 0;
      var index := |emitted|;
      emitted := emitted + [StructField(Storage(index), storageTy)];
      EnterBitfield(name, ty, unit, storageTy, index, 0, width, isSigned);
      zeroLast := false;
    }

    method AddZeroWidth(kind: RecordKind, unit: nat)
      requires unit > 0
      modifies this
      ensures State() == ZeroWidth(old(State()), kind, unit)
    {
      if kind == Union {
        absBit := 0;
      } else {
        beforeZero := absBit;
        absBit := RoundUpBit(absBit, unit);
      }
      zeroLast := true;
    }

    method AddBitfield(kind: RecordKind, m: Member)
      requires m.width.Some? && Validate(m, kind, true).Ok?
      requires open.Some? ==> open.value.start <= absBit && open.value.index < |emitted|
      modifies this
      ensures State() == AddOne(old(State()), kind, m)
    {
      var width: nat := m.width.value;
      var storage := StorageTy(m.ty).value;
      if width == 0 {
        AddZeroWidth(kind, storage.2);
      } else if kind == Union {
        AddToUnion(m.name, m.ty, storage, width);
      } else {
        AddToStruct(m.name, m.ty, storage, width);
      }
    }

    /** Whether no named bit-field lives in storage `index`. */
    method FindAnonymous(index: nat) returns (anonymous: bool)
      ensures anonymous == IsAnonymous(State(), index)
    {
      anonymous := true;
      for k := 0 to |logical|
        invariant anonymous <==> !exists j :: 0 <= j < k && logical[j].kind.Bitfield? && logical[j].kind.storageIndex == index
                                              && logical[j].name != ""
      {
        if logical[k].kind.Bitfield? && logical[k].kind.storageIndex == index && logical[k].name != "" {
          anonymous := false;
        }
      }
    }

    method ShrinkStorage(storage: OpenStorage, used: nat)
      requires storage.index < |emitted|
      modifies this`emitted, this`logical
      ensures State() == Shrink(old(State()), storage, used)
    {
      var needed := SmallestUint(used);
      if used < storage.bits && needed.Some? && needed.value < storage.bits {
        var ty := UnsignedTy(needed.value);
        emitted := emitted[storage.index := emitted[storage.index].(ty := ty)];
        RetypeLogical(0, storage.index, ty);
      }
    }

    /** What happens to the open unit when a plain member follows it. */
    method CloseStorage()
      requires open.Some? ==> open.value.index < |emitted|
      modifies this`emitted, this`logical, this`open
      ensures State() == CloseUnit(old(State()))
    {
      if open.None? { return; }
      var storage := open.value;
      var used := Since(absBit, storage.start);
      var anonymous := FindAnonymous(storage.index);
      open := None;
      if used < storage.bits {
        if anonymous {
          var bytes := (used + 7) / 8;
          if bytes > 0 {
            emitted := emitted[storage.index := emitted[storage.index].(ty := Array(Literal(bytes), Uint(W8)))];
          }
        } else {
          ShrinkStorage(storage, used);
        }
      }
    }

    method AddPlain(kind: RecordKind, name: string, ty: Ty)
      modifies this
      ensures State() == AddMember(old(State()), kind, name, ty)
    {
      var physicalIndex := |emitted|;
      emitted := emitted + [StructField(User(name), ty)];
      var layout := BitLayout(ty);
      if kind == Union {
        absBit := 0;
      } else if layout.Some? {
        maxAlign := Max(maxAlign, layout.value.1);
        absBit := RoundUpBit(absBit, layout.value.1) + layout.value.0;
      }
      logical := logical + [LogicalField(name, ty, Direct(physicalIndex))];
      zeroLast := false;
    }

    /** Pads after a trailing zero-width field. */
    method Pad(kind: RecordKind)
      modifies this`emitted
      ensures State() == PadTrailing(old(State()), kind)
    {
      if zeroLast && kind == Struct {
        var needed := (absBit + 7) / 8;
        var current := (beforeZero + 7) / 8;
        var emittedBytes: nat := 0;
        for k := 0 to |emitted|
          invariant emittedBytes == EmittedBytes(emitted[..k])
        {
          assert emitted[..k + 1][..k] == emitted[..k];
          var layout := BitLayout(emitted[k].ty);
          if layout.Some? {
            emittedBytes := RoundUpBit(emittedBytes * 8, layout.value.1) / 8 + layout.value.0 / 8;
          }
        }
        assert emitted[..|emitted|] == emitted;
        var have := Max(emittedBytes, current);
        if needed > have {
          emitted := emitted + [StructField(TrailingPad, Array(Literal(needed - have), Uint(W8)))];
        }
      }
    }

    method ShrinkTrailing()
      requires open.Some? ==> open.value.index < |emitted|
      modifies this`emitted, this`logical, this`open
      ensures State() == ShrinkLast(old(State()))
    {
      if open.None? { return; }
      var storage := open.value;
      open := None;
      ShrinkStorage(storage, Since(absBit, storage.start));
    }

    /** Restores the record's alignment. */
    method Align(kind: RecordKind, pack: Option<nat>) returns (r: Result<()>)
      modifies this`emitted
      ensures match AddPhantom(old(State()), kind, pack)
              case Ok(st) => r == Ok(()) && State() == st
              case Err(e) => r == Err(e)
    {
      r := Ok(());
      if kind == Union || emitted == [] { return; }
      var effectiveMax := if pack.Some? then Min(maxAlign, pack.value * 8) else maxAlign;
      var emittedMax: nat := 8;
      for k := 0 to |emitted|
        invariant emittedMax == EmittedAlign(emitted[..k])
      {
        assert emitted[..k + 1][..k] == emitted[..k];
        var layout := BitLayout(emitted[k].ty);
        if layout.Some? {
          emittedMax := Max(emittedMax, layout.value.1);
        }
      }
      assert emitted[..|emitted|] == emitted;
      if effectiveMax > emittedMax {
        if !UnitBits(effectiveMax) { return Err(UnsupportedWidth); }
        emitted := emitted + [StructField(AlignPhantom, Array(Literal(0), UnsignedTy(effectiveMax)))];
      }
    }

    method AddMemberOrBitfield(kind: RecordKind, m: Member)
      requires Validate(m, kind, true).Ok?
      requires open.Some? ==> open.value.start <= absBit && open.value.index < |emitted|
      modifies this
      ensures State() == AddOne(old(State()), kind, m)
    {
      if m.width.Some? {
        AddBitfield(kind, m);
      } else {
        CloseStorage();
        AddPlain(kind, m.name, m.ty);
      }
    }

    /** One turn of the loop over the members. */
    method AddNext(kind: RecordKind, ghost members: seq<Member>, ghost n: nat, m: Member, isLast: bool) returns (r: Result<()>)
      requires n < |members| && m == members[n] && isLast == (n + 1 == |members|)
      requires AddAll(kind, members, n) == Ok(State())
      modifies this
      ensures match AddAll(kind, members, n + 1)
              case Ok(st) => r == Ok(()) && State() == st
              case Err(e) => r == Err(e)
    {
      r := Validate(m, kind, isLast);
      if r.Err? { return; }
      AddMemberOrBitfield(kind, m);
    }

    /** The loop over the members, up to the first that is refused. */
    method AddMembers(kind: RecordKind, members: seq<Member>) returns (r: Result<()>)
      requires State() == EMPTY
      modifies this
      ensures match AddAll(kind, members, |members|)
              case Ok(st) => r == Ok(()) && State() == st
              case Err(e) => r == Err(e)
    {
      for n := 0 to |members|
        invariant AddAll(kind, members, n) == Ok(State())
      {
        r := AddNext(kind, members, n, members[n], n + 1 == |members|);
        if r.Err? {
          ErrStays(kind, members, n + 1, r.error);
          return;
        }
      }
      r := Ok(());
    }

    /** Lays out a whole record; what it accepts is safe, and each member of a struct lands where the rules say. */
    method DefineRecord(kind: RecordKind, members: seq<Member>, pack: Option<nat>) returns (r: Result<()>)
      requires State() == EMPTY
      modifies this
      ensures match Define(kind, members, pack)
              case Ok(st) => r == Ok(()) && State() == st
              case Err(e) => r == Err(e)
      ensures r.Ok? ==> Safe(emitted, logical) && TableOf(logical) == Declared(members)
      ensures r.Ok? ==> BitfieldPlacement.AllAcceptable(kind, members, |members|)
      ensures r.Err? && BitfieldPlacement.AllAcceptable(kind, members, |members|) ==> r.error == UnsupportedWidth && !FinePack(pack)
      ensures r.Ok? && kind == Struct ==> forall n: nat :: n < |members| ==> BitfieldPlacement.LandsRightly(members, n)
    {
      BitfieldPlacement.RefusedExactly(kind, members, pack);
      r := AddMembers(kind, members);
      if r.Err? { return; }
      Pad(kind);
      ShrinkTrailing();
      r := Align(kind, pack);
      if r.Ok? {
        RecordSafe(kind, members, pack);
        if kind == Struct {
          forall n: nat | n < |members|
            ensures BitfieldPlacement.LandsRightly(members, n)
          {
            BitfieldPlacement.EachLands(members, n);
          }
        }
      }
    }
  }

  /** The first error is the record's error. */
  lemma {:induction false} ErrStays(kind: RecordKind, members: seq<Member>, n: nat, e: Error)
    requires n <= |members| && AddAll(kind, members, n) == Err(e)
    ensures AddAll(kind, members, |members|) == Err(e)
    decreases |members| - n
  {
    if n < |members| {
      ErrStays(kind, members, n + 1, e);
    }
  }
}
