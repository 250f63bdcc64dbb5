/** Bit-field allocation: the state `define_def` threads through a record's members, one function per step. */
module Bitfields {
  import opened CTypes

  datatype FieldName = User(text: string) | Storage(n: nat) | TrailingPad | AlignPhantom

  datatype StructField = StructField(name: FieldName, ty: Ty)

  datatype FieldKind =
    | Direct(physicalIndex: nat)
    | Bitfield(storageIndex: nat, storageTy: Ty, bitOffset: nat, bitWidth: nat, isSigned: bool)

  datatype LogicalField = LogicalField(name: string, ty: Ty, kind: FieldKind)

  /** The unit that the next bit-field may still share. `start` is its first bit in the record. */
  datatype OpenStorage = OpenStorage(index: nat, ty: Ty, bits: nat, start: nat, firstLogical: nat)

  datatype Layout = Layout(
    emitted: seq<StructField>, logical: seq<LogicalField>, open: Option<OpenStorage>,
    absBit: nat, maxAlign: nat, zeroLast: bool, beforeZero: nat)

  /** One declarator. A bit-field has a width; an unnamed one has the empty name. */
  datatype Member = Member(name: string, ty: Ty, width: Option<int>, isUnsized: bool)

  datatype Error =
    | NegativeWidth | UnsizedBitfield | NotIntegral | TooWide | NamedZeroWidth | UnsizedMember
    | UnsupportedWidth

  datatype Result<+T> = Ok(value: T) | Err(error: Error)

  function Slot(f: LogicalField): nat {
    match f.kind
    case Direct(i) => i
    case Bitfield(i, _, _, _, _) => i
  }

  // ---- helpers of the source ----

  function UnsignedTy(bits: nat): Ty
    requires UnitBits(bits)
  {
    Uint(if bits == 8 then W8 else if bits == 16 then W16 else if bits == 32 then W32 else if bits == 64 then W64 else W128)
  }

  function SmallestUint(bits: nat): (r: Option<nat>)
    ensures r.Some? <==> bits <= 128
    ensures r.Some? ==> UnitBits(r.value) && bits <= r.value && (r.value > 8 ==> bits > r.value / 2)
  {
    if bits <= 8 then Some(8)
    else if bits <= 16 then Some(16)
    else if bits <= 32 then Some(32)
    else if bits <= 64 then Some(64)
    else if bits <= 128 then Some(128)
    else None
  }

  /** `bitfield_storage_ty`: the unsigned storage type, the signedness and the width of a declared type. */
  function StorageTy(ty: Ty): (r: Option<(Ty, bool, nat)>)
    ensures r.Some? ==> r.value.0.Uint? && r.value.2 == IntBits(r.value.0.uw) && UnitBits(r.value.2)
  {
    match ty
    case Bool => Some((Uint(W8), false, 8))
    case Char => Some((Uint(W8), false, 8))
    case Uint(w) => Some((Uint(w), false, IntBits(w)))
    case Int(w) => Some((Uint(w), true, IntBits(w)))
    case Enum(_) => Some((Uint(W32), false, 32))
    case Alias(target) => StorageTy(target)
    case _ => None
  }

  /** Records the new type of storage `index` in the logical fields from `from` on. */
  function Retype(logical: seq<LogicalField>, from: nat, index: nat, ty: Ty): (r: seq<LogicalField>)
    ensures |r| == |logical|
  {
    seq(|logical|, k requires 0 <= k < |logical| =>
      if k >= from && logical[k].kind.Bitfield? && logical[k].kind.storageIndex == index
      then logical[k].(kind := logical[k].kind.(storageTy := ty)) else logical[k])
  }

  predicate Crosses(at: nat, width: nat, unit: nat)
    requires unit > 0 && width > 0
  {
    at / unit != (at + width - 1) / unit
  }

  /** Where the next bit-field of `width` bits and declared unit `unit` goes. */
  function Candidate(st: Layout, unit: nat, width: nat): nat
    requires unit > 0 && width > 0
  {
    if st.open.Some? && Since(st.absBit, st.open.value.start) + width <= st.open.value.bits then st.absBit
    else if Crosses(st.absBit, width, unit) then RoundUpBit(st.absBit, unit)
    else st.absBit
  }

  /** Saturating subtraction. */
  function Since(a: nat, b: nat): nat {
    if a >= b then a - b else 0
  }

  // ---- steps ----

  function OpenUnit(st: Layout, ty: Ty, unit: nat, at: nat): Layout {
    st.(emitted := st.emitted + [StructField(Storage(|st.emitted|), ty)],
        open := Some(OpenStorage(|st.emitted|, ty, unit, at, |st.logical|)))
  }

  /** The width the open unit must grow to for a field at `at`, when it can grow in place. */
  function Growth(open: OpenStorage, width: nat, at: nat): Option<nat>
    requires open.start <= at
  {
    var needed := SmallestUint(at - open.start + width);
    if needed.Some? && needed.value > open.bits && (open.start / 8) % (needed.value / 8) == 0 then needed else None
  }

  function GrowUnit(st: Layout, needed: nat): Layout
    requires st.open.Some? && st.open.value.index < |st.emitted| && UnitBits(needed)
  {
    var open := st.open.value;
    var ty := UnsignedTy(needed);
    st.(emitted := st.emitted[open.index := st.emitted[open.index].(ty := ty)],
        logical := Retype(st.logical, open.firstLogical, open.index, ty),
        open := Some(open.(ty := ty, bits := needed)))
  }

  /** `ensure_bitfield_storage`: the unit that holds a field at `at`, and the field's offset in it. */
  function Ensure(st: Layout, ty: Ty, unit: nat, width: nat, at: nat): (Layout, nat, nat)
    requires unit > 0
    requires st.open.Some? ==> st.open.value.start <= at && st.open.value.index < |st.emitted|
  {
    if st.open.None? then (OpenUnit(st, ty, unit, at), |st.emitted|, 0)
    else
      var open := st.open.value;
      var rel := at - open.start;
      if rel + width <= open.bits then (st, open.index, rel)
      else if at % unit == 0 || Growth(open, width, at).None? then (OpenUnit(st, ty, unit, at), |st.emitted|, 0)
      else (GrowUnit(st, Growth(open, width, at).value), open.index, rel)
  }

  /** A named bit-field is entered into the table and counts for the record's alignment. */
  function Enter(st: Layout, name: string, ty: Ty, unit: nat, storageTy: Ty, index: nat, offset: nat, width: nat, isSigned: bool): Layout {
    if name == "" then st
    else
      var actual := if st.open.Some? then st.open.value.ty else storageTy;
      st.(maxAlign := Max(st.maxAlign, unit),
          logical := st.logical + [LogicalField(name, ty, Bitfield(index, actual, offset, width, isSigned))])
  }

  function PlaceInStruct(st: Layout, name: string, ty: Ty, storage: (Ty, bool, nat), width: nat): Layout
    requires storage.2 > 0 && width > 0
    requires st.open.Some? ==> st.open.value.start <= st.absBit && st.open.value.index < |st.emitted|
  {
    RoundUpBounds(st.absBit, storage.2);
    var at := Candidate(st, storage.2, width);
    PlaceAt(st, name, ty, storage, width, at)
  }

  function PlaceAt(st: Layout, name: string, ty: Ty, storage: (Ty, bool, nat), width: nat, at: nat): Layout
    requires storage.2 > 0 && width > 0
    requires st.open.Some? ==> st.open.value.start <= at && st.open.value.index < |st.emitted|
  {
    var (storageTy, isSigned, unit) := storage;
    var (placed, index, offset) := Ensure(st, storageTy, unit, width, at);
    Enter(placed.(absBit := at + width), name, ty, unit, storageTy, index, offset, width, isSigned).(zeroLast := false)
  }

  /** In a union every bit-field gets a storage field of its own and starts at bit 0. */
  function PlaceInUnion(st: Layout, name: string, ty: Ty, storage: (Ty, bool, nat), width: nat): Layout {
    var (storageTy, isSigned, unit) := storage;
    var placed := st.(absBit := 0, emitted := st.emitted + [StructField(Storage(|st.emitted|), storageTy)]);
    Enter(placed, name, ty, unit, storageTy, |st.emitted|, 0, width, isSigned).(zeroLast := false)
  }

  /** A zero-width bit-field moves the cursor to its type's boundary; the open unit stays open. */
  function ZeroWidth(st: Layout, kind: RecordKind, unit: nat): Layout
    requires unit > 0
  {
    if kind == Union then st.(absBit := 0, zeroLast := true)
    else st.(beforeZero := st.absBit, absBit := RoundUpBit(st.absBit, unit), zeroLast := true)
  }

  predicate IsAnonymous(st: Layout, index: nat) {
    !exists k :: 0 <= k < |st.logical| && st.logical[k].kind.Bitfield? && st.logical[k].kind.storageIndex == index
                 && st.logical[k].name != ""
  }

  /** Narrows storage `open` to the smallest integer covering `used` bits, wherever it is recorded. */
  function Shrink(st: Layout, open: OpenStorage, used: nat): Layout
    requires open.index < |st.emitted|
  {
    var needed := SmallestUint(used);
    if used < open.bits && needed.Some? && needed.value < open.bits then
      var ty := UnsignedTy(needed.value);
      st.(emitted := st.emitted[open.index := st.emitted[open.index].(ty := ty)],
          logical := Retype(st.logical, 0, open.index, ty))
    else st
  }

  /** A plain member closes the open unit and shrinks it to the bits in use. */
  function CloseUnit(st: Layout): Layout
    requires st.open.Some? ==> st.open.value.index < |st.emitted|
  {
    if st.open.None? then st
    else
      var open := st.open.value;
      var used := Since(st.absBit, open.start);
      var closed := st.(open := None);
      if used < open.bits && IsAnonymous(st, open.index) then
        var bytes := (used + 7) / 8;
        if bytes > 0 then
          closed.(emitted := st.emitted[open.index := st.emitted[open.index].(ty := Array(Literal(bytes), Uint(W8)))])
        else closed
      else Shrink(closed, open, used)
  }

  function AddMember(st: Layout, kind: RecordKind, name: string, ty: Ty): Layout {
    var layout := BitLayout(ty);
    var pushed := st.(emitted := st.emitted + [StructField(User(name), ty)]);
    var moved :=
      if kind == Union then pushed.(absBit := 0)
      else if layout.Some? then
        pushed.(maxAlign := Max(st.maxAlign, layout.value.1),
                absBit := RoundUpBit(st.absBit, layout.value.1) + layout.value.0)
      else pushed;
    moved.(logical := st.logical + [LogicalField(name, ty, Direct(|st.emitted|))], zeroLast := false)
  }

  function Validate(m: Member, kind: RecordKind, isLast: bool): Result<()> {
    if m.width.Some? then
      if m.width.value < 0 then Err(NegativeWidth)
      else if m.isUnsized then Err(UnsizedBitfield)
      else if StorageTy(m.ty).None? then Err(NotIntegral)
      else if m.width.value > StorageTy(m.ty).value.2 then Err(TooWide)
      else if m.width.value == 0 && m.name != "" then Err(NamedZeroWidth)
      else Ok(())
    else if m.isUnsized && (!isLast || kind == Union) then Err(UnsizedMember)
    else Ok(())
  }

  function AddOne(st: Layout, kind: RecordKind, m: Member): Layout
    requires Validate(m, kind, true).Ok?
    requires st.open.Some? ==> st.open.value.start <= st.absBit && st.open.value.index < |st.emitted|
  {
    if m.width.None? then AddMember(CloseUnit(st), kind, m.name, m.ty)
    else
      var storage := StorageTy(m.ty).value;
      if m.width.value == 0 then ZeroWidth(st, kind, storage.2)
      else if kind == Union then PlaceInUnion(st, m.name, m.ty, storage, m.width.value)
      else PlaceInStruct(st, m.name, m.ty, storage, m.width.value)
  }

  // ---- after the last member ----

  /** Bytes the emitted fields take, as far as their layout is known. */
  function EmittedBytes(fields: seq<StructField>): nat {
    if fields == [] then 0
    else
      var before := EmittedBytes(fields[..|fields| - 1]);
      var layout := BitLayout(fields[|fields| - 1].ty);
      if layout.Some? then RoundUpBit(before * 8, layout.value.1) / 8 + layout.value.0 / 8 else before
  }

  function PadTrailing(st: Layout, kind: RecordKind): Layout {
    var needed := (st.absBit + 7) / 8;
    var have := Max(EmittedBytes(st.emitted), (st.beforeZero + 7) / 8);
    if st.zeroLast && kind == Struct && needed > have then
      st.(emitted := st.emitted + [StructField(TrailingPad, Array(Literal(needed - have), Uint(W8)))])
    else st
  }

  function ShrinkLast(st: Layout): Layout
    requires st.open.Some? ==> st.open.value.index < |st.emitted|
  {
    if st.open.None? then st
    else Shrink(st.(open := None), st.open.value, Since(st.absBit, st.open.value.start))
  }

  function EmittedAlign(fields: seq<StructField>): (a: nat)
    ensures UnitBits(a)
  {
    if fields == [] then 8
    else
      var layout := BitLayout(fields[|fields| - 1].ty);
      var before := EmittedAlign(fields[..|fields| - 1]);
      if layout.Some? then Max(before, layout.value.1) else before
  }

  function Finish(st: Layout, kind: RecordKind): Layout
    requires st.open.Some? ==> st.open.value.index < |st.emitted|
  {
    ShrinkLast(PadTrailing(st, kind))
  }

  /** A zero-sized array restores the record's alignment if shrinking lost it. The alignment has to be
      that of some unsigned integer; the source panics when an odd pack makes it something else. */
  function AddPhantom(st: Layout, kind: RecordKind, pack: Option<nat>): Result<Layout> {
    var wanted := if pack.Some? then Min(st.maxAlign, pack.value * 8) else st.maxAlign;
    if kind == Union || st.emitted == [] || wanted <= EmittedAlign(st.emitted) then Ok(st)
    else if !UnitBits(wanted) then Err(UnsupportedWidth)
    else Ok(st.(emitted := st.emitted + [StructField(AlignPhantom, Array(Literal(0), UnsignedTy(wanted)))]))
  }
}
