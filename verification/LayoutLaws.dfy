/** Soundness of the layout: fields in order and apart, designators inside the object, natural alignment,
    and agreement with the record builder's own bit layout. */
module LayoutLaws {
  import opened CTypes
  import opened Layouts

  // ---- rounding ----

  lemma RoundUpFacts(value: nat, align: nat)
    ensures value <= RoundUp(value, align)
    ensures align >= 1 ==> RoundUp(value, align) % align == 0
  {
    if align > 1 { RoundUpBounds(value, align); }
  }

  // ---- fields of a struct ----

  lemma {:induction false} PrefixEnds(fields: seq<Ty>, pack: Option<nat>, i: nat)
    requires i <= |fields| && StructEnd(fields, pack).Some?
    ensures StructEnd(fields[..i], pack).Some?
    ensures StructEnd(fields[..i], pack).value.size <= StructEnd(fields, pack).value.size
    decreases |fields|
  {
    if i < |fields| {
      var front := fields[..|fields| - 1];
      assert front[..i] == fields[..i];
      PrefixEnds(front, pack, i);
      RoundUpFacts(StructEnd(front, pack).value.size, Capped(SizeOf(fields[|fields| - 1]).value.align, pack));
    } else {
      assert fields[..i] == fields;
    }
  }

  /** A field starts at its capped alignment and ends where the struct's first `i + 1` fields end. */
  lemma FieldSpan(fields: seq<Ty>, pack: Option<nat>, i: nat)
    requires i < |fields| && StructEnd(fields, pack).Some?
    ensures SizeOf(fields[i]).Some? && FieldStart(fields, pack, i).Some?
    ensures StructEnd(fields[..i + 1], pack).Some?
    ensures FieldStart(fields, pack, i).value + SizeOf(fields[i]).value.size == StructEnd(fields[..i + 1], pack).value.size
    ensures var align := Capped(SizeOf(fields[i]).value.align, pack); align >= 1 ==> FieldStart(fields, pack, i).value % align == 0
  {
    PrefixEnds(fields, pack, i + 1);
    assert fields[..i + 1][..i] == fields[..i];
    RoundUpFacts(StructEnd(fields[..i], pack).value.size, Capped(SizeOf(fields[i]).value.align, pack));
  }

  /** Fields lie one after the other, without overlap, whatever the packing. */
  lemma FieldsInOrder(fields: seq<Ty>, pack: Option<nat>, i: nat, j: nat)
    requires i < j < |fields| && StructEnd(fields, pack).Some?
    ensures FieldStart(fields, pack, i).Some? && FieldStart(fields, pack, j).Some? && SizeOf(fields[i]).Some?
    ensures FieldStart(fields, pack, i).value + SizeOf(fields[i]).value.size <= FieldStart(fields, pack, j).value
  {
    FieldSpan(fields, pack, i);
    FieldSpan(fields, pack, j);
    PrefixEnds(fields, pack, j);
    assert fields[..j][..i + 1] == fields[..i + 1];
    PrefixEnds(fields[..j], pack, i + 1);
    RoundUpFacts(StructEnd(fields[..j], pack).value.size, Capped(SizeOf(fields[j]).value.align, pack));
  }

  lemma {:induction false} UnionHolds(fields: seq<Ty>, pack: Option<nat>, i: nat)
    requires i < |fields| && UnionEnd(fields, pack).Some?
    ensures SizeOf(fields[i]).Some? && SizeOf(fields[i]).value.size <= UnionEnd(fields, pack).value.size
    decreases |fields|
  {
    if i < |fields| - 1 {
      assert fields[..|fields| - 1][i] == fields[i];
      UnionHolds(fields[..|fields| - 1], pack, i);
    }
  }

  // ---- designators stay inside ----

  /** Index designators within the array they index. */
  predicate StepInRange(ty: Ty, step: Designator) {
    match step
    case Member(_) => true
    case Index(i) => Peel(ty).Array? && Length(Peel(ty).len).Some? && 0 <= i < Length(Peel(ty).len).value
  }

  predicate InRange(ty: Ty, steps: seq<Designator>) {
    steps == []
    || (InRange(ty, steps[..|steps| - 1])
        && PlaceOf(ty, steps[..|steps| - 1]).Some?
        && StepInRange(PlaceOf(ty, steps[..|steps| - 1]).value.ty, steps[|steps| - 1]))
  }

  /** The place of a part, and the part itself, lie within an object of type `ty`. */
  ghost predicate Within(ty: Ty, p: Place) {
    SizeOf(ty).Some? && SizeOf(p.ty).Some? && p.offset + SizeOf(p.ty).value.size <= SizeOf(ty).value.size
  }

  lemma FieldWithin(ty: Ty, i: nat)
    requires SizeOf(ty).Some? && FieldPlace(ty, i).Some?
    ensures Within(ty, FieldPlace(ty, i).value)
  {
    var r := Peel(ty);
    if r.kind == Union {
      UnionHolds(r.fields, r.pack, i);
      RoundUpFacts(UnionEnd(r.fields, r.pack).value.size, UnionEnd(r.fields, r.pack).value.align);
    } else {
      FieldSpan(r.fields, r.pack, i);
      PrefixEnds(r.fields, r.pack, i + 1);
      RoundUpFacts(StructEnd(r.fields, r.pack).value.size, StructEnd(r.fields, r.pack).value.align);
    }
  }

  lemma {:induction false} MemberWithin(ty: Ty, path: seq<nat>)
    requires SizeOf(ty).Some? && MemberPlace(ty, path).Some?
    ensures Within(ty, MemberPlace(ty, path).value)
    decreases |path|
  {
    if path != [] {
      var front := path[..|path| - 1];
      MemberWithin(ty, front);
      FieldWithin(MemberPlace(ty, front).value.ty, path[|path| - 1]);
    }
  }

  lemma IndexWithin(i: nat, n: nat, size: nat)
    requires i < n
    ensures i * size + size <= size * n
  {
    assert (i + 1) * size <= n * size by { Monotone(i + 1, n, size); }
  }

  lemma Monotone(a: nat, b: nat, c: nat)
    requires a <= b
    ensures a * c <= b * c
  {
  }

  /** Whatever an in-range designator names lies inside the object, for any nesting and any packing. */
  lemma {:induction false} DesignatorWithin(ty: Ty, steps: seq<Designator>)
    requires SizeOf(ty).Some? && PlaceOf(ty, steps).Some? && InRange(ty, steps)
    ensures Within(ty, PlaceOf(ty, steps).value)
    decreases |steps|
  {
    if steps != [] {
      var front, step := steps[..|steps| - 1], steps[|steps| - 1];
      DesignatorWithin(ty, front);
      var cur := PlaceOf(ty, front).value.ty;
      match step {
        case Member(path) => MemberWithin(Peel(cur), path);
        case Index(i) => IndexWithin(i, Length(Peel(cur).len).value, SizeOf(Peel(cur).elem).value.size);
      }
    }
  }

  // ---- alignment ----

  /** The alignments of scalar types. */
  predicate ByteAlign(a: nat) {
    a == 1 || a == 2 || a == 4 || a == 8 || a == 16
  }

  /** No record inside `ty` is packed. */
  predicate Unpacked(ty: Ty) {
    match ty
    case Array(_, elem) => Unpacked(elem)
    case Record(_, fields, pack) => pack == None && forall f :: f in fields ==> Unpacked(f)
    case Enum(payload) => Unpacked(payload)
    case Alias(target) => Unpacked(target)
    case Complex(part) => Unpacked(part)
    case MaybeUninit(inner) => Unpacked(inner)
    case _ => true
  }

  /** A power of two; from 16 bytes on a pack caps nothing. */
  predicate PowerPack(pack: Option<nat>) {
    pack.None? || ByteAlign(pack.value) || pack.value > 16
  }

  /** Every pack inside `ty` is a power of two. */
  predicate PowerPacked(ty: Ty) {
    match ty
    case Array(_, elem) => PowerPacked(elem)
    case Record(_, fields, pack) => PowerPack(pack) && forall f :: f in fields ==> PowerPacked(f)
    case Enum(payload) => PowerPacked(payload)
    case Alias(target) => PowerPacked(target)
    case Complex(part) => PowerPacked(part)
    case MaybeUninit(inner) => PowerPacked(inner)
    case _ => true
  }

  lemma {:induction false} UnpackedPower(ty: Ty)
    requires Unpacked(ty)
    ensures PowerPacked(ty)
    decreases ty
  {
    match ty {
      case Array(_, elem) => UnpackedPower(elem);
      case Record(_, fields, _) =>
        forall f | f in fields
          ensures PowerPacked(f)
        {
          UnpackedPower(f);
        }
      case Enum(payload) => UnpackedPower(payload);
      case Alias(target) => UnpackedPower(target);
      case Complex(part) => UnpackedPower(part);
      case MaybeUninit(inner) => UnpackedPower(inner);
      case _ =>
    }
  }

  lemma {:induction false} AlignOf(ty: Ty)
    requires PowerPacked(ty) && SizeOf(ty).Some?
    ensures ByteAlign(SizeOf(ty).value.align)
    decreases ty
  {
    match ty {
      case Array(_, elem) => AlignOf(elem);
      case Record(Struct, fields, pack) => StructAlign(fields, pack);
      case Record(Union, fields, pack) => UnionAlign(fields, pack);
      case Enum(payload) => AlignOf(payload);
      case Alias(target) => AlignOf(target);
      case Complex(part) => AlignOf(part);
      case MaybeUninit(inner) => AlignOf(inner);
      case _ =>
    }
  }

  lemma {:induction false} StructAlign(fields: seq<Ty>, pack: Option<nat>)
    requires PowerPack(pack) && (forall f :: f in fields ==> PowerPacked(f)) && StructEnd(fields, pack).Some?
    ensures ByteAlign(StructEnd(fields, pack).value.align)
    decreases fields
  {
    if fields != [] {
      assert fields[|fields| - 1] in fields;
      StructAlign(fields[..|fields| - 1], pack);
      AlignOf(fields[|fields| - 1]);
    }
  }

  lemma {:induction false} UnionAlign(fields: seq<Ty>, pack: Option<nat>)
    requires PowerPack(pack) && (forall f :: f in fields ==> PowerPacked(f)) && UnionEnd(fields, pack).Some?
    ensures ByteAlign(UnionEnd(fields, pack).value.align)
    decreases fields
  {
    if fields != [] {
      assert fields[|fields| - 1] in fields;
      UnionAlign(fields[..|fields| - 1], pack);
      AlignOf(fields[|fields| - 1]);
    }
  }

  lemma {:induction false} FieldAlignFits(fields: seq<Ty>, kind: RecordKind, i: nat)
    requires i < |fields| && (if kind == Struct then StructEnd(fields, None) else UnionEnd(fields, None)).Some?
    ensures SizeOf(fields[i]).Some?
    ensures SizeOf(fields[i]).value.align <= (if kind == Struct then StructEnd(fields, None) else UnionEnd(fields, None)).value.align
    decreases |fields|
  {
    if i < |fields| - 1 {
      assert fields[..|fields| - 1][i] == fields[i];
      FieldAlignFits(fields[..|fields| - 1], kind, i);
    }
  }

  lemma SmallerDivides(x: nat, a: nat, b: nat)
    requires ByteAlign(a) && ByteAlign(b) && a <= b && x % b == 0
    ensures x % a == 0
  {
    var k, q := b / a, x / b;
    assert b == k * a;
    assert x == q * b == (q * k) * a;
    Multiple(q * k, a);
  }

  lemma SumDivides(x: nat, y: nat, a: nat)
    requires ByteAlign(a) && x % a == 0 && y % a == 0
    ensures (x + y) % a == 0
  {
    var p, q := x / a, y / a;
    assert x == p * a && y == q * a && x + y == (p + q) * a;
    Multiple(p + q, a);
  }

  lemma ProductDivides(i: nat, x: nat, a: nat)
    requires a >= 1 && x % a == 0
    ensures (i * x) % a == 0
  {
    var q := x / a;
    assert x == q * a;
    assert i * x == (i * q) * a;
    Multiple(i * q, a);
  }

  predicate Whole(r: SizeAlign)
    requires r.align >= 1
  {
    r.size % r.align == 0
  }

  lemma ClosedWhole(end: SizeAlign)
    requires end.align >= 1
    ensures Whole(Closed(Some(end)).value)
  {
    RoundUpFacts(end.size, end.align);
  }

  lemma TimesWhole(r: SizeAlign, n: nat)
    requires r.align >= 1 && Whole(r)
    ensures Whole(SizeAlign(r.size * n, r.align))
  {
    ProductDivides(n, r.size, r.align);
  }

  /** A size is a whole number of alignments, packed or not, so array elements stay aligned. */
  lemma {:induction false} SizeIsMultiple(ty: Ty)
    requires SizeOf(ty).Some?
    ensures Whole(SizeOf(ty).value)
    decreases ty
  {
    match ty {
      case Array(len, elem) =>
        SizeIsMultiple(elem);
        TimesWhole(SizeOf(elem).value, Length(len).value);
      case Record(Struct, fields, pack) => ClosedWhole(StructEnd(fields, pack).value);
      case Record(Union, fields, pack) => ClosedWhole(UnionEnd(fields, pack).value);
      case Enum(payload) => ClosedWhole(SizeOf(payload).value);
      case Alias(target) => SizeIsMultiple(target);
      case Complex(part) =>
        SizeIsMultiple(part);
        TimesWhole(SizeOf(part).value, 2);
      case MaybeUninit(inner) => SizeIsMultiple(inner);
      case _ =>
    }
  }

  /** A part at a multiple of its own alignment, in a type without packing. */
  ghost predicate Natural(p: Place) {
    Unpacked(p.ty) && SizeOf(p.ty).Some? && ByteAlign(SizeOf(p.ty).value.align) && p.offset % SizeOf(p.ty).value.align == 0
  }

  lemma FieldNatural(ty: Ty, i: nat)
    requires Unpacked(ty) && SizeOf(ty).Some? && FieldPlace(ty, i).Some?
    ensures Natural(FieldPlace(ty, i).value)
    ensures SizeOf(FieldPlace(ty, i).value.ty).value.align <= SizeOf(ty).value.align
  {
    PeelUnpacked(ty);
    var r := Peel(ty);
    assert r.fields[i] in r.fields;
    FieldAlignFits(r.fields, r.kind, i);
    UnpackedPower(r.fields[i]);
    AlignOf(r.fields[i]);
    if r.kind == Struct { FieldSpan(r.fields, None, i); }
  }

  lemma {:induction false} PeelUnpacked(ty: Ty)
    requires Unpacked(ty)
    ensures Unpacked(Peel(ty))
  {
    if ty.Alias? { PeelUnpacked(ty.target); }
  }

  lemma NaturalSum(front: Place, last: Place)
    requires Natural(front) && Natural(last) && SizeOf(last.ty).value.align <= SizeOf(front.ty).value.align
    ensures Natural(Place(front.offset + last.offset, last.ty))
  {
    SmallerDivides(front.offset, SizeOf(last.ty).value.align, SizeOf(front.ty).value.align);
    SumDivides(front.offset, last.offset, SizeOf(last.ty).value.align);
  }

  lemma {:induction false} MemberNatural(ty: Ty, path: seq<nat>)
    requires Unpacked(ty) && SizeOf(ty).Some? && MemberPlace(ty, path).Some?
    ensures Natural(MemberPlace(ty, path).value)
    ensures SizeOf(MemberPlace(ty, path).value.ty).value.align <= SizeOf(ty).value.align
    decreases |path|
  {
    UnpackedPower(ty);
    AlignOf(ty);
    if path != [] {
      var front := MemberPlace(ty, path[..|path| - 1]).value;
      MemberNatural(ty, path[..|path| - 1]);
      FieldNatural(front.ty, path[|path| - 1]);
      var last := FieldPlace(front.ty, path[|path| - 1]).value;
      NaturalSum(front, last);
    }
  }

  lemma StepNatural(ty: Ty, step: Designator)
    requires Unpacked(ty) && SizeOf(ty).Some? && StepPlace(ty, step).Some?
    ensures Natural(StepPlace(ty, step).value)
    ensures SizeOf(StepPlace(ty, step).value.ty).value.align <= SizeOf(ty).value.align
  {
    PeelUnpacked(ty);
    match step {
      case Member(path) => MemberNatural(Peel(ty), path);
      case Index(i) =>
        var elem := Peel(ty).elem;
        UnpackedPower(elem);
        AlignOf(elem);
        SizeIsMultiple(elem);
        ProductDivides(i, SizeOf(elem).value.size, SizeOf(elem).value.align);
    }
  }

  /** Without packing, everything a designator names is naturally aligned, in range or not. */
  lemma {:induction false} DesignatorNatural(ty: Ty, steps: seq<Designator>)
    requires Unpacked(ty) && SizeOf(ty).Some? && PlaceOf(ty, steps).Some?
    ensures Natural(PlaceOf(ty, steps).value)
    decreases |steps|
  {
    PeelUnpacked(ty);
    UnpackedPower(Peel(ty));
    AlignOf(Peel(ty));
    if steps != [] {
      var front, step := PlaceOf(ty, steps[..|steps| - 1]).value, steps[|steps| - 1];
      DesignatorNatural(ty, steps[..|steps| - 1]);
      StepNatural(front.ty, step);
      var last := StepPlace(front.ty, step).value;
      NaturalSum(front, last);
    }
  }

  // ---- packed types ----

  /** The alignment a field is placed at, capped by its record's pack. */
  function FieldCap(ty: Ty, i: nat): nat {
    var peeled := Peel(ty);
    if peeled.Record? && i < |peeled.fields| && SizeOf(peeled.fields[i]).Some?
    then Capped(SizeOf(peeled.fields[i]).value.align, peeled.pack) else 16
  }

  /** The smallest such alignment along a path of fields; 16 bytes is the largest there is. */
  function MemberCap(ty: Ty, path: seq<nat>): nat {
    if path == [] then 16
    else
      var front := MemberPlace(ty, path[..|path| - 1]);
      if front.None? then 16
      else Min(MemberCap(ty, path[..|path| - 1]), FieldCap(front.value.ty, path[|path| - 1]))
  }

  function StepCap(ty: Ty, step: Designator): nat {
    match step
    case Member(path) => MemberCap(Peel(ty), path)
    case Index(_) => if Peel(ty).Array? && SizeOf(Peel(ty).elem).Some? then SizeOf(Peel(ty).elem).value.align else 16
  }

  function PathCap(ty: Ty, steps: seq<Designator>): nat {
    if steps == [] then 16
    else
      var front := PlaceOf(ty, steps[..|steps| - 1]);
      if front.None? then 16
      else Min(PathCap(ty, steps[..|steps| - 1]), StepCap(front.value.ty, steps[|steps| - 1]))
  }

  /** A part of a type with power-of-two packs, at a multiple of `cap`. */
  ghost predicate AlignedTo(p: Place, cap: nat) {
    PowerPacked(p.ty) && SizeOf(p.ty).Some? && ByteAlign(cap) && p.offset % cap == 0
  }

  lemma AlignedSum(front: Place, a: nat, last: Place, b: nat)
    requires AlignedTo(front, a) && AlignedTo(last, b)
    ensures AlignedTo(Place(front.offset + last.offset, last.ty), Min(a, b))
  {
    SmallerDivides(front.offset, Min(a, b), a);
    SmallerDivides(last.offset, Min(a, b), b);
    SumDivides(front.offset, last.offset, Min(a, b));
  }

  lemma {:induction false} PeelPower(ty: Ty)
    requires PowerPacked(ty)
    ensures PowerPacked(Peel(ty))
  {
    if ty.Alias? { PeelPower(ty.target); }
  }

  lemma FieldAligned(ty: Ty, i: nat)
    requires PowerPacked(ty) && SizeOf(ty).Some? && FieldPlace(ty, i).Some?
    ensures AlignedTo(FieldPlace(ty, i).value, FieldCap(ty, i))
  {
    PeelPower(ty);
    var r := Peel(ty);
    assert r.fields[i] in r.fields;
    if r.kind == Struct {
      FieldSpan(r.fields, r.pack, i);
    } else {
      UnionHolds(r.fields, r.pack, i);
    }
    AlignOf(r.fields[i]);
  }

  lemma {:induction false} MemberAligned(ty: Ty, path: seq<nat>)
    requires PowerPacked(ty) && SizeOf(ty).Some? && MemberPlace(ty, path).Some?
    ensures AlignedTo(MemberPlace(ty, path).value, MemberCap(ty, path))
    decreases |path|
  {
    if path != [] {
      var before, i := path[..|path| - 1], path[|path| - 1];
      MemberAligned(ty, before);
      var front := MemberPlace(ty, before).value;
      FieldAligned(front.ty, i);
      AlignedSum(front, MemberCap(ty, before), FieldPlace(front.ty, i).value, FieldCap(front.ty, i));
    }
  }

  lemma StepAligned(ty: Ty, step: Designator)
    requires PowerPacked(ty) && SizeOf(ty).Some? && StepPlace(ty, step).Some?
    ensures AlignedTo(StepPlace(ty, step).value, StepCap(ty, step))
  {
    PeelPower(ty);
    match step {
      case Member(path) => MemberAligned(Peel(ty), path);
      case Index(i) =>
        var elem := Peel(ty).elem;
        AlignOf(elem);
        SizeIsMultiple(elem);
        ProductDivides(i, SizeOf(elem).value.size, SizeOf(elem).value.align);
    }
  }

  /** With power-of-two packs, everything a designator names lies at a multiple of the smallest capped alignment
      along its path. */
  lemma {:induction false} DesignatorAligned(ty: Ty, steps: seq<Designator>)
    requires PowerPacked(ty) && SizeOf(ty).Some? && PlaceOf(ty, steps).Some?
    ensures AlignedTo(PlaceOf(ty, steps).value, PathCap(ty, steps))
    decreases |steps|
  {
    PeelPower(ty);
    if steps != [] {
      var before, step := steps[..|steps| - 1], steps[|steps| - 1];
      DesignatorAligned(ty, before);
      var front := PlaceOf(ty, before).value;
      StepAligned(front.ty, step);
      AlignedSum(front, PathCap(ty, before), StepPlace(front.ty, step).value, StepCap(front.ty, step));
    }
  }

  // ---- the record builder's layout is the same one, in bits ----

  /** No unions, no packing, and enums of 32 bits. */
  predicate Plain(ty: Ty) {
    match ty
    case Array(_, elem) => Plain(elem)
    case Record(kind, fields, pack) => kind == Struct && pack == None && forall f :: f in fields ==> Plain(f)
    case Enum(payload) => payload == Int(W32) || payload == Uint(W32)
    case Alias(target) => Plain(target)
    case _ => true
  }

  lemma RoundUpScales(x: nat, a: nat)
    requires a >= 1
    ensures RoundUpBit(8 * x, 8 * a) == 8 * RoundUp(x, a)
  {
    if a == 1 {
      Quotient(x, 7, 8);
    } else {
      RoundUpBounds(x, a);
      var r := RoundUpBit(x, a);
      var q := r / a;
      assert r == q * a;
      var slack := r - x;
      assert 8 * x + 8 * a - 1 == q * (8 * a) + (8 * a - 1 - 8 * slack) by { assert q * (8 * a) == 8 * (q * a); }
      Quotient(q, 8 * a - 1 - 8 * slack, 8 * a);
      assert RoundUpBit(8 * x, 8 * a) == q * (8 * a);
    }
  }

  /** The bit layout and the byte layout of one type. */
  ghost predicate SameLayout(bits: (nat, nat), bytes: SizeAlign) {
    bits.0 == 8 * bytes.size && bits.1 == 8 * bytes.align
  }

  /** The record builder and `sizeof` know the type's layout and mean the same by it. */
  ghost predicate Agrees(ty: Ty) {
    BitLayout(ty).Some? && SizeOf(ty).Some? && SameLayout(BitLayout(ty).value, SizeOf(ty).value)
  }

  ghost predicate AllAgree(fields: seq<Ty>) {
    forall f :: f in fields ==> Agrees(f)
  }

  /** Where the fields end, in bits and in bytes. */
  ghost predicate EndsAgree(bits: Option<(nat, nat)>, bytes: Option<SizeAlign>) {
    bits.Some? && bytes.Some? && SameLayout(bits.value, bytes.value)
  }

  /** One more field that agrees: both layouts put it at the same place. */
  lemma EndsFurther(bits: (nat, nat), bytes: SizeAlign, fieldBits: (nat, nat), field: SizeAlign)
    requires SameLayout(bits, bytes) && SameLayout(fieldBits, field) && field.align >= 1
    ensures SameLayout((RoundUpBit(bits.0, fieldBits.1) + fieldBits.0, Max(bits.1, fieldBits.1)),
                       SizeAlign(RoundUp(bytes.size, field.align) + field.size, Max(bytes.align, field.align)))
  {
    RoundUpScales(bytes.size, field.align);
  }

  lemma {:induction false} FieldsAgree(fields: seq<Ty>)
    requires AllAgree(fields)
    ensures EndsAgree(BitLayoutFields(fields), StructEnd(fields, None))
    decreases |fields|
  {
    if fields != [] {
      var front, last := fields[..|fields| - 1], fields[|fields| - 1];
      assert last in fields;
      FieldsAgree(front);
      EndsFurther(BitLayoutFields(front).value, StructEnd(front, None).value, BitLayout(last).value, SizeOf(last).value);
    }
  }

  /** The builder's layout of any record is that of an unpacked struct. */
  lemma BitsOfRecord(kind: RecordKind, fields: seq<Ty>, pack: Option<nat>)
    requires AllAgree(fields)
    ensures StructEnd(fields, None).Some?
    ensures var end := StructEnd(fields, None).value;
            BitLayout(Record(kind, fields, pack)) == Some((8 * RoundUp(end.size, end.align), 8 * end.align))
  {
    FieldsAgree(fields);
    RoundUpScales(StructEnd(fields, None).value.size, StructEnd(fields, None).value.align);
  }

  lemma {:induction false} FieldsKnown(fields: seq<Ty>)
    requires BitLayoutFields(fields).Some?
    ensures forall f :: f in fields ==> BitLayout(f).Some?
    decreases |fields|
  {
    if fields != [] {
      FieldsKnown(fields[..|fields| - 1]);
      assert forall f :: f in fields ==> f in fields[..|fields| - 1] || f == fields[|fields| - 1];
    }
  }

  lemma Scale(size: nat, n: nat)
    ensures (8 * size) * n == 8 * (size * n)
  {
  }

  /** Where the record builder can tell a plain type's layout, `sizeof` gives the same in bytes. */
  lemma {:induction false} LayoutsAgree(ty: Ty)
    requires Plain(ty) && BitLayout(ty).Some?
    ensures Agrees(ty)
    decreases ty
  {
    match ty {
      case Array(Literal(n), elem) =>
        LayoutsAgree(elem);
        Scale(SizeOf(elem).value.size, n);
      case Record(Struct, fields, _) =>
        PlainFieldsAgree(fields);
        BitsOfRecord(Struct, fields, None);
      case Alias(target) => LayoutsAgree(target);
      case _ =>
    }
  }

  lemma {:induction false} PlainFieldsAgree(fields: seq<Ty>)
    requires (forall f :: f in fields ==> Plain(f)) && BitLayoutFields(fields).Some?
    ensures AllAgree(fields)
    decreases fields
  {
    FieldsKnown(fields);
    forall f | f in fields
      ensures Agrees(f)
    {
      LayoutsAgree(f);
    }
  }

  // ---- exactly where the two layouts part ----

  /** The pack caps no field of a record with this alignment, or there is nothing to cap. */
  predicate CapsNothing(pack: Option<nat>, align: nat) {
    pack.None? || pack.value >= align || align == 1
  }

  lemma {:induction false} PackedStruct(fields: seq<Ty>, pack: Option<nat>)
    requires StructEnd(fields, None).Some?
    ensures StructEnd(fields, pack).Some?
    ensures CapsNothing(pack, StructEnd(fields, None).value.align) ==> StructEnd(fields, pack) == StructEnd(fields, None)
    ensures pack.Some? ==> StructEnd(fields, pack).value.align <= Max(1, pack.value)
    decreases |fields|
  {
    if fields != [] { PackedStruct(fields[..|fields| - 1], pack); }
  }

  /** A packed struct agrees exactly when its pack is not below its alignment, or there is none to lose. */
  lemma PackedStructAgrees(fields: seq<Ty>, pack: Option<nat>)
    requires AllAgree(fields)
    ensures StructEnd(fields, None).Some?
    ensures Agrees(Record(Struct, fields, pack)) <==> CapsNothing(pack, StructEnd(fields, None).value.align)
  {
    BitsOfRecord(Struct, fields, pack);
    PackedStruct(fields, pack);
  }

  lemma {:induction false} PackedUnion(fields: seq<Ty>, pack: Option<nat>)
    requires StructEnd(fields, None).Some?
    ensures UnionEnd(fields, pack).Some? && UnionEnd(fields, None).Some?
    ensures UnionEnd(fields, None).value.align == StructEnd(fields, None).value.align
    ensures CapsNothing(pack, StructEnd(fields, None).value.align) ==> UnionEnd(fields, pack) == UnionEnd(fields, None)
    ensures pack.Some? ==> UnionEnd(fields, pack).value.align <= Max(1, pack.value)
    decreases |fields|
  {
    if fields != [] { PackedUnion(fields[..|fields| - 1], pack); }
  }

  /** A union agrees exactly when its pack caps nothing and adding its members up makes no difference. */
  lemma UnionAgrees(fields: seq<Ty>, pack: Option<nat>)
    requires AllAgree(fields)
    ensures StructEnd(fields, None).Some? && UnionEnd(fields, None).Some?
    ensures var a := StructEnd(fields, None).value.align;
            Agrees(Record(Union, fields, pack))
            <==> CapsNothing(pack, a)
                 && RoundUp(StructEnd(fields, None).value.size, a) == RoundUp(UnionEnd(fields, None).value.size, a)
  {
    BitsOfRecord(Union, fields, pack);
    PackedUnion(fields, pack);
  }

  /** Wrapping a payload adds no padding. */
  lemma EnumIsPayload(payload: Ty)
    ensures SizeOf(Enum(payload)) == SizeOf(payload)
  {
    if SizeOf(payload).Some? {
      SizeIsMultiple(payload);
      var p := SizeOf(payload).value;
      if p.align > 1 { RoundUpBounds(p.size, p.align); }
    }
  }

  /** An enum agrees exactly when its payload has the size and alignment of an `int`. */
  lemma EnumAgrees(payload: Ty)
    ensures Agrees(Enum(payload)) <==> SizeOf(payload) == Some(SizeAlign(4, 4))
  {
    EnumIsPayload(payload);
    SameAsInt(Enum(payload), SizeOf(payload));
  }

  lemma SameAsInt(ty: Ty, bytes: Option<SizeAlign>)
    requires BitLayout(ty) == Some((32, 32)) && SizeOf(ty) == bytes
    ensures Agrees(ty) <==> bytes == Some(SizeAlign(4, 4))
  {
  }

  /** The builder adds a union's members up. */
  lemma UnionsDisagree()
    ensures var ty := Record(Union, [Int(W32), Int(W32)], None);
            BitLayout(ty) == Some((64, 32)) && SizeOf(ty) == Some(SizeAlign(4, 4))
  {
    var one, two := [Int(W32)], [Int(W32), Int(W32)];
    assert two[..1] == one && one[..0] == [];
    assert BitLayoutFields(one) == Some((32, 32));
    assert BitLayoutFields(two) == Some((64, 32));
    assert UnionEnd(one, None) == Some(SizeAlign(4, 4));
    assert UnionEnd(two, None) == Some(SizeAlign(4, 4));
  }
}
