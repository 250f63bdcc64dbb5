/** The layout rules behind `sizeof` and `offsetof`: sizes of scalars, tightness of records, composition of designators. */
module LayoutRules {
  import opened CTypes
  import opened Layouts
  import opened LayoutLaws
  import opened BitfieldPlacement

  // ---- types without fields ----

  /** Bytes of an integer type. */
  predicate IntBytes(w: IntWidth, n: nat) {
    match w
    case W8 => n == 1
    case W16 => n == 2
    case W32 => n == 4
    case W64 => n == 8
    case W128 => n == 16
    case WSize => n == 8
  }

  predicate FloatBytes(w: FloatWidth, n: nat) {
    match w
    case F16 => n == 2
    case F32 => n == 4
    case F64 => n == 8
    case F128 => n == 16
  }

  /** Scalars are as aligned as they are large: a `double` and a pointer take 8 bytes, a `long double` 16. */
  lemma ScalarSizes(ty: Ty)
    requires SizeOf(ty).Some?
    ensures var r := SizeOf(ty).value;
            match ty
            case Bool => r.size == r.align == 1
            case Char => r.size == r.align == 1
            case Int(w) => IntBytes(w, r.size) && r.align == r.size
            case Uint(w) => IntBytes(w, r.size) && r.align == r.size
            case Float(w) => FloatBytes(w, r.size) && r.align == r.size
            case Pointer => r.size == r.align == 8
            case Unit => r.size == 0 && r.align == 1
            case _ => true
  {
  }

  /** Typedefs, `MaybeUninit` and enums are laid out like what they stand for, a complex number like an array of two. */
  lemma WrappedSizes(ty: Ty)
    ensures SizeOf(Alias(ty)) == SizeOf(MaybeUninit(ty)) == SizeOf(Enum(ty)) == SizeOf(ty)
    ensures SizeOf(Complex(ty)) == SizeOf(Array(Literal(2), ty))
  {
    if SizeOf(ty).Some? {
      SizeIsMultiple(ty);
      WholeStays(SizeOf(ty).value);
    }
  }

  lemma WholeStays(r: SizeAlign)
    requires r.align >= 1 && r.size % r.align == 0
    ensures Layouts.Closed(Some(r)) == Some(r)
  {
    if r.align > 1 { RoundUpBounds(r.size, r.align); }
  }

  /** Another element adds its size to an array and changes no alignment. */
  lemma ArraySizes(elem: Ty, n: nat)
    ensures SizeOf(Array(Literal(n), elem)).Some? <==> SizeOf(elem).Some?
    ensures SizeOf(elem).Some? ==>
              var none, before, after := SizeOf(Array(Literal(0), elem)).value, SizeOf(Array(Literal(n), elem)).value, SizeOf(Array(Literal(n + 1), elem)).value;
              && none.size == 0 && after.size == before.size + SizeOf(elem).value.size
              && after.align == SizeOf(elem).value.align
  {
    if SizeOf(elem).Some? { OneMoreElement(SizeOf(elem).value.size, n); }
  }

  lemma OneMoreElement(size: nat, n: nat)
    ensures size * (n + 1) == size * n + size
  {
  }

  // ---- records ----

  /** `at` is the first multiple of `align` from `from` on; an alignment of 0, as a pack of 0 makes it, asks for nothing. */
  ghost predicate IsAlignedFrom(from: nat, align: nat, at: nat) {
    if align == 0 then at == from else IsNextMultiple(from, align, at)
  }

  lemma RoundUpIsFirst(from: nat, align: nat)
    ensures IsAlignedFrom(from, align, RoundUp(from, align))
  {
    if align > 1 { RoundedIsNext(from, align); }
  }

  /** Where field `i - 1` of a struct ends; 0 for `i == 0`. */
  function PreviousEnd(fields: seq<Ty>, pack: Option<nat>, i: nat): Option<nat>
    requires i <= |fields|
  {
    if i == 0 then Some(0)
    else if FieldStart(fields, pack, i - 1).None? || SizeOf(fields[i - 1]).None? then None
    else Some(FieldStart(fields, pack, i - 1).value + SizeOf(fields[i - 1]).value.size)
  }

  lemma EndsAtPrevious(fields: seq<Ty>, pack: Option<nat>, i: nat)
    requires i <= |fields| && StructEnd(fields, pack).Some?
    ensures StructEnd(fields[..i], pack).Some? && PreviousEnd(fields, pack, i) == Some(StructEnd(fields[..i], pack).value.size)
  {
    PrefixEnds(fields, pack, i);
    if i > 0 { FieldSpan(fields, pack, i - 1); }
  }

  /** The smallest alignment a pack leaves of a field's own. */
  function FieldAlign(ty: Ty, pack: Option<nat>): nat
    requires SizeOf(ty).Some?
  {
    var own := SizeOf(ty).value.align;
    if pack.Some? && pack.value < own then pack.value else own
  }

  /** Each field starts as early as its alignment allows after the one before it. */
  lemma FieldTight(fields: seq<Ty>, pack: Option<nat>, i: nat)
    requires i < |fields| && SizeOf(Record(Struct, fields, pack)).Some?
    ensures SizeOf(fields[i]).Some? && FieldStart(fields, pack, i).Some? && PreviousEnd(fields, pack, i).Some?
    ensures IsAlignedFrom(PreviousEnd(fields, pack, i).value, FieldAlign(fields[i], pack), FieldStart(fields, pack, i).value)
  {
    EndsAtPrevious(fields, pack, i);
    FieldSpan(fields, pack, i);
    RoundUpIsFirst(PreviousEnd(fields, pack, i).value, FieldAlign(fields[i], pack));
  }

  ghost predicate IsLargestAlign(fields: seq<Ty>, pack: Option<nat>, align: nat) {
    && align >= 1 && (forall f :: f in fields ==> SizeOf(f).Some? && FieldAlign(f, pack) <= align)
    && (align > 1 ==> exists f :: f in fields && SizeOf(f).Some? && FieldAlign(f, pack) == align)
  }

  lemma LargestMore(fields: seq<Ty>, pack: Option<nat>, align: nat, f: Ty)
    requires IsLargestAlign(fields, pack, align) && SizeOf(f).Some?
    ensures IsLargestAlign(fields + [f], pack, Max(align, FieldAlign(f, pack)))
  {
    assert f in fields + [f];
    if g :| g in fields && SizeOf(g).Some? && FieldAlign(g, pack) == align { assert g in fields + [f]; }
  }

  lemma {:induction false} StructLargest(fields: seq<Ty>, pack: Option<nat>)
    requires StructEnd(fields, pack).Some?
    ensures IsLargestAlign(fields, pack, StructEnd(fields, pack).value.align)
    decreases |fields|
  {
    if fields != [] {
      var front, last := fields[..|fields| - 1], fields[|fields| - 1];
      StructLargest(front, pack);
      LargestMore(front, pack, StructEnd(front, pack).value.align, last);
      assert fields == front + [last];
    }
  }

  lemma {:induction false} UnionLargest(fields: seq<Ty>, pack: Option<nat>)
    requires UnionEnd(fields, pack).Some?
    ensures IsLargestAlign(fields, pack, UnionEnd(fields, pack).value.align)
    ensures var size := UnionEnd(fields, pack).value.size;
            && (forall f :: f in fields ==> SizeOf(f).Some? && SizeOf(f).value.size <= size)
            && (size > 0 ==> exists f :: f in fields && SizeOf(f).Some? && SizeOf(f).value.size == size)
    decreases |fields|
  {
    if fields != [] {
      var front, last := fields[..|fields| - 1], fields[|fields| - 1];
      UnionLargest(front, pack);
      LargestMore(front, pack, UnionEnd(front, pack).value.align, last);
      assert fields == front + [last] && last in fields;
    }
  }

  /** A struct is as aligned as its most aligned field, and ends at the first multiple of that after its last field. */
  lemma StructTight(fields: seq<Ty>, pack: Option<nat>)
    requires SizeOf(Record(Struct, fields, pack)).Some?
    ensures var r := SizeOf(Record(Struct, fields, pack)).value;
            && IsLargestAlign(fields, pack, r.align) && PreviousEnd(fields, pack, |fields|).Some?
            && IsNextMultiple(PreviousEnd(fields, pack, |fields|).value, r.align, r.size)
  {
    StructLargest(fields, pack);
    EndsAtPrevious(fields, pack, |fields|);
    assert fields[..|fields|] == fields;
    RoundUpIsFirst(StructEnd(fields, pack).value.size, StructEnd(fields, pack).value.align);
  }

  ghost predicate IsLargestSize(fields: seq<Ty>, size: nat) {
    && (forall f :: f in fields ==> SizeOf(f).Some? && SizeOf(f).value.size <= size)
    && (size > 0 ==> exists f :: f in fields && SizeOf(f).Some? && SizeOf(f).value.size == size)
  }

  /** A union is as aligned as its most aligned field, and as large as its largest, up to that alignment. */
  lemma UnionTight(fields: seq<Ty>, pack: Option<nat>) returns (largest: nat)
    requires SizeOf(Record(Union, fields, pack)).Some?
    ensures var r := SizeOf(Record(Union, fields, pack)).value;
            && IsLargestAlign(fields, pack, r.align) && IsLargestSize(fields, largest) && IsNextMultiple(largest, r.align, r.size)
  {
    UnionLargest(fields, pack);
    largest := UnionEnd(fields, pack).value.size;
    RoundUpIsFirst(largest, UnionEnd(fields, pack).value.align);
  }

  /** A record's layout is known exactly when the layouts of all its fields are. */
  lemma {:induction false} KnownExactly(kind: RecordKind, fields: seq<Ty>, pack: Option<nat>)
    ensures SizeOf(Record(kind, fields, pack)).Some? <==> forall f :: f in fields ==> SizeOf(f).Some?
    decreases |fields|
  {
    if fields != [] {
      var front, last := fields[..|fields| - 1], fields[|fields| - 1];
      KnownExactly(kind, front, pack);
      assert fields == front + [last] && last in fields;
    }
  }

  // ---- designators ----

  lemma PeelTwice(ty: Ty, step: Designator)
    ensures Peel(Peel(ty)) == Peel(ty) && StepPlace(Peel(ty), step) == StepPlace(ty, step)
  {
  }

  /** `inner` within the part `outer` names. */
  function Beyond(outer: Place, inner: Option<Place>): Option<Place> {
    if inner.None? then None else Some(Place(outer.offset + inner.value.offset, inner.value.ty))
  }

  function Onward(p: Option<Place>, step: Designator): Option<Place> {
    if p.None? then None else Beyond(p.value, StepPlace(p.value.ty, step))
  }

  lemma OnwardBeyond(outer: Place, inner: Option<Place>, step: Designator)
    ensures Onward(Beyond(outer, inner), step) == Beyond(outer, Onward(inner, step))
  {
  }

  lemma LastStep(ty: Ty, steps: seq<Designator>, last: Designator)
    ensures PlaceOf(ty, steps + [last]) == Onward(PlaceOf(ty, steps), last)
  {
    assert (steps + [last])[..|steps|] == steps;
  }

  /** One step further from where two runs of designators have come. */
  lemma ComposeStep(ty: Ty, upTo: seq<Designator>, outer: Place, front: seq<Designator>, last: Designator)
    requires PlaceOf(ty, upTo) == Beyond(outer, PlaceOf(outer.ty, front))
    ensures PlaceOf(ty, upTo + [last]) == Beyond(outer, PlaceOf(outer.ty, front + [last]))
  {
    LastStep(ty, upTo, last);
    LastStep(outer.ty, front, last);
    OnwardBeyond(outer, PlaceOf(outer.ty, front), last);
  }

  lemma ComposeFirst(ty: Ty, a: seq<Designator>, last: Designator)
    requires PlaceOf(ty, a).Some?
    ensures PlaceOf(ty, a + [last]) == Beyond(PlaceOf(ty, a).value, PlaceOf(PlaceOf(ty, a).value.ty, [last]))
  {
    LastStep(ty, a, last);
    FirstStep(PlaceOf(ty, a).value.ty, last);
  }

  /** Designators compose: first to a part, then from there. */
  lemma {:induction false} DesignatorsCompose(ty: Ty, a: seq<Designator>, b: seq<Designator>)
    requires PlaceOf(ty, a).Some? && b != []
    ensures PlaceOf(ty, a + b) == Beyond(PlaceOf(ty, a).value, PlaceOf(PlaceOf(ty, a).value.ty, b))
    decreases |b|
  {
    var n := |b| - 1;
    if n == 0 {
      assert b == [b[0]];
      ComposeFirst(ty, a, b[0]);
    } else {
      DesignatorsCompose(ty, a, b[..n]);
      ComposeStep(ty, a + b[..n], PlaceOf(ty, a).value, b[..n], b[n]);
      assert b[..n] + [b[n]] == b;
      assert (a + b[..n]) + [b[n]] == a + b;
    }
  }

  /** An index takes that many elements of an array. */
  lemma IndexRule(ty: Ty, i: nat)
    requires Peel(ty).Array? && SizeOf(Peel(ty).elem).Some?
    ensures var elem := Peel(ty).elem;
            && PlaceOf(ty, [Index(0)]) == Some(Place(0, elem)) && PlaceOf(ty, [Index(i)]).Some?
            && PlaceOf(ty, [Index(i + 1)]) == Some(Place(PlaceOf(ty, [Index(i)]).value.offset + SizeOf(elem).value.size, elem))
  {
    FirstStep(ty, Index(0));
    FirstStep(ty, Index(i));
    FirstStep(ty, Index(i + 1));
    OneMoreElement(SizeOf(Peel(ty).elem).value.size, i);
  }

  /** A member path takes its fields one after the other. */
  lemma MemberRule(ty: Ty, path: seq<nat>, field: nat)
    ensures PlaceOf(ty, [Member([])]) == Some(Place(0, Peel(ty)))
    ensures PlaceOf(ty, [Member(path)]).Some? ==>
              PlaceOf(ty, [Member(path + [field])])
              == Beyond(PlaceOf(ty, [Member(path)]).value, FieldPlace(PlaceOf(ty, [Member(path)]).value.ty, field))
  {
    FirstStep(ty, Member([]));
    FirstStep(ty, Member(path));
    FirstStep(ty, Member(path + [field]));
    assert (path + [field])[..|path|] == path;
  }

  /** Every field of a union starts where the union does. */
  lemma UnionFieldAtStart(fields: seq<Ty>, pack: Option<nat>, i: nat)
    requires i < |fields|
    ensures PlaceOf(Record(Union, fields, pack), [Member([i])]) == Some(Place(0, fields[i]))
  {
    var ty := Record(Union, fields, pack);
    FirstStep(ty, Member([i]));
    assert [i][..0] == [] && Peel(ty) == ty;
    assert FieldPlace(ty, i) == Some(Place(0, fields[i]));
    assert MemberPlace(ty, [i]) == Beyond(Place(0, ty), FieldPlace(ty, i));
  }

  lemma FirstStep(ty: Ty, step: Designator)
    ensures PlaceOf(ty, [step]) == StepPlace(ty, step)
  {
    assert [step][..0] == [];
    PeelTwice(ty, step);
  }
}
