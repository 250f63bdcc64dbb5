/** `sizeof`, `alignof` and `offsetof` in constant expressions. */
module Layouts {
  import opened CTypes

  datatype SizeAlign = SizeAlign(size: nat, align: nat)

  /** `round_up` on bytes. */
  function RoundUp(value: nat, align: nat): nat {
    if align <= 1 then value else RoundUpBit(value, align)
  }

  function Capped(align: nat, pack: Option<nat>): nat {
    if pack.Some? then Min(align, pack.value) else align
  }

  function Length(len: ArrayLen): Option<nat> {
    match len
    case Literal(n) => Some(n)
    case ConstDef(value) => value
  }

  /** Size and alignment in bytes, or nothing where the source reports an unsupported type. */
  function SizeOf(ty: Ty): (r: Option<SizeAlign>)
    ensures r.Some? ==> r.value.align >= 1
    decreases ty
  {
    match ty
    case Bool => Some(SizeAlign(1, 1))
    case Char => Some(SizeAlign(1, 1))
    case Int(w) => Some(SizeAlign(IntBits(w) / 8, IntBits(w) / 8))
    case Uint(w) => Some(SizeAlign(IntBits(w) / 8, IntBits(w) / 8))
    case Float(w) => Some(SizeAlign(FloatBits(w) / 8, FloatBits(w) / 8))
    case Pointer => Some(SizeAlign(8, 8))
    case Unit => Some(SizeAlign(0, 1))
    case Array(len, elem) =>
      var e := SizeOf(elem);
      if e.Some? && Length(len).Some? then Some(SizeAlign(e.value.size * Length(len).value, e.value.align)) else None
    case Record(Struct, fields, pack) => Closed(StructEnd(fields, pack))
    case Record(Union, fields, pack) => Closed(UnionEnd(fields, pack))
    case Enum(payload) =>
      var p := SizeOf(payload);
      if p.Some? then Closed(Some(SizeAlign(p.value.size, p.value.align))) else None
    case Alias(target) => SizeOf(target)
    case Complex(part) =>
      var p := SizeOf(part);
      if p.Some? then Some(SizeAlign(p.value.size * 2, p.value.align)) else None
    case MaybeUninit(inner) => SizeOf(inner)
    case Foreign => None
    case Unsupported => None
  }

  /** Tail padding up to the record's alignment. */
  function Closed(end: Option<SizeAlign>): (r: Option<SizeAlign>)
    ensures r.Some? <==> end.Some?
    ensures end.Some? && end.value.align >= 1 ==> r.value.align >= 1
  {
    if end.Some? then Some(SizeAlign(RoundUp(end.value.size, end.value.align), end.value.align)) else None
  }

  /** Where the fields of a struct end, and the largest alignment among them. */
  function StructEnd(fields: seq<Ty>, pack: Option<nat>): (r: Option<SizeAlign>)
    ensures r.Some? ==> r.value.align >= 1
    decreases fields
  {
    if fields == [] then Some(SizeAlign(0, 1))
    else
      var before := StructEnd(fields[..|fields| - 1], pack);
      var f := SizeOf(fields[|fields| - 1]);
      if before.None? || f.None? then None
      else
        var align := Capped(f.value.align, pack);
        Some(SizeAlign(RoundUp(before.value.size, align) + f.value.size, Max(before.value.align, align)))
  }

  function UnionEnd(fields: seq<Ty>, pack: Option<nat>): (r: Option<SizeAlign>)
    ensures r.Some? ==> r.value.align >= 1
    decreases fields
  {
    if fields == [] then Some(SizeAlign(0, 1))
    else
      var before := UnionEnd(fields[..|fields| - 1], pack);
      var f := SizeOf(fields[|fields| - 1]);
      if before.None? || f.None? then None
      else Some(SizeAlign(Max(before.value.size, f.value.size), Max(before.value.align, Capped(f.value.align, pack))))
  }

  /** Where field `i` of a struct starts. */
  function FieldStart(fields: seq<Ty>, pack: Option<nat>, i: nat): Option<nat>
    requires i < |fields|
  {
    var before := StructEnd(fields[..i], pack);
    var f := SizeOf(fields[i]);
    if before.None? || f.None? then None else Some(RoundUp(before.value.size, Capped(f.value.align, pack)))
  }

  /** Strips typedefs. */
  function Peel(ty: Ty): (r: Ty)
    ensures !r.Alias? && SizeOf(r) == SizeOf(ty)
  {
    if ty.Alias? then Peel(ty.target) else ty
  }

  // ---- designators ----

  /** `Member` carries the physical indices a field name resolves to, outermost first. */
  datatype Designator = Member(path: seq<nat>) | Index(i: int)

  datatype Place = Place(offset: nat, ty: Ty)

  /** One physical field of a record type. */
  function FieldPlace(ty: Ty, i: nat): Option<Place> {
    var peeled := Peel(ty);
    if !peeled.Record? || i >= |peeled.fields| then None
    else if peeled.kind == Union then Some(Place(0, peeled.fields[i]))
    else
      var start := FieldStart(peeled.fields, peeled.pack, i);
      if start.None? then None else Some(Place(start.value, peeled.fields[i]))
  }

  function MemberPlace(ty: Ty, path: seq<nat>): Option<Place> {
    if path == [] then Some(Place(0, ty))
    else
      var front := MemberPlace(ty, path[..|path| - 1]);
      if front.None? then None
      else
        var last := FieldPlace(front.value.ty, path[|path| - 1]);
        if last.None? then None else Some(Place(front.value.offset + last.value.offset, last.value.ty))
  }

  function StepPlace(ty: Ty, step: Designator): Option<Place> {
    match step
    case Member(path) => MemberPlace(Peel(ty), path)
    case Index(i) =>
      var peeled := Peel(ty);
      if i < 0 || !peeled.Array? then None
      else
        var e := SizeOf(peeled.elem);
        if e.None? then None else Some(Place(i * e.value.size, peeled.elem))
  }

  function PlaceOf(ty: Ty, steps: seq<Designator>): Option<Place> {
    if steps == [] then Some(Place(0, Peel(ty)))
    else
      var front := PlaceOf(ty, steps[..|steps| - 1]);
      if front.None? then None
      else
        var last := StepPlace(front.value.ty, steps[|steps| - 1]);
        if last.None? then None else Some(Place(front.value.offset + last.value.offset, last.value.ty))
  }

  /** `offsetof` needs at least one designator. */
  function OffsetOf(ty: Ty, steps: seq<Designator>): Option<nat> {
    if steps == [] then None
    else
      var p := PlaceOf(ty, steps);
      if p.Some? then Some(p.value.offset) else None
  }

  // ---- the loops of the source ----

  /** `sizeof_hir_ty`. */
  method SizeofHirTy(ty: Ty) returns (r: Option<SizeAlign>)
    ensures r == SizeOf(ty)
    decreases ty
  {
    match ty {
      case Array(len, elem) =>
        var e := SizeofHirTy(elem);
        if e.None? || Length(len).None? { return None; }
        return Some(SizeAlign(e.value.size * Length(len).value, e.value.align));
      case Record(kind, fields, pack) =>
        var end := SizeofFields(kind, fields, pack);
        if end.None? { return None; }
        return Some(SizeAlign(RoundUp(end.value.size, end.value.align), end.value.align));
      case Enum(payload) =>
        var p := SizeofHirTy(payload);
        if p.None? { return None; }
        return Some(SizeAlign(RoundUp(p.value.size, p.value.align), p.value.align));
      case Alias(target) => r := SizeofHirTy(target);
      case Complex(part) =>
        var p := SizeofHirTy(part);
        if p.None? { return None; }
        return Some(SizeAlign(p.value.size * 2, p.value.align));
      case MaybeUninit(inner) => r := SizeofHirTy(inner);
      case _ => r := SizeOf(ty);
    }
  }

  /** The loops over a record's fields. */
  method SizeofFields(kind: RecordKind, fields: seq<Ty>, pack: Option<nat>) returns (r: Option<SizeAlign>)
    ensures r == if kind == Struct then StructEnd(fields, pack) else UnionEnd(fields, pack)
    decreases fields
  {
    var size: nat, align: nat := 0, 1;
    for k := 0 to |fields|
      invariant kind == Struct ==> StructEnd(fields[..k], pack) == Some(SizeAlign(size, align))
      invariant kind == Union ==> UnionEnd(fields[..k], pack) == Some(SizeAlign(size, align))
    {
      assert fields[..k + 1][..k] == fields[..k];
      var f := SizeofHirTy(fields[k]);
      if f.None? {
        EndStaysNone(fields, pack, k + 1);
        return None;
      }
      var fieldAlign := Capped(f.value.align, pack);
      align := Max(align, fieldAlign);
      if kind == Struct {
        size := RoundUp(size, fieldAlign);
        size := size + f.value.size;
      } else {
        size := Max(size, f.value.size);
      }
    }
    assert fields[..|fields|] == fields;
    r := Some(SizeAlign(size, align));
  }

  lemma {:induction false} EndStaysNone(fields: seq<Ty>, pack: Option<nat>, n: nat)
    requires n <= |fields|
    ensures StructEnd(fields[..n], pack).None? ==> StructEnd(fields, pack).None?
    ensures UnionEnd(fields[..n], pack).None? ==> UnionEnd(fields, pack).None?
    decreases |fields| - n
  {
    if n < |fields| {
      assert fields[..n + 1][..n] == fields[..n];
      EndStaysNone(fields, pack, n + 1);
    } else {
      assert fields[..n] == fields;
    }
  }

  /** The running offset `offsetof_field_step` keeps over the fields before the one it wants. */
  method FieldOffset(fields: seq<Ty>, pack: Option<nat>, i: nat) returns (r: Option<nat>)
    requires i < |fields|
    ensures r == FieldStart(fields, pack, i)
  {
    var runningOffset: nat := 0;
    for k := 0 to i
      invariant StructEnd(fields[..k], pack).Some? && StructEnd(fields[..k], pack).value.size == runningOffset
    {
      assert fields[..k + 1][..k] == fields[..k];
      var prev := SizeofHirTy(fields[k]);
      if prev.None? {
        assert fields[..i][..k + 1] == fields[..k + 1];
        EndStaysNone(fields[..i], pack, k + 1);
        return None;
      }
      var fieldAlign := Capped(prev.value.align, pack);
      runningOffset := RoundUp(runningOffset, fieldAlign);
      runningOffset := runningOffset + prev.value.size;
    }
    var f := SizeofHirTy(fields[i]);
    if f.None? { return None; }
    return Some(RoundUp(runningOffset, Capped(f.value.align, pack)));
  }

  /** One physical field: at 0 in a union, after the earlier fields in a struct. */
  method FieldOf(ty: Ty, i: nat) returns (r: Option<Place>)
    ensures r == FieldPlace(ty, i)
  {
    var peeled := Peel(ty);
    if !peeled.Record? || i >= |peeled.fields| { return None; }
    var fieldOffset: Option<nat> := Some(0);
    if peeled.kind == Struct {
      fieldOffset := FieldOffset(peeled.fields, peeled.pack, i);
    }
    if fieldOffset.None? { return None; }
    return Some(Place(fieldOffset.value, peeled.fields[i]));
  }

  /** `offsetof_field_step`: follows a resolved field path through nested records. */
  method OffsetofFieldStep(ty: Ty, path: seq<nat>) returns (r: Option<Place>)
    ensures r == MemberPlace(Peel(ty), path)
  {
    var offset: nat, cur := 0, Peel(ty);
    for k := 0 to |path|
      invariant MemberPlace(Peel(ty), path[..k]) == Some(Place(offset, cur))
    {
      assert path[..k + 1][..k] == path[..k];
      var field := FieldOf(cur, path[k]);
      if field.None? {
        MemberStaysNone(Peel(ty), path, k + 1);
        return None;
      }
      offset := offset + field.value.offset;
      cur := field.value.ty;
    }
    assert path[..|path|] == path;
    return Some(Place(offset, cur));
  }

  lemma {:induction false} MemberStaysNone(ty: Ty, path: seq<nat>, n: nat)
    requires n <= |path| && MemberPlace(ty, path[..n]).None?
    ensures MemberPlace(ty, path).None?
    decreases |path| - n
  {
    if n < |path| {
      assert path[..n + 1][..n] == path[..n];
      MemberStaysNone(ty, path, n + 1);
    } else {
      assert path[..n] == path;
    }
  }

  /** One array index; the bound is not checked. */
  method OffsetofIndexStep(ty: Ty, i: int) returns (r: Option<Place>)
    ensures r == StepPlace(ty, Index(i))
  {
    var peeled := Peel(ty);
    if i < 0 || !peeled.Array? { return None; }
    var e := SizeofHirTy(peeled.elem);
    if e.None? { return None; }
    return Some(Place(i * e.value.size, peeled.elem));
  }

  method OffsetofStep(ty: Ty, step: Designator) returns (r: Option<Place>)
    ensures r == StepPlace(ty, step)
  {
    match step {
      case Member(path) => r := OffsetofFieldStep(ty, path);
      case Index(i) => r := OffsetofIndexStep(ty, i);
    }
  }

  /** `offsetof_hir_ty`. */
  method OffsetofHirTy(ty: Ty, designator: seq<Designator>) returns (r: Option<nat>)
    ensures r == OffsetOf(ty, designator)
  {
    if designator == [] { return None; }
    var cur, offset: nat := Peel(ty), 0;
    for k := 0 to |designator|
      invariant PlaceOf(ty, designator[..k]) == Some(Place(offset, cur))
    {
      assert designator[..k + 1][..k] == designator[..k];
      var step := OffsetofStep(cur, designator[k]);
      if step.None? {
        PlaceStaysNone(ty, designator, k + 1);
        return None;
      }
      offset, cur := offset + step.value.offset, step.value.ty;
    }
    assert designator[..|designator|] == designator;
    return Some(offset);
  }

  lemma {:induction false} PlaceStaysNone(ty: Ty, steps: seq<Designator>, n: nat)
    requires n <= |steps| && PlaceOf(ty, steps[..n]).None?
    ensures PlaceOf(ty, steps).None?
    decreases |steps| - n
  {
    if n < |steps| {
      assert steps[..n + 1][..n] == steps[..n];
      PlaceStaysNone(ty, steps, n + 1);
    } else {
      assert steps[..n] == steps;
    }
  }
}
