/** The lowered C types whose layout the compiler computes itself. */
module CTypes {
  datatype Option<+T> = None | Some(value: T)

  datatype IntWidth = W8 | W16 | W32 | W64 | W128 | WSize

  datatype FloatWidth = F16 | F32 | F64 | F128

  datatype ArrayLen = Literal(n: nat) | ConstDef(value: Option<nat>)

  datatype RecordKind = Struct | Union

  /** Records carry the types of their emitted fields; an enum wraps its payload; `Alias` is a typedef;
      `Foreign` is any other ADT, defined by a dependency. */
  datatype Ty =
    | Bool
    | Char
    | Int(iw: IntWidth)
    | Uint(uw: IntWidth)
    | Float(fw: FloatWidth)
    | Pointer
    | Unit
    | Array(len: ArrayLen, elem: Ty)
    | Record(kind: RecordKind, fields: seq<Ty>, pack: Option<nat>)
    | Enum(payload: Ty)
    | Alias(target: Ty)
    | Complex(part: Ty)
    | MaybeUninit(inner: Ty)
    | Foreign
    | Unsupported

  function IntBits(w: IntWidth): nat {
    match w
    case W8 => 8
    case W16 => 16
    case W32 => 32
    case W64 => 64
    case W128 => 128
    case WSize => 64
  }

  function FloatBits(w: FloatWidth): nat {
    match w
    case F16 => 16
    case F32 => 32
    case F64 => 64
    case F128 => 128
  }

  function Max(a: nat, b: nat): nat {
    if a >= b then a else b
  }

  function Min(a: nat, b: nat): nat {
    if a <= b then a else b
  }

  /** `round_up_bit`. */
  function RoundUpBit(x: nat, align: nat): nat
    requires align > 0
  {
    (x + align - 1) / align * align
  }

  lemma RoundUpBounds(x: nat, align: nat)
    requires align > 0
    ensures x <= RoundUpBit(x, align) < x + align
    ensures RoundUpBit(x, align) % align == 0
    ensures x % align == 0 ==> RoundUpBit(x, align) == x
  {
    var q := (x + align - 1) / align;
    assert (x + align - 1) == q * align + (x + align - 1) % align;
    Multiple(q, align);
    if x % align == 0 {
      var k := x / align;
      assert x == k * align;
      Quotient(k, align - 1, align);
    }
  }

  lemma Multiple(q: nat, align: nat)
    requires align > 0
    ensures (q * align) % align == 0
  {
    Quotient(q, 0, align);
  }

  lemma Quotient(k: nat, r: nat, align: nat)
    requires r < align
    ensures (k * align + r) / align == k && (k * align + r) % align == r
  {
    var q := (k * align + r) / align;
    SameQuotient(k - q, (k * align + r) % align - r, align);
  }

  lemma SameQuotient(d: int, e: int, align: int)
    requires 0 < align && -align < e < align && d * align == e
    ensures d == 0 && e == 0
  {
    if d > 0 { AtLeastOnce(d, align); }
    if d < 0 { AtLeastOnce(-d, align); }
  }

  lemma AtLeastOnce(d: int, align: int)
    requires d > 0 && align > 0
    ensures d * align >= align
  {
  }

  /** The widths an integer can have, and the alignments any type can have. */
  predicate UnitBits(bits: nat) {
    bits == 8 || bits == 16 || bits == 32 || bits == 64 || bits == 128
  }

  /** `bit_layout_of_ty`: size and alignment in bits, when the record builder can tell. It ignores
      packing, lays unions out like structs, and takes every enum for 32 bits. */
  function BitLayout(ty: Ty): (r: Option<(nat, nat)>)
    ensures r.Some? ==> UnitBits(r.value.1)
  {
    match ty
    case Bool => Some((8, 8))
    case Char => Some((8, 8))
    case Int(w) => Some((IntBits(w), IntBits(w)))
    case Uint(w) => Some((IntBits(w), IntBits(w)))
    case Float(w) => Some((FloatBits(w), FloatBits(w)))
    case Pointer => Some((64, 64))
    case Array(Literal(n), elem) =>
      var e := BitLayout(elem);
      if e.Some? then Some((e.value.0 * n, e.value.1)) else None
    case Enum(_) => Some((32, 32))
    case Alias(target) => BitLayout(target)
    case Record(_, fields, _) =>
      var r := BitLayoutFields(fields);
      if r.Some? then Some((RoundUpBit(r.value.0, r.value.1), r.value.1)) else None
    case _ => None
  }

  /** Where the fields end, and the largest alignment among them. */
  function BitLayoutFields(fields: seq<Ty>): (r: Option<(nat, nat)>)
    ensures r.Some? ==> UnitBits(r.value.1)
  {
    if fields == [] then Some((0, 8))
    else
      var before := BitLayoutFields(fields[..|fields| - 1]);
      var f := BitLayout(fields[|fields| - 1]);
      if before.None? || f.None? then None
      else Some((RoundUpBit(before.value.0, f.value.1) + f.value.0, Max(before.value.1, f.value.1)))
  }
}
