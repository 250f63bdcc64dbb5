/** Integer constant expressions and the two evaluators the compiler has for them. */
module ConstExpr {
  import opened CTypes
  import opened Bits
  import opened Wrap

  datatype Suffix =
    | NoSuffix | NoneDecimal | Unsigned | Long | LongLong | UnsignedLong | UnsignedLongLong | USize | ISize
    | U8 | U16 | U32 | U64 | U128 | I8 | I16 | I32 | I64 | I128

  datatype CharPrefix = Plain | Wide | Utf8 | Utf16 | Utf32

  datatype UnaryOp = Not | Com | AddrOf | Deref | Plus | Minus

  datatype BinOp = Comma | Assign | Add | Sub | Mul | Div | Rem | Or | And | BitOr | BitXor | BitAnd
                 | Eq | Lt | Le | Ne | Ge | Gt | Shl | Shr

  /** `NamedConst` is an enumerator or `constexpr` object; `ConstantP` is `__builtin_constant_p`. */
  datatype Expr =
    | IntConst(value: int, suffix: Suffix)
    | BoolConst(b: bool)
    | CharConst(code: int, prefix: CharPrefix)
    | NamedConst(id: nat)
    | Unary(op: UnaryOp, inner: Expr)
    | Binary(lhs: Expr, bop: BinOp, rhs: Expr)
    | Conditional(cond: Expr, thenExpr: Option<Expr>, elseExpr: Expr)
    | Cast(target: Ty, operand: Expr)
    | ConstantP(arg: Expr)
    | NotConstant

  datatype IntTy = IntTy(width: nat, signed: bool)

  predicate ValidTy(ty: IntTy) {
    UnitBits(ty.width)
  }

  /** Values are `i128`s; shift distances are cast to `u32`. */
  const WIDE: nat := 128
  const DISTANCE: nat := 32

  predicate Fits128(v: int) {
    InRange(v, WIDE, true)
  }

  // ---- types of operands ----

  /** `common_const_int_ty`: section 6.3.1.8 of ISO C11 without the promotions. */
  function CommonTy(a: IntTy, b: IntTy): IntTy {
    match (a.signed, b.signed)
    case (true, true) => IntTy(Max(a.width, b.width), true)
    case (false, false) => IntTy(Max(a.width, b.width), false)
    case (true, false) => if b.width >= a.width then IntTy(b.width, false) else IntTy(a.width, true)
    case (false, true) => if a.width >= b.width then IntTy(a.width, false) else IntTy(b.width, true)
  }

  function SuffixTy(s: Suffix): (r: IntTy)
    ensures ValidTy(r)
  {
    match s
    case NoSuffix => IntTy(32, true)
    case NoneDecimal => IntTy(32, true)
    case Long => IntTy(64, true)
    case LongLong => IntTy(64, true)
    case Unsigned => IntTy(32, false)
    case UnsignedLong => IntTy(64, false)
    case UnsignedLongLong => IntTy(64, false)
    case USize => IntTy(64, false)
    case ISize => IntTy(64, true)
    case U8 => IntTy(8, false)
    case U16 => IntTy(16, false)
    case U32 => IntTy(32, false)
    case U64 => IntTy(64, false)
    case U128 => IntTy(128, false)
    case I8 => IntTy(8, true)
    case I16 => IntTy(16, true)
    case I32 => IntTy(32, true)
    case I64 => IntTy(64, true)
    case I128 => IntTy(128, true)
  }

  /** `const_int_ty_of_hir_kind`. */
  function KindTy(ty: Ty): (r: Option<IntTy>)
    ensures r.Some? ==> ValidTy(r.value)
  {
    match ty
    case Bool => Some(IntTy(8, true))
    case Char => Some(IntTy(8, true))
    case Int(w) => Some(IntTy(IntBits(w), true))
    case Uint(w) => Some(IntTy(IntBits(w), false))
    case Enum(_) => Some(IntTy(32, true))
    case Alias(target) => KindTy(target)
    case _ => None
  }

  /** `const_int_ty_of_expr`: booleans and names have no known type here. */
  function TyOf(e: Expr): (r: Option<IntTy>)
    ensures r.Some? ==> ValidTy(r.value)
  {
    match e
    case IntConst(_, suffix) => Some(SuffixTy(suffix))
    case CharConst(_, Utf16) => Some(IntTy(16, false))
    case CharConst(_, Utf8) => Some(IntTy(8, false))
    case CharConst(_, Utf32) => Some(IntTy(32, false))
    case CharConst(_, _) => Some(IntTy(32, true))
    case Unary(op, inner) => if op.Plus? || op.Minus? || op.Not? || op.Com? then TyOf(inner) else None
    case Binary(lhs, op, rhs) =>
      if Comparison(op) || op.And? || op.Or? then Some(IntTy(32, true))
      else if op == Comma then TyOf(rhs)
      else JoinTy(TyOf(lhs), TyOf(rhs))
    case Conditional(cond, thenExpr, elseExpr) =>
      JoinTy(if thenExpr.Some? then TyOf(thenExpr.value) else TyOf(cond), TyOf(elseExpr))
    case Cast(target, _) => KindTy(target)
    case _ => None
  }

  function JoinTy(l: Option<IntTy>, r: Option<IntTy>): Option<IntTy> {
    if l.Some? && r.Some? then Some(CommonTy(l.value, r.value)) else None
  }

  /** `common_const_int_ty_of_operands`. */
  function OperandTy(lhs: Expr, rhs: Expr): (r: Option<IntTy>)
    ensures r.Some? ==> ValidTy(r.value)
  {
    JoinTy(TyOf(lhs), TyOf(rhs))
  }

  /** `convert_const_int_value`: wraps to the type; a 128-bit value stays in its `i128` representation. */
  function Convert(value: int, ty: IntTy): (r: int)
    requires ValidTy(ty)
  {
    Reduce(value, ty.width, ty.signed || ty.width == 128)
  }

  // ---- checked operations on i128 ----

  function Checked(v: int): Option<int> {
    if Fits128(v) then Some(v) else None
  }

  /** Division truncates toward zero. */
  function TruncDiv(a: int, b: int): int
    requires b != 0
  {
    if a >= 0 then (if b > 0 then a / b else -(a / -b))
    else (if b > 0 then -(-a / b) else -a / -b)
  }

  /** A word-wise operation on the two's complement patterns. */
  function Pattern(v: int): nat {
    v % Pow2(WIDE)
  }

  function BitwiseAnd(a: int, b: int): int {
    ToSigned(Low(Bits.And(Pattern(a), Pattern(b)), WIDE), WIDE)
  }

  function BitwiseOr(a: int, b: int): int {
    ToSigned(Low(Bits.Or(Pattern(a), Pattern(b)), WIDE), WIDE)
  }

  function BitwiseXor(a: int, b: int): int {
    ToSigned(Low(Bits.Or(AndNot(Pattern(a), Pattern(b)), AndNot(Pattern(b), Pattern(a))), WIDE), WIDE)
  }

  /** The shift distance is the operand cast to 32 unsigned bits; 128 and up is an error. */
  function ShiftLeft(a: int, b: int): Option<int> {
    var n := b % Pow2(DISTANCE);
    if n >= WIDE then None else Some(ToSigned(Low(Bits.Shl(Pattern(a), n), WIDE), WIDE))
  }

  function ShiftRight(a: int, b: int): Option<int> {
    var n := b % Pow2(DISTANCE);
    if n >= WIDE then None else Some(a / Pow2(n))
  }

  function FromBool(b: bool): int {
    if b then 1 else 0
  }

  function ApplyUnary(op: UnaryOp, v: int): Option<int> {
    match op
    case Plus => Some(v)
    case Minus => Checked(-v)
    case Not => Some(FromBool(v == 0))
    case Com => Some(-v - 1)
    case _ => None
  }

  predicate Arithmetic(op: BinOp) {
    op.Add? || op.Sub? || op.Mul? || op.Div? || op.Rem? || op.BitOr? || op.BitXor? || op.BitAnd?
  }

  predicate Comparison(op: BinOp) {
    op.Eq? || op.Ne? || op.Lt? || op.Le? || op.Gt? || op.Ge?
  }

  function Compare(op: BinOp, a: int, b: int): bool
    requires Comparison(op)
  {
    match op
    case Eq => a == b
    case Ne => a != b
    case Lt => a < b
    case Le => a <= b
    case Gt => a > b
    case Ge => a >= b
  }

  function ApplyArithmetic(op: BinOp, a: int, b: int): Option<int>
    requires Arithmetic(op)
  {
    match op
    case Add => Checked(a + b)
    case Sub => Checked(a - b)
    case Mul => Checked(a * b)
    case Div => if b == 0 then None else Checked(TruncDiv(a, b))
    case Rem => if b == 0 || (!Fits128(-a) && b == -1) then None else Some(a - TruncDiv(a, b) * b)
    case BitOr => Some(BitwiseOr(a, b))
    case BitXor => Some(BitwiseXor(a, b))
    case BitAnd => Some(BitwiseAnd(a, b))
  }

  function ApplyOther(op: BinOp, a: int, b: int): Option<int>
    requires !Arithmetic(op) && !Comparison(op)
  {
    match op
    case Shl => ShiftLeft(a, b)
    case Shr => ShiftRight(a, b)
    case And => Some(FromBool(a != 0 && b != 0))
    case Or => Some(FromBool(a != 0 || b != 0))
    case _ => None
  }

  // ---- casts ----

  function CharCast(v: int): Option<int> {
    if 0 <= v < 0xD800 || 0xE000 <= v < 0x110000 then Some(v) else None
  }

  /** A cast to a Rust integer type. The round trip through `u128` leaves an `i128` as it is. */
  function IntCast(v: int, w: IntWidth, signed: bool): int {
    Reduce(v, IntBits(w), signed || w == W128)
  }

  /** `cast_const_int`: an enum is cast to through its payload type. */
  function CastFirst(v: int, target: Ty): Option<int> {
    match target
    case Bool => Some(FromBool(v != 0))
    case Char => CharCast(v)
    case Int(w) => Some(IntCast(v, w, true))
    case Uint(w) => Some(IntCast(v, w, false))
    case Enum(payload) => CastFirst(v, payload)
    case Alias(underlying) => CastFirst(v, underlying)
    case _ => None
  }

  /** `cast_const_int_to_ty`: any ADT is cast to like a 32-bit integer. */
  function CastSecond(v: int, target: Ty): Option<int> {
    match target
    case Bool => Some(FromBool(v != 0))
    case Char => CharCast(v)
    case Int(w) => Some(IntCast(v, w, true))
    case Uint(w) => Some(IntCast(v, w, false))
    case Enum(_) => Some(IntCast(v, W32, true))
    case Record(_, _, _) => Some(IntCast(v, W32, true))
    case Complex(_) => Some(IntCast(v, W32, true))
    case MaybeUninit(_) => Some(IntCast(v, W32, true))
    case Foreign => Some(IntCast(v, W32, true))
    case Alias(underlying) => CastSecond(v, underlying)
    case _ => None
  }

  // ---- named constants ----

  datatype Named = EnumZeroed | EnumExplicit(init: Expr) | EnumPrevPlus(prev: nat) | ConstexprObject(value: Expr) | NoConst

  /** Names in `e` were all declared before the `n`-th. */
  predicate NamesBelow(e: Expr, n: nat) {
    match e
    case NamedConst(id) => id < n
    case Unary(_, inner) => NamesBelow(inner, n)
    case Binary(l, _, r) => NamesBelow(l, n) && NamesBelow(r, n)
    case Conditional(c, t, f) => NamesBelow(c, n) && (t.Some? ==> NamesBelow(t.value, n)) && NamesBelow(f, n)
    case Cast(_, operand) => NamesBelow(operand, n)
    case ConstantP(arg) => NamesBelow(arg, n)
    case _ => true
  }

  /** A declaration refers only to earlier ones. */
  ghost predicate Scoped(table: seq<Named>) {
    forall i :: 0 <= i < |table| ==> ScopedAt(table[i], i)
  }

  predicate ScopedAt(def: Named, i: nat) {
    match def
    case EnumExplicit(init) => NamesBelow(init, i)
    case EnumPrevPlus(prev) => prev < i
    case ConstexprObject(init) => NamesBelow(init, i)
    case _ => true
  }

  // ---- the two evaluators ----

  /** `eval_local_const`, without its cache. */
  function ValueOf(table: seq<Named>, i: nat): Option<int>
    requires Scoped(table) && i < |table|
    decreases i, 1, 0
  {
    assert ScopedAt(table[i], i);
    match table[i]
    case EnumZeroed => Some(0)
    case EnumExplicit(init) => EvalFirst(table, i, init)
    case EnumPrevPlus(prev) =>
      var before := ValueOf(table, prev);
      if before.Some? then Checked(before.value + 1) else None
    case ConstexprObject(init) => EvalFirst(table, i, init)
    case NoConst => None
  }

  /** `eval_const_expr` of the signature pass. `n` bounds the names in scope. */
  function EvalFirst(table: seq<Named>, n: nat, e: Expr): Option<int>
    requires Scoped(table) && n <= |table| && NamesBelow(e, n)
    decreases n, 0, e
  {
    match e
    case IntConst(v, _) => Some(v)
    case BoolConst(b) => Some(FromBool(b))
    case CharConst(code, _) => Some(code)
    case NamedConst(id) => ValueOf(table, id)
    case Unary(op, inner) =>
      var v := EvalFirst(table, n, inner);
      if v.Some? then ApplyUnary(op, v.value) else None
    case Binary(lhs, op, rhs) =>
      var l := EvalFirst(table, n, lhs);
      var r := EvalFirst(table, n, rhs);
      if l.Some? && r.Some? then BinaryFirst(lhs, op, rhs, l.value, r.value) else None
    case Conditional(cond, thenExpr, elseExpr) =>
      var c := EvalFirst(table, n, cond);
      if c.None? then None
      else if c.value != 0 then EvalFirst(table, n, if thenExpr.Some? then thenExpr.value else cond)
      else EvalFirst(table, n, elseExpr)
    case Cast(target, operand) =>
      var v := EvalFirst(table, n, operand);
      if v.Some? then CastFirst(v.value, target) else None
    case ConstantP(arg) => Some(FromBool(EvalFirst(table, n, arg).Some?))
    case NotConstant => None
  }

  /** Operands of arithmetic are converted beforehand and the result afterwards; comparisons convert as they compare. */
  function BinaryFirst(lhs: Expr, op: BinOp, rhs: Expr, l: int, r: int): Option<int> {
    var common := OperandTy(lhs, rhs);
    if Arithmetic(op) then
      if common.Some? then
        var v := ApplyArithmetic(op, Convert(l, common.value), Convert(r, common.value));
        if v.Some? then Some(Convert(v.value, common.value)) else None
      else ApplyArithmetic(op, l, r)
    else if Comparison(op) then
      Some(FromBool(if common.Some? then Compare(op, Convert(l, common.value), Convert(r, common.value)) else Compare(op, l, r)))
    else ApplyOther(op, l, r)
  }

  /** `usual_arithmetic_converted`. */
  function Converted(lhs: Expr, rhs: Expr, l: int, r: int): (int, int) {
    var a, b := TyOf(lhs), TyOf(rhs);
    if a.None? then (l, r)
    else if b.None? then (l, r)
    else (Convert(l, CommonTy(a.value, b.value)), Convert(r, CommonTy(a.value, b.value)))
  }

  /** `wrap_to_usual_arithmetic_ty`. */
  function WrapToUsual(lhs: Expr, rhs: Expr, v: int): int {
    match (TyOf(lhs), TyOf(rhs))
    case (Some(a), Some(b)) => Convert(v, CommonTy(a, b))
    case _ => v
  }

  /** `eval_const_expr_in_scope` of the body pass: names go through the first evaluator. */
  function EvalSecond(table: seq<Named>, n: nat, e: Expr): Option<int>
    requires Scoped(table) && n <= |table| && NamesBelow(e, n)
  {
    match e
    case IntConst(v, _) => Some(v)
    case BoolConst(b) => Some(FromBool(b))
    case CharConst(code, _) => Some(code)
    case NamedConst(id) => ValueOf(table, id)
    case Unary(op, inner) =>
      var v := EvalSecond(table, n, inner);
      if v.Some? then ApplyUnary(op, v.value) else None
    case Binary(lhs, op, rhs) =>
      var l := EvalSecond(table, n, lhs);
      var r := EvalSecond(table, n, rhs);
      if l.Some? && r.Some? then BinarySecond(lhs, op, rhs, l.value, r.value) else None
    case Conditional(cond, thenExpr, elseExpr) =>
      var c := EvalSecond(table, n, cond);
      if c.None? then None
      else if c.value != 0 then EvalSecond(table, n, if thenExpr.Some? then thenExpr.value else cond)
      else EvalSecond(table, n, elseExpr)
    case Cast(target, operand) =>
      var v := EvalSecond(table, n, operand);
      if v.Some? then CastSecond(v.value, target) else None
    case ConstantP(arg) => Some(FromBool(EvalSecond(table, n, arg).Some?))
    case NotConstant => None
  }

  /** Converts the operands of arithmetic and comparisons alike, and wraps arithmetic results at the end. */
  function BinarySecond(lhs: Expr, op: BinOp, rhs: Expr, l: int, r: int): Option<int> {
    var (a, b) := if Arithmetic(op) || Comparison(op) then Converted(lhs, rhs, l, r) else (l, r);
    var v :=
      if Arithmetic(op) then ApplyArithmetic(op, a, b)
      else if Comparison(op) then Some(FromBool(Compare(op, a, b)))
      else ApplyOther(op, a, b);
    if v.None? then None
    else Some(if Arithmetic(op) then WrapToUsual(lhs, rhs, v.value) else v.value)
  }
}
