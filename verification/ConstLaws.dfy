/** Laws of constant evaluation: the evaluators agree, wrapping is a homomorphism, types form one order. */
module ConstLaws {
  import opened CTypes
  import opened Bits
  import opened Wrap
  import opened ConstExpr

  // ---- the two evaluators agree ----

  /** Casts to ADTs are the exception. */
  predicate AgreeableCasts(e: Expr) {
    match e
    case Unary(_, inner) => AgreeableCasts(inner)
    case Binary(l, _, r) => AgreeableCasts(l) && AgreeableCasts(r)
    case Conditional(c, t, f) => AgreeableCasts(c) && (t.Some? ==> AgreeableCasts(t.value)) && AgreeableCasts(f)
    case Cast(target, operand) => AgreeableTarget(target) && AgreeableCasts(operand)
    case ConstantP(arg) => AgreeableCasts(arg)
    case _ => true
  }

  /** The first evaluator casts to an enum through its payload and to no other ADT; the second casts to any
      ADT like a 32-bit `int`. So only an enum over a 32-bit `int` is cast to alike. */
  predicate AgreeableTarget(target: Ty) {
    match target
    case Enum(payload) => OverInt(payload)
    case Alias(underlying) => AgreeableTarget(underlying)
    case _ => !target.Record? && !target.Complex? && !target.MaybeUninit? && !target.Foreign?
  }

  /** A payload that comes down to a 32-bit `int`. */
  predicate OverInt(payload: Ty) {
    match payload
    case Int(w) => w == W32
    case Enum(inner) => OverInt(inner)
    case Alias(underlying) => OverInt(underlying)
    case _ => false
  }

  lemma {:induction false} OverIntCast(v: int, payload: Ty)
    requires OverInt(payload)
    ensures CastFirst(v, payload) == Some(IntCast(v, W32, true))
  {
    if payload.Enum? { OverIntCast(v, payload.payload); }
    if payload.Alias? { OverIntCast(v, payload.target); }
  }

  lemma {:induction false} CastsAgree(v: int, target: Ty)
    requires AgreeableTarget(target)
    ensures CastFirst(v, target) == CastSecond(v, target)
  {
    if target.Alias? { CastsAgree(v, target.target); }
    if target.Enum? { OverIntCast(v, target.payload); }
  }

  lemma ConvertedByCommon(lhs: Expr, rhs: Expr, l: int, r: int)
    ensures var common := OperandTy(lhs, rhs);
            Converted(lhs, rhs, l, r) == if common.Some? then (Convert(l, common.value), Convert(r, common.value)) else (l, r)
  {
  }

  lemma WrappedByCommon(lhs: Expr, rhs: Expr, v: int)
    ensures var common := OperandTy(lhs, rhs);
            WrapToUsual(lhs, rhs, v) == if common.Some? then Convert(v, common.value) else v
  {
  }

  /** Both evaluators reduce arithmetic to the same `v`, the result on the converted operands. */
  lemma ArithmeticFirst(lhs: Expr, op: BinOp, rhs: Expr, l: int, r: int, a: int, b: int, v: Option<int>)
    requires Arithmetic(op) && (a, b) == Converted(lhs, rhs, l, r) && v == ApplyArithmetic(op, a, b)
    ensures BinaryFirst(lhs, op, rhs, l, r) == if v.None? then None else Some(WrapToUsual(lhs, rhs, v.value))
  {
    ConvertedByCommon(lhs, rhs, l, r);
    if v.Some? { WrappedByCommon(lhs, rhs, v.value); }
  }

  lemma ArithmeticSecond(lhs: Expr, op: BinOp, rhs: Expr, l: int, r: int, a: int, b: int, v: Option<int>)
    requires Arithmetic(op) && (a, b) == Converted(lhs, rhs, l, r) && v == ApplyArithmetic(op, a, b)
    ensures BinarySecond(lhs, op, rhs, l, r) == if v.None? then None else Some(WrapToUsual(lhs, rhs, v.value))
  {
  }

  lemma ComparisonsAgree(lhs: Expr, op: BinOp, rhs: Expr, l: int, r: int)
    requires Comparison(op)
    ensures BinaryFirst(lhs, op, rhs, l, r) == BinarySecond(lhs, op, rhs, l, r)
  {
    ConvertedByCommon(lhs, rhs, l, r);
  }

  lemma OthersAgree(lhs: Expr, op: BinOp, rhs: Expr, l: int, r: int, v: Option<int>)
    requires !Arithmetic(op) && !Comparison(op) && v == ApplyOther(op, l, r)
    ensures BinaryFirst(lhs, op, rhs, l, r) == v == BinarySecond(lhs, op, rhs, l, r)
  {
  }

  lemma BinariesAgree(lhs: Expr, op: BinOp, rhs: Expr, l: int, r: int)
    ensures BinaryFirst(lhs, op, rhs, l, r) == BinarySecond(lhs, op, rhs, l, r)
  {
    if Arithmetic(op) {
      var (a, b) := Converted(lhs, rhs, l, r);
      ArithmeticFirst(lhs, op, rhs, l, r, a, b, ApplyArithmetic(op, a, b));
      ArithmeticSecond(lhs, op, rhs, l, r, a, b, ApplyArithmetic(op, a, b));
    } else if Comparison(op) {
      ComparisonsAgree(lhs, op, rhs, l, r);
    } else {
      OthersAgree(lhs, op, rhs, l, r, ApplyOther(op, l, r));
    }
  }

  /** On every expression whose casts have agreeable targets, the evaluators succeed alike with the same value. */
  lemma {:induction false} EvaluatorsAgree(table: seq<Named>, n: nat, e: Expr)
    requires Scoped(table) && n <= |table| && NamesBelow(e, n) && AgreeableCasts(e)
    ensures EvalFirst(table, n, e) == EvalSecond(table, n, e)
  {
    match e {
      case Unary(_, inner) => EvaluatorsAgree(table, n, inner);
      case Binary(lhs, op, rhs) =>
        EvaluatorsAgree(table, n, lhs);
        EvaluatorsAgree(table, n, rhs);
        if EvalFirst(table, n, lhs).Some? && EvalFirst(table, n, rhs).Some? {
          BinariesAgree(lhs, op, rhs, EvalFirst(table, n, lhs).value, EvalFirst(table, n, rhs).value);
        }
      case Conditional(cond, thenExpr, elseExpr) =>
        EvaluatorsAgree(table, n, cond);
        if thenExpr.Some? { EvaluatorsAgree(table, n, thenExpr.value); }
        EvaluatorsAgree(table, n, elseExpr);
      case Cast(target, operand) =>
        EvaluatorsAgree(table, n, operand);
        if EvalFirst(table, n, operand).Some? { CastsAgree(EvalFirst(table, n, operand).value, target); }
      case ConstantP(arg) => EvaluatorsAgree(table, n, arg);
      case _ =>
    }
  }

  /** The casts to an enum over `payload` part on `v`. */
  ghost predicate Tells(v: int, payload: Ty) {
    Fits128(v) && CastFirst(v, payload) != Some(IntCast(v, W32, true))
  }

  lemma OutsideShrinks(v: int, width: nat, signed: bool)
    requires width > 0 && !InRange(v, width, signed)
    ensures Reduce(v, width, signed) != v
  {
    ReduceCongruent(v, width, signed);
  }

  /** `2^k` fits every signed type wider than `k + 1` bits and no signed type of `k + 1` bits. */
  lemma PowerFits(k: nat, width: nat)
    requires width > 0
    ensures InRange(Pow2(k), width, true) <==> k + 1 < width
  {
    if k < width - 1 { Pow2Monotone(k, width - 1); }
    if width - 1 < k { Pow2Monotone(width - 1, k); }
  }

  /** A cast keeps exactly the values its type can represent. */
  lemma CastKeeps(v: int, w: IntWidth, signed: bool)
    ensures IntCast(v, w, signed) == v <==> InRange(v, IntBits(w), signed || w == W128)
  {
    if InRange(v, IntBits(w), signed || w == W128) {
      InRangeKept(v, IntBits(w), signed || w == W128);
    } else {
      OutsideShrinks(v, IntBits(w), signed || w == W128);
    }
  }

  /** One of the two casts keeps `v` and the other does not. */
  lemma ApartByRange(v: int, w: IntWidth, signed: bool)
    requires InRange(v, IntBits(W32), true) != InRange(v, IntBits(w), signed || w == W128)
    ensures IntCast(v, w, signed) != IntCast(v, W32, true)
  {
    CastKeeps(v, w, signed);
    CastKeeps(v, W32, true);
  }

  lemma {:induction false} TellingApart(payload: Ty) returns (v: int)
    requires !OverInt(payload)
    ensures Tells(v, payload)
  {
    match payload {
      case Int(w) => v := SignedApart(w);
      case Uint(w) => v := UnsignedApart(w);
      case Enum(inner) => v := TellingApart(inner);
      case Alias(underlying) => v := TellingApart(underlying);
      case _ =>
        v := if payload.Bool? then 2 else -1;
        OtherApart(v, payload);
    }
  }

  lemma OtherApart(v: int, payload: Ty)
    requires !payload.Int? && !payload.Uint? && !payload.Enum? && !payload.Alias?
    requires v == if payload.Bool? then 2 else -1
    ensures Tells(v, payload)
  {
    SmallKept(v);
  }

  lemma SignedApart(w: IntWidth) returns (v: int)
    requires w != W32
    ensures Tells(v, Int(w))
  {
    v := SignedTelling(w);
    ApartByRange(v, w, true);
  }

  lemma UnsignedApart(w: IntWidth) returns (v: int)
    ensures Tells(v, Uint(w))
  {
    v := UnsignedTelling(w);
    ApartByRange(v, w, false);
  }

  lemma SmallKept(v: int)
    requires -1 <= v <= 2
    ensures IntCast(v, W32, true) == v && Fits128(v)
  {
    SmallFits(v);
    CastKeeps(v, W32, true);
  }

  lemma SmallFits(v: int)
    requires -1 <= v <= 2
    ensures InRange(v, IntBits(W32), true) && Fits128(v)
  {
    PowerFits(1, IntBits(W32));
    PowerFits(1, WIDE);
  }

  /** A power of two that just one of `int` and a signed type of another width can hold. */
  lemma SignedTelling(w: IntWidth) returns (v: int)
    requires w != W32
    ensures Fits128(v) && InRange(v, IntBits(W32), true) != InRange(v, IntBits(w), true)
  {
    var k := if w == W8 then 7 else if w == W16 then 15 else 31;
    v := Pow2(k);
    PowerFits(k, IntBits(w));
    PowerFits(k, IntBits(W32));
    PowerFits(k, WIDE);
  }

  lemma UnsignedTelling(w: IntWidth) returns (v: int)
    ensures Fits128(v) && InRange(v, IntBits(W32), true) != InRange(v, IntBits(w), w == W128)
  {
    if w == W128 {
      var k := 31;
      v := Pow2(k);
      PowerFits(k, IntBits(W128));
      PowerFits(k, IntBits(W32));
      PowerFits(k, WIDE);
    } else {
      v := -1;
      SmallFits(v);
    }
  }

  lemma {:induction false} CastsPart(target: Ty) returns (v: int)
    requires !AgreeableTarget(target)
    ensures Fits128(v) && CastFirst(v, target) != CastSecond(v, target)
  {
    if target.Enum? {
      v := TellingApart(target.payload);
    } else if target.Alias? {
      v := CastsPart(target.target);
    } else {
      v := 0;
      SmallFits(v);
      AdtParts(v, target);
    }
  }

  lemma AdtParts(v: int, target: Ty)
    requires target.Record? || target.Complex? || target.MaybeUninit? || target.Foreign?
    ensures CastFirst(v, target).None? && CastSecond(v, target).Some?
  {
  }

  /** Casts to a type agree on all values exactly when it is no ADT or an enum over a 32-bit `int`. */
  lemma CastsAgreeExactly(target: Ty)
    ensures AgreeableTarget(target) <==> forall v: int :: Fits128(v) ==> CastFirst(v, target) == CastSecond(v, target)
  {
    if AgreeableTarget(target) {
      forall v: int | Fits128(v)
        ensures CastFirst(v, target) == CastSecond(v, target)
      {
        CastsAgree(v, target);
      }
    } else {
      var v := CastsPart(target);
    }
  }
}
