/** Wrapping at every node is wrapping once, and an expression's type is the largest among its leaves. */
module ConstWrap {
  import opened CTypes
  import opened Bits
  import opened Wrap
  import opened ConstExpr

  // ---- wrapping is a homomorphism ----

  predicate RingOp(op: BinOp) {
    op.Add? || op.Sub? || op.Mul?
  }

  predicate RingNode(e: Expr) {
    || (e.Unary? && (e.op.Plus? || e.op.Minus? || e.op.Com?))
    || (e.Binary? && RingOp(e.bop))
  }

  /** Sums, differences, products, signs and complements over atoms of one type. */
  predicate RingTree(e: Expr, ty: IntTy) {
    if RingNode(e) then
      match e
      case Unary(_, inner) => RingTree(inner, ty)
      case Binary(l, _, r) => RingTree(l, ty) && RingTree(r, ty)
      case _ => false
    else TyOf(e) == Some(ty)
  }

  /** The value over the unbounded integers, given what the atoms evaluate to. */
  function Exact(table: seq<Named>, n: nat, e: Expr): Option<int>
    requires Scoped(table) && n <= |table| && NamesBelow(e, n)
  {
    if e.Unary? && RingNode(e) then
      var v := Exact(table, n, e.inner);
      if v.None? then None
      else Some(if e.op.Plus? then v.value else if e.op.Minus? then -v.value else -v.value - 1)
    else if e.Binary? && RingNode(e) then
      var l, r := Exact(table, n, e.lhs), Exact(table, n, e.rhs);
      if l.None? || r.None? then None
      else Some(if e.bop.Add? then l.value + r.value else if e.bop.Sub? then l.value - r.value else l.value * r.value)
    else EvalFirst(table, n, e)
  }

  lemma {:induction false} TreeTy(e: Expr, ty: IntTy)
    requires RingTree(e, ty)
    ensures TyOf(e) == Some(ty)
  {
    if RingNode(e) {
      match e {
        case Unary(_, inner) => TreeTy(inner, ty);
        case Binary(l, _, r) =>
          TreeTy(l, ty);
          TreeTy(r, ty);
      }
    }
  }

  ghost predicate Same(a: int, b: int, ty: IntTy)
    requires ValidTy(ty)
  {
    Congruent(a, b, Pow2(ty.width))
  }

  lemma ConvertSame(a: int, ty: IntTy)
    requires ValidTy(ty)
    ensures Same(Convert(a, ty), a, ty)
  {
    ReduceCongruent(a, ty.width, ty.signed || ty.width == WIDE);
    Flip(a, Convert(a, ty), Pow2(ty.width));
  }

  function RingValue(op: BinOp, a: int, b: int): int
    requires RingOp(op)
  {
    if op.Add? then a + b else if op.Sub? then a - b else a * b
  }

  lemma RingSame(op: BinOp, a: int, b: int, c: int, d: int, m: int)
    requires RingOp(op) && Congruent(a, b, m) && Congruent(c, d, m)
    ensures Congruent(RingValue(op, a, c), RingValue(op, b, d), m)
  {
    if op.Add? {
      CongruentAdd(a, b, c, d, m);
    } else if op.Sub? {
      CongruentNeg(c, d, m);
      CongruentAdd(a, b, -c, -d, m);
    } else {
      CongruentMul(a, b, c, d, m);
    }
  }

  lemma BinaryRing(lhs: Expr, op: BinOp, rhs: Expr, l: int, r: int, ty: IntTy)
    requires RingOp(op) && OperandTy(lhs, rhs) == Some(ty)
    ensures var v := Checked(RingValue(op, Convert(l, ty), Convert(r, ty)));
            BinaryFirst(lhs, op, rhs, l, r) == if v.Some? then Some(Convert(v.value, ty)) else None
  {
    assert ApplyArithmetic(op, Convert(l, ty), Convert(r, ty)) == Checked(RingValue(op, Convert(l, ty), Convert(r, ty)));
  }

  lemma UnaryCongruent(op: UnaryOp, v: int, x: int, m: int)
    requires Congruent(v, x, m) && (op.Plus? || op.Minus? || op.Com?)
    ensures Congruent(if op.Plus? then v else if op.Minus? then -v else -v - 1,
                      if op.Plus? then x else if op.Minus? then -x else -x - 1, m)
  {
    CongruentNeg(v, x, m);
    Refl(-1, m);
    CongruentAdd(-v, -x, -1, -1, m);
  }

  lemma BinaryCongruent(op: BinOp, l: int, r: int, x: int, y: int, ty: IntTy)
    requires RingOp(op) && ValidTy(ty) && Same(l, x, ty) && Same(r, y, ty)
    ensures Same(Convert(RingValue(op, Convert(l, ty), Convert(r, ty)), ty), RingValue(op, x, y), ty)
  {
    var m := Pow2(ty.width);
    ConvertSame(l, ty);
    ConvertSame(r, ty);
    Chain(Convert(l, ty), l, x, m);
    Chain(Convert(r, ty), r, y, m);
    RingSame(op, Convert(l, ty), x, Convert(r, ty), y, m);
    var v := RingValue(op, Convert(l, ty), Convert(r, ty));
    ConvertSame(v, ty);
    Chain(Convert(v, ty), v, RingValue(op, x, y), m);
  }

  lemma UnaryCase(table: seq<Named>, n: nat, e: Expr, ty: IntTy)
    requires Scoped(table) && n <= |table| && NamesBelow(e, n) && ValidTy(ty)
    requires e.Unary? && RingNode(e) && EvalFirst(table, n, e).Some?
    requires EvalFirst(table, n, e.inner).Some? && Exact(table, n, e.inner).Some?
    requires Same(EvalFirst(table, n, e.inner).value, Exact(table, n, e.inner).value, ty)
    ensures Exact(table, n, e).Some? && Same(EvalFirst(table, n, e).value, Exact(table, n, e).value, ty)
  {
    UnaryCongruent(e.op, EvalFirst(table, n, e.inner).value, Exact(table, n, e.inner).value, Pow2(ty.width));
  }

  lemma BinaryCase(table: seq<Named>, n: nat, e: Expr, ty: IntTy)
    requires Scoped(table) && n <= |table| && NamesBelow(e, n) && ValidTy(ty)
    requires e.Binary? && RingNode(e) && EvalFirst(table, n, e).Some? && OperandTy(e.lhs, e.rhs) == Some(ty)
    requires EvalFirst(table, n, e.lhs).Some? && Exact(table, n, e.lhs).Some?
    requires Same(EvalFirst(table, n, e.lhs).value, Exact(table, n, e.lhs).value, ty)
    requires EvalFirst(table, n, e.rhs).Some? && Exact(table, n, e.rhs).Some?
    requires Same(EvalFirst(table, n, e.rhs).value, Exact(table, n, e.rhs).value, ty)
    ensures Exact(table, n, e).Some? && Same(EvalFirst(table, n, e).value, Exact(table, n, e).value, ty)
  {
    var l, r := EvalFirst(table, n, e.lhs).value, EvalFirst(table, n, e.rhs).value;
    var x, y := Exact(table, n, e.lhs).value, Exact(table, n, e.rhs).value;
    assert EvalFirst(table, n, e) == BinaryFirst(e.lhs, e.bop, e.rhs, l, r);
    BinaryRing(e.lhs, e.bop, e.rhs, l, r, ty);
    BinaryCongruent(e.bop, l, r, x, y, ty);
    assert Exact(table, n, e) == Some(RingValue(e.bop, x, y));
  }

  lemma UnarySucceeds(table: seq<Named>, n: nat, e: Expr)
    requires Scoped(table) && n <= |table| && NamesBelow(e, n) && e.Unary? && EvalFirst(table, n, e).Some?
    ensures EvalFirst(table, n, e.inner).Some?
  {
  }

  lemma BinarySucceeds(table: seq<Named>, n: nat, e: Expr)
    requires Scoped(table) && n <= |table| && NamesBelow(e, n) && e.Binary? && EvalFirst(table, n, e).Some?
    ensures EvalFirst(table, n, e.lhs).Some? && EvalFirst(table, n, e.rhs).Some?
  {
  }

  /** Evaluation and exact arithmetic never drift apart modulo the type's width. */
  lemma {:induction false} EvalCongruent(table: seq<Named>, n: nat, e: Expr, ty: IntTy)
    requires Scoped(table) && n <= |table| && NamesBelow(e, n) && RingTree(e, ty) && ValidTy(ty)
    requires EvalFirst(table, n, e).Some?
    ensures Exact(table, n, e).Some? && Same(EvalFirst(table, n, e).value, Exact(table, n, e).value, ty)
  {
    if !RingNode(e) {
      Refl(EvalFirst(table, n, e).value, Pow2(ty.width));
    } else if e.Unary? {
      UnarySucceeds(table, n, e);
      EvalCongruent(table, n, e.inner, ty);
      UnaryCase(table, n, e, ty);
    } else {
      BinarySucceeds(table, n, e);
      EvalCongruent(table, n, e.lhs, ty);
      EvalCongruent(table, n, e.rhs, ty);
      TreeTy(e.lhs, ty);
      TreeTy(e.rhs, ty);
      BinaryCase(table, n, e, ty);
    }
  }

  /** Wrapping at every node gives what wrapping the exact result once gives. */
  lemma WrapOnce(table: seq<Named>, n: nat, e: Expr, ty: IntTy)
    requires Scoped(table) && n <= |table| && NamesBelow(e, n) && RingTree(e, ty) && ValidTy(ty)
    requires EvalFirst(table, n, e).Some?
    ensures Exact(table, n, e).Some? && Convert(EvalFirst(table, n, e).value, ty) == Convert(Exact(table, n, e).value, ty)
  {
    EvalCongruent(table, n, e, ty);
    ReduceEqual(EvalFirst(table, n, e).value, Exact(table, n, e).value, ty.width, ty.signed || ty.width == WIDE);
  }

  // ---- which operations can overflow ----

  /** Types in which `op` on converted operands always fits an `i128`. */
  predicate Roomy(op: BinOp, ty: IntTy) {
    ty.width <= 32 || (ty.width == 64 && (ty.signed || !op.Mul?))
  }

  lemma SmallProduct(a: int, b: int, h: int)
    requires h > 0 && -h <= a <= h && -h <= b <= h
    ensures -(h * h) <= a * b <= h * h
  {
    if a >= 0 && b >= 0 { Mono(a, h, b, h); }
    if a < 0 && b < 0 { Mono(-a, h, -b, h); assert a * b == (-a) * (-b); }
    if a >= 0 && b < 0 { Mono(a, h, -b, h); assert a * b == -(a * (-b)); }
    if a < 0 && b >= 0 { Mono(-a, h, b, h); assert a * b == -((-a) * b); }
  }

  lemma Mono(a: nat, h: nat, b: nat, k: nat)
    requires a <= h && b <= k
    ensures 0 <= a * b <= h * k
  {
  }

  /** Converted operands are at most `2^k` in size, and `2^2k` fits with room to spare. */
  lemma RoomySize(op: BinOp, ty: IntTy, v: int) returns (k: nat)
    requires RingOp(op) && ValidTy(ty) && Roomy(op, ty)
    ensures k <= 64 && (op.Mul? ==> k <= 63) && -(Pow2(k) as int) <= Convert(v, ty) <= Pow2(k)
    ensures k == if ty.signed then ty.width - 1 else ty.width
  {
    ReduceCongruent(v, ty.width, ty.signed || ty.width == WIDE);
    k := if ty.signed then ty.width - 1 else ty.width;
  }

  lemma RoomyProduct(a: int, b: int, k: nat)
    requires k <= 63 && -(Pow2(k) as int) <= a <= Pow2(k) && -(Pow2(k) as int) <= b <= Pow2(k)
    ensures Fits128(a * b)
  {
    SmallProduct(a, b, Pow2(k));
    Pow2Add(k, k);
    Pow2Monotone(k + k, WIDE - 1);
  }

  lemma SumBounds(a: int, b: int, p: int, top: int)
    requires -p <= a <= p && -p <= b <= p && 2 * p < top
    ensures -top <= a + b < top && -top <= a - b < top
  {
  }

  lemma RoomySum(a: int, b: int, k: nat)
    requires k <= 64 && -(Pow2(k) as int) <= a <= Pow2(k) && -(Pow2(k) as int) <= b <= Pow2(k)
    ensures Fits128(a + b) && Fits128(a - b)
  {
    Pow2Monotone(k, WIDE - 2);
    Pow2Monotone(WIDE - 2, WIDE - 1);
    SumBounds(a, b, Pow2(k), Pow2(WIDE - 1));
  }

  lemma RoomyFits(op: BinOp, ty: IntTy, l: int, r: int)
    requires RingOp(op) && ValidTy(ty) && Roomy(op, ty)
    ensures Fits128(RingValue(op, Convert(l, ty), Convert(r, ty)))
  {
    var k := RoomySize(op, ty, l);
    var k' := RoomySize(op, ty, r);
    if op.Mul? {
      RoomyProduct(Convert(l, ty), Convert(r, ty), k);
    } else {
      RoomySum(Convert(l, ty), Convert(r, ty), k);
    }
  }

  lemma LargestSquare(p: int)
    requires p >= 4
    ensures 2 * ((p - 1) * (p - 1)) >= p * p >= 4 * p
  {
    assert (p - 1) * (p - 1) == p * p - 2 * p + 1;
  }

  /** Half the square of `p` is already too much if `p * p` is twice the limit. */
  lemma SquareTooBig(p: int, limit: int)
    requires p >= 4 && p * p >= 2 * limit
    ensures (p - 1) * (p - 1) >= limit
  {
    LargestSquare(p);
  }

  lemma HalfWidthSquare(w: nat) returns (l: int)
    requires w + w == WIDE
    ensures InRange(l, w, false) && Fits128(l) && !Fits128(l * l)
  {
    var p: int := Pow2(w);
    Pow2Monotone(w, WIDE - 1);
    Pow2Monotone(2, w);
    l := p - 1;
    Pow2Add(w, w);
    SquareTooBig(p, Pow2(WIDE - 1));
  }

  lemma UnsignedSquareOverflows(ty: IntTy) returns (l: int)
    requires ty.width + ty.width == WIDE && !ty.signed && ValidTy(ty)
    ensures Fits128(l) && Convert(l, ty) == l && !Fits128(l * l)
  {
    l := HalfWidthSquare(ty.width);
    InRangeKept(l, ty.width, false);
  }

  lemma WideOverflows(op: BinOp, ty: IntTy) returns (l: int, r: int)
    requires RingOp(op) && ty.width == WIDE
    ensures Fits128(l) && Fits128(r) && Convert(l, ty) == l && Convert(r, ty) == r && !Fits128(RingValue(op, l, r))
  {
    var top: int := Pow2(WIDE - 1);
    Pow2Monotone(2, WIDE - 1);
    l := top - 1;
    r := if op.Sub? then -1 else l;
    InRangeKept(l, WIDE, true);
    InRangeKept(r, WIDE, true);
    if op.Mul? {
      LargestSquare(top);
      SquareTooBig(top, top);
    }
  }

  /** +, - and * never report overflow in a type exactly when it has at most 32 bits, or 64 and not both unsigned and *. */
  lemma OverflowFree(op: BinOp, ty: IntTy)
    requires RingOp(op) && ValidTy(ty)
    ensures Roomy(op, ty) <==>
            forall l, r :: Fits128(l) && Fits128(r) ==> Fits128(RingValue(op, Convert(l, ty), Convert(r, ty)))
  {
    if Roomy(op, ty) {
      forall l, r
        ensures Fits128(RingValue(op, Convert(l, ty), Convert(r, ty)))
      {
        RoomyFits(op, ty, l, r);
      }
    } else {
      var l, r := SomeOverflow(op, ty);
    }
  }

  // ---- the order of integer types ----

  ghost predicate NeverFails(lhs: Expr, op: BinOp, rhs: Expr) {
    forall l, r :: Fits128(l) && Fits128(r) ==> BinaryFirst(lhs, op, rhs, l, r).Some?
  }

  lemma FailsOnOverflow(lhs: Expr, op: BinOp, rhs: Expr, l: int, r: int, ty: IntTy)
    requires RingOp(op) && ValidTy(ty) && OperandTy(lhs, rhs) == Some(ty)
    ensures BinaryFirst(lhs, op, rhs, l, r).Some? <==> Fits128(RingValue(op, Convert(l, ty), Convert(r, ty)))
  {
    BinaryRing(lhs, op, rhs, l, r, ty);
  }

  /** So the evaluator itself never fails on +, - or * in such a type, and in any other it fails on some operands. */
  lemma EvaluatorOverflowFree(lhs: Expr, op: BinOp, rhs: Expr, ty: IntTy)
    requires RingOp(op) && ValidTy(ty) && OperandTy(lhs, rhs) == Some(ty)
    ensures Roomy(op, ty) <==> NeverFails(lhs, op, rhs)
  {
    if Roomy(op, ty) {
      forall l, r | Fits128(l) && Fits128(r)
        ensures BinaryFirst(lhs, op, rhs, l, r).Some?
      {
        RoomyFits(op, ty, l, r);
        FailsOnOverflow(lhs, op, rhs, l, r, ty);
      }
    } else {
      var l, r := SomeOverflow(op, ty);
      FailsOnOverflow(lhs, op, rhs, l, r, ty);
    }
  }

  lemma SomeOverflow(op: BinOp, ty: IntTy) returns (l: int, r: int)
    requires RingOp(op) && ValidTy(ty) && !Roomy(op, ty)
    ensures Fits128(l) && Fits128(r) && !Fits128(RingValue(op, Convert(l, ty), Convert(r, ty)))
  {
    if ty.width == 64 {
      l := UnsignedSquareOverflows(ty);
      r := l;
    } else {
      l, r := WideOverflows(op, ty);
    }
  }

  /** Operands with values are enough for a value. */
  lemma RoomySucceeds(table: seq<Named>, n: nat, e: Expr, ty: IntTy)
    requires Scoped(table) && n <= |table| && NamesBelow(e, n) && e.Binary?
    requires RingOp(e.bop) && ValidTy(ty) && OperandTy(e.lhs, e.rhs) == Some(ty) && Roomy(e.bop, ty)
    ensures EvalFirst(table, n, e).Some? <==> EvalFirst(table, n, e.lhs).Some? && EvalFirst(table, n, e.rhs).Some?
  {
    if EvalFirst(table, n, e.lhs).Some? && EvalFirst(table, n, e.rhs).Some? {
      var l, r := EvalFirst(table, n, e.lhs).value, EvalFirst(table, n, e.rhs).value;
      BinaryRing(e.lhs, e.bop, e.rhs, l, r, ty);
      RoomyFits(e.bop, ty, l, r);
    }
  }

  // ---- static types ----

  lemma ConvertInRange(v: int, ty: IntTy)
    requires ValidTy(ty)
    ensures InRange(Convert(v, ty), ty.width, ty.signed || ty.width == WIDE)
  {
    ReduceCongruent(v, ty.width, ty.signed || ty.width == WIDE);
  }

  lemma ArithmeticValue(lhs: Expr, op: BinOp, rhs: Expr, l: int, r: int, ty: IntTy) returns (x: int)
    requires Arithmetic(op) && OperandTy(lhs, rhs) == Some(ty) && BinaryFirst(lhs, op, rhs, l, r).Some?
    ensures BinaryFirst(lhs, op, rhs, l, r) == Some(Convert(x, ty))
  {
    x := ApplyArithmetic(op, Convert(l, ty), Convert(r, ty)).value;
  }

  lemma TruthInRange(v: int)
    requires v == 0 || v == 1
    ensures InRange(v, 32, true)
  {
    Pow2Monotone(0, 31);
  }

  /** The value of an arithmetic operation, a comparison or a logical connective is one its static type can
      represent; 128-bit values are kept as signed ones. */
  lemma ValueOfItsType(table: seq<Named>, n: nat, e: Expr, ty: IntTy)
    requires Scoped(table) && n <= |table| && NamesBelow(e, n)
    requires e.Binary? && (Arithmetic(e.bop) || Comparison(e.bop) || e.bop.And? || e.bop.Or?)
    requires TyOf(e) == Some(ty) && EvalFirst(table, n, e).Some?
    ensures InRange(EvalFirst(table, n, e).value, ty.width, ty.signed || ty.width == WIDE)
  {
    BinarySucceeds(table, n, e);
    var l, r := EvalFirst(table, n, e.lhs).value, EvalFirst(table, n, e.rhs).value;
    if Arithmetic(e.bop) {
      var x := ArithmeticValue(e.lhs, e.bop, e.rhs, l, r, ty);
      ConvertInRange(x, ty);
    } else {
      TruthInRange(EvalFirst(table, n, e).value);
    }
  }

  /** s8 < u8 < s16 < u16 < ... < s128 < u128. */
  function Rank(ty: IntTy): nat {
    2 * ty.width + (if ty.signed then 0 else 1)
  }

  /** The common type is the larger one: a join, whatever the order of operands. */
  lemma CommonIsJoin(a: IntTy, b: IntTy)
    ensures CommonTy(a, b) == if Rank(a) >= Rank(b) then a else b
    ensures Rank(a) == Rank(b) ==> a == b
  {
  }

  /** Operators whose type comes from both operands. */
  predicate Balancing(op: BinOp) {
    !Comparison(op) && !op.And? && !op.Or? && !op.Comma?
  }

  /** Operators whose type is their operand's. */
  predicate Signing(op: UnaryOp) {
    op.Plus? || op.Minus? || op.Com? || op.Not?
  }

  function Leaves(e: Expr): seq<Expr> {
    match e
    case Unary(op, inner) => if Signing(op) then Leaves(inner) else [e]
    case Binary(l, op, r) => if Balancing(op) then Leaves(l) + Leaves(r) else [e]
    case Conditional(c, t, f) => Leaves(if t.Some? then t.value else c) + Leaves(f)
    case _ => [e]
  }

  ghost function LeafTys(e: Expr): set<Option<IntTy>> {
    set leaf | leaf in Leaves(e) :: TyOf(leaf)
  }

  /** The type of a tree whose leaves all have one is the largest of theirs. */
  lemma {:induction false} TypeIsLargestLeaf(e: Expr)
    requires None !in LeafTys(e)
    ensures TyOf(e).Some? && TyOf(e) in LeafTys(e)
    ensures forall ty :: ty in LeafTys(e) ==> Rank(ty.value) <= Rank(TyOf(e).value)
  {
    if e.Unary? && Signing(e.op) {
      TypeIsLargestLeaf(e.inner);
    } else if e.Conditional? {
      var first := if e.thenExpr.Some? then e.thenExpr.value else e.cond;
      assert LeafTys(e) == LeafTys(first) + LeafTys(e.elseExpr);
      TypeIsLargestLeaf(first);
      TypeIsLargestLeaf(e.elseExpr);
      CommonIsJoin(TyOf(first).value, TyOf(e.elseExpr).value);
    } else if e.Binary? && Balancing(e.bop) {
      assert LeafTys(e) == LeafTys(e.lhs) + LeafTys(e.rhs);
      TypeIsLargestLeaf(e.lhs);
      TypeIsLargestLeaf(e.rhs);
      CommonIsJoin(TyOf(e.lhs).value, TyOf(e.rhs).value);
    } else {
      assert LeafTys(e) == {TyOf(e)};
    }
  }

  /** So the shape of the tree does not matter: trees over the same leaf types have the same type. */
  lemma ShapeDoesNotMatter(e: Expr, f: Expr)
    requires None !in LeafTys(e) && LeafTys(e) == LeafTys(f)
    ensures TyOf(e) == TyOf(f)
  {
    TypeIsLargestLeaf(e);
    TypeIsLargestLeaf(f);
    CommonIsJoin(TyOf(e).value, TyOf(f).value);
  }
}
