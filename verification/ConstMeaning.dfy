/** What the operators of a constant expression compute, in either evaluator, said in plain integers. */
module ConstMeaning {
  import opened CTypes
  import opened Bits
  import opened Wrap
  import opened ConstExpr
  import opened ConstLaws
  import opened ConstWrap

  /** The signature pass and the body pass each have an evaluator. */
  datatype Pass = Signature | InBody

  ghost function Eval(pass: Pass, table: seq<Named>, n: nat, e: Expr): Option<int>
    requires Scoped(table) && n <= |table| && NamesBelow(e, n)
  {
    match pass
    case Signature => EvalFirst(table, n, e)
    case InBody => EvalSecond(table, n, e)
  }

  // ---- operands ----

  /** The type arithmetic and comparisons are done in. */
  ghost function WorkTy(e: Expr): (ty: IntTy)
    requires e.Binary?
    ensures ValidTy(ty)
  {
    if OperandTy(e.lhs, e.rhs).Some? then OperandTy(e.lhs, e.rhs).value else IntTy(128, true)
  }

  /** A 128-bit value is kept as an `i128`, whatever its type. */
  predicate Representable(v: int, ty: IntTy)
    requires ValidTy(ty)
  {
    InRange(v, ty.width, ty.signed || ty.width == 128)
  }

  /** The operand value `v` becomes `a` in the type the operation is done in. */
  ghost predicate Becomes(v: int, ty: IntTy, a: int)
    requires ValidTy(ty)
  {
    Representable(a, ty) && Congruent(v, a, Pow2(ty.width))
  }

  /** The operands of `e` have values, which become `a` and `b`. */
  ghost predicate OperandsAre(pass: Pass, table: seq<Named>, n: nat, e: Expr, a: int, b: int)
    requires Scoped(table) && n <= |table| && e.Binary? && NamesBelow(e, n)
  {
    var l, r := Eval(pass, table, n, e.lhs), Eval(pass, table, n, e.rhs);
    && l.Some? && r.Some? && Fits128(l.value) && Fits128(r.value)
    && Becomes(l.value, WorkTy(e), a) && Becomes(r.value, WorkTy(e), b)
  }

  lemma BecomesConverted(v: int, ty: IntTy, a: int)
    requires ValidTy(ty) && Becomes(v, ty, a)
    ensures a == Convert(v, ty)
  {
    ReduceCongruent(v, ty.width, ty.signed || ty.width == 128);
    var c, m := Convert(v, ty), Pow2(ty.width);
    Flip(v, a, m);
    Chain(a, v, c, m);
    OneInRange(a, c, ty.width, ty.signed || ty.width == 128);
  }

  /** Both evaluators apply the operator to the operands as they became, and bring arithmetic back to the type. */
  lemma Applied(pass: Pass, table: seq<Named>, n: nat, e: Expr, a: int, b: int)
    requires Scoped(table) && n <= |table| && e.Binary? && NamesBelow(e, n)
    requires OperandsAre(pass, table, n, e, a, b)
    ensures Comparison(e.bop) ==> Eval(pass, table, n, e) == Some(FromBool(Compare(e.bop, a, b)))
    ensures Arithmetic(e.bop) ==>
              var v := ApplyArithmetic(e.bop, a, b);
              Eval(pass, table, n, e) == if v.Some? then Some(if OperandTy(e.lhs, e.rhs).Some? then Convert(v.value, WorkTy(e)) else v.value)
                                         else None
  {
    var l, r := Eval(pass, table, n, e.lhs).value, Eval(pass, table, n, e.rhs).value;
    BinariesAgree(e.lhs, e.bop, e.rhs, l, r);
    assert Eval(pass, table, n, e) == BinaryFirst(e.lhs, e.bop, e.rhs, l, r);
    if OperandTy(e.lhs, e.rhs).Some? {
      BecomesConverted(l, WorkTy(e), a);
      BecomesConverted(r, WorkTy(e), b);
    } else {
      OneInRange(a, l, 128, true) by { Flip(l, a, Pow2(128)); }
      OneInRange(b, r, 128, true) by { Flip(r, b, Pow2(128)); }
    }
  }

  // ---- comparisons and connectives ----

  /** A comparison is 1 if the operands are so ordered, and otherwise 0. */
  lemma ComparisonMeaning(pass: Pass, table: seq<Named>, n: nat, e: Expr, a: int, b: int)
    requires Scoped(table) && n <= |table| && e.Binary? && NamesBelow(e, n)
    requires OperandsAre(pass, table, n, e, a, b)
    ensures e.bop == Lt ==> Eval(pass, table, n, e) == Some(if a < b then 1 else 0)
    ensures e.bop == Gt ==> Eval(pass, table, n, e) == Some(if b < a then 1 else 0)
    ensures e.bop == Le ==> Eval(pass, table, n, e) == Some(if b < a then 0 else 1)
    ensures e.bop == Ge ==> Eval(pass, table, n, e) == Some(if a < b then 0 else 1)
    ensures e.bop == Eq ==> Eval(pass, table, n, e) == Some(if a < b || b < a then 0 else 1)
    ensures e.bop == Ne ==> Eval(pass, table, n, e) == Some(if a < b || b < a then 1 else 0)
  {
    Applied(pass, table, n, e, a, b);
  }

  /** `&&` and `||` ask whether their operands are zero, but need a value of both. */
  lemma ConnectiveMeaning(pass: Pass, table: seq<Named>, n: nat, e: Expr)
    requires Scoped(table) && n <= |table| && e.Binary? && NamesBelow(e, n) && (e.bop.And? || e.bop.Or?)
    ensures var l, r, v := Eval(pass, table, n, e.lhs), Eval(pass, table, n, e.rhs), Eval(pass, table, n, e);
            && (v.Some? <==> l.Some? && r.Some?)
            && (v.Some? ==> v == Some(0) || v == Some(1))
            && (v == Some(0) <==> l.Some? && r.Some? && if e.bop.And? then l == Some(0) || r == Some(0) else l == Some(0) && r == Some(0))
  {
    var l, r := Eval(pass, table, n, e.lhs), Eval(pass, table, n, e.rhs);
    if l.Some? && r.Some? { BinariesAgree(e.lhs, e.bop, e.rhs, l.value, r.value); }
  }

  /** The unary operators; a sign fails only where the negative does not fit. */
  lemma UnaryMeaning(pass: Pass, table: seq<Named>, n: nat, op: UnaryOp, inner: Expr)
    requires Scoped(table) && n <= |table| && NamesBelow(inner, n)
    ensures var v, r := Eval(pass, table, n, inner), Eval(pass, table, n, Unary(op, inner));
            && (r.Some? <==> v.Some? && (op.Plus? || op.Not? || op.Com? || (op.Minus? && Fits128(-v.value))))
            && (op.Not? && v.Some? ==> r == Some(if v.value == 0 then 1 else 0))
            && (op.Minus? && r.Some? ==> r.value + v.value == 0)
            && (op.Com? && r.Some? ==> r.value + v.value == -1)
            && (op.Plus? && r.Some? ==> r == v)
  {
  }

  /** The branch not taken is not evaluated: whether it has a value does not matter. A missing branch is the condition. */
  lemma ConditionalMeaning(pass: Pass, table: seq<Named>, n: nat, cond: Expr, thenExpr: Option<Expr>, elseExpr: Expr)
    requires Scoped(table) && n <= |table| && NamesBelow(Conditional(cond, thenExpr, elseExpr), n)
    ensures var c, v := Eval(pass, table, n, cond), Eval(pass, table, n, Conditional(cond, thenExpr, elseExpr));
            && (c.None? ==> v.None?)
            && (c == Some(0) ==> v == Eval(pass, table, n, elseExpr))
            && (c.Some? && c != Some(0) ==> v == match thenExpr case Some(t) => Eval(pass, table, n, t) case None => c)
  {
  }

  /** Literals have the value they spell, `__builtin_constant_p` tells whether its argument has one, and a comma or an
      assignment has none. */
  lemma LeafMeaning(pass: Pass, table: seq<Named>, n: nat, e: Expr)
    requires Scoped(table) && n <= |table| && NamesBelow(e, n)
    ensures var v := Eval(pass, table, n, e);
            && (e.IntConst? ==> v == Some(e.value)) && (e.CharConst? ==> v == Some(e.code))
            && (e.BoolConst? ==> v == Some(if e.b then 1 else 0))
            && (e.NamedConst? ==> v == ValueOf(table, e.id))
            && (e.ConstantP? ==> v == Some(if Eval(pass, table, n, e.arg).Some? then 1 else 0))
            && (e.Binary? && (e.bop.Comma? || e.bop.Assign?) ==> v.None?) && (e.NotConstant? ==> v.None?)
  {
    if e.Binary? {
      var l, r := Eval(pass, table, n, e.lhs), Eval(pass, table, n, e.rhs);
      if l.Some? && r.Some? { BinariesAgree(e.lhs, e.bop, e.rhs, l.value, r.value); }
    }
  }

  // ---- arithmetic ----

  /** Sums, differences and products: the exact result, brought back into the type; an error if it is no `i128`. */
  lemma RingMeaning(pass: Pass, table: seq<Named>, n: nat, e: Expr, a: int, b: int)
    requires Scoped(table) && n <= |table| && e.Binary? && NamesBelow(e, n) && (e.bop.Add? || e.bop.Sub? || e.bop.Mul?)
    requires OperandsAre(pass, table, n, e, a, b)
    ensures var exact, v := if e.bop.Add? then a + b else if e.bop.Sub? then a - b else a * b, Eval(pass, table, n, e);
            && (v.Some? <==> Fits128(exact))
            && (v.Some? ==> Becomes(exact, WorkTy(e), v.value))
  {
    var exact := if e.bop.Add? then a + b else if e.bop.Sub? then a - b else a * b;
    Applied(pass, table, n, e, a, b);
    assert ApplyArithmetic(e.bop, a, b) == Checked(exact);
    Settles(e, exact);
  }

  /** An `i128` result settles in the type of the operation. */
  lemma Settles(e: Expr, exact: int)
    requires e.Binary?
    ensures Becomes(exact, WorkTy(e), Convert(exact, WorkTy(e)))
    ensures OperandTy(e.lhs, e.rhs).None? && Fits128(exact) ==> Becomes(exact, WorkTy(e), exact)
    ensures Representable(exact, WorkTy(e)) ==> Convert(exact, WorkTy(e)) == exact
  {
    var ty := WorkTy(e);
    ReduceCongruent(exact, ty.width, ty.signed || ty.width == 128);
    Refl(exact, Pow2(ty.width));
    if Representable(exact, ty) { InRangeKept(exact, ty.width, ty.signed || ty.width == 128); }
  }

  /** `q` is `a / b` and `m` is `a % b`, as C truncates. */
  predicate Divides(a: int, b: int, q: int, m: int) {
    && a == q * b + m
    && (if b > 0 then -b < m < b else b < m < -b)
    && (if a >= 0 then 0 <= m else m <= 0)
  }

  lemma TruncDivides(a: int, b: int)
    requires b != 0
    ensures Divides(a, b, TruncDiv(a, b), a - TruncDiv(a, b) * b)
  {
    var c, d := if a >= 0 then a else -a, if b > 0 then b else -b;
    var k, m := c / d, c % d;
    assert c == k * d + m && 0 <= m < d;
    SignedQuotient(k, d);
  }

  lemma SignedQuotient(k: int, d: int)
    ensures (-k) * d == -(k * d) == k * (-d) && (-k) * (-d) == k * d
  {
  }

  /** Quotient and remainder are those of C, where the divisor is not zero and the quotient an `i128`. */
  lemma DivisionMeaning(pass: Pass, table: seq<Named>, n: nat, e: Expr, a: int, b: int, q: int, m: int)
    requires Scoped(table) && n <= |table| && e.Binary? && NamesBelow(e, n) && (e.bop.Div? || e.bop.Rem?)
    requires OperandsAre(pass, table, n, e, a, b) && (b != 0 ==> Divides(a, b, q, m))
    ensures var v := Eval(pass, table, n, e);
            && (v.Some? <==> b != 0 && Fits128(q))
            && (v.Some? && e.bop.Div? ==> Becomes(q, WorkTy(e), v.value))
            && (v.Some? && e.bop.Rem? ==> v.value == m)
  {
    Applied(pass, table, n, e, a, b);
    if b != 0 {
      RepresentableFits(a, WorkTy(e));
      Divided(e.bop, a, b, q, m);
      Settles(e, q);
      SmallRemainder(a, b, q, m, WorkTy(e));
      Settles(e, m);
    }
  }

  lemma Divided(op: BinOp, a: int, b: int, q: int, m: int)
    requires (op.Div? || op.Rem?) && Fits128(a) && b != 0 && Divides(a, b, q, m)
    ensures ApplyArithmetic(op, a, b) == if Fits128(q) then Some(if op.Div? then q else m) else None
  {
    TruncDivides(a, b);
    OneQuotient(a, b, q, m, TruncDiv(a, b), a - TruncDiv(a, b) * b);
    QuotientFits(a, b, q, m, Pow2(127));
  }

  lemma SmallRemainder(a: int, b: int, q: int, m: int, ty: IntTy)
    requires ValidTy(ty) && b != 0 && Divides(a, b, q, m) && Representable(a, ty) && Representable(b, ty)
    ensures Representable(m, ty)
  {
  }

  lemma RepresentableFits(a: int, ty: IntTy)
    requires ValidTy(ty) && Representable(a, ty)
    ensures Fits128(a)
  {
    if ty.width < 128 { Pow2Monotone(ty.width, 128); }
  }

  /** Only `-1` can make a quotient larger than the dividend's range. */
  lemma QuotientFits(a: int, b: int, q: int, m: int, p: int)
    requires p > 0 && b != 0 && Divides(a, b, q, m) && -p <= a < p
    ensures b == -1 ==> q == -a && m == 0
    ensures b != -1 ==> -p <= q < p
  {
    if b > 1 { Shrinks(q, b); }
    if b < -1 {
      SignedQuotient(q, -b);
      Shrinks(q, -b);
    }
  }

  lemma Shrinks(q: int, d: int)
    requires d > 1
    ensures q > 0 ==> q * d >= q + q
    ensures q < 0 ==> q * d <= q + q
  {
  }

  lemma OneQuotient(a: int, b: int, q: int, m: int, q': int, m': int)
    requires b != 0 && Divides(a, b, q, m) && Divides(a, b, q', m')
    ensures q == q' && m == m'
  {
    assert (q - q') * b == m' - m;
    var d := if b > 0 then b else -b;
    SignedQuotient(q - q', b);
    if q > q' { AtLeastDivisor(q - q', d); }
    if q < q' { AtLeastDivisor(q' - q, d); }
  }

  // ---- digits ----

  /** Digit `k` of the two's complement of `v`, however far to the left. */
  predicate TwosDigit(v: int, k: nat) {
    v / Pow2(k) % 2 == 1
  }

  lemma HalvedTwice(u: nat, p: nat)
    requires p > 0
    ensures u / 2 / p == u / (2 * p)
  {
    var h, q, m := u / 2, u / 2 / p, u / 2 % p;
    assert h == q * p + m && u == 2 * h + u % 2;
    assert q * (2 * p) == 2 * (q * p);
    UniqueRemainder(u, q, 2 * p, 2 * m + u % 2);
  }

  lemma {:induction false} NaturalDigits(u: nat, k: nat)
    ensures Digit(u, k) <==> TwosDigit(u, k)
  {
    if k > 0 {
      NaturalDigits(u / 2, k - 1);
      HalvedTwice(u, Pow2(k - 1));
    }
  }

  lemma EvenApart(v: int, u: int, c: int, p: int, h: int)
    requires p > 0 && v == u + c * (p * (2 * h))
    ensures v / p % 2 == u / p % 2
  {
    var q, m := u / p, u % p;
    assert u == q * p + m;
    assert c * (p * (2 * h)) == (2 * (c * h)) * p;
    assert (q + 2 * (c * h)) * p == q * p + (2 * (c * h)) * p;
    UniqueRemainder(v, q + 2 * (c * h), p, m);
    ParityKept(q, c * h);
  }

  lemma ParityKept(q: int, j: int)
    ensures (q + 2 * j) % 2 == q % 2
  {
  }

  /** Numbers congruent modulo a power of two have the same digits below it. */
  lemma SameDigits(v: int, u: int, w: nat, k: nat)
    requires Congruent(v, u, Pow2(w)) && k < w
    ensures TwosDigit(v, k) <==> TwosDigit(u, k)
  {
    var c :| Differ(v, u, Pow2(w), c);
    Pow2Add(k, w - k);
    EvenApart(v, u, c, Pow2(k), Pow2(w - k - 1));
  }

  /** The signed reading of the low 128 digits of `u` is congruent to `u`. */
  lemma WordCongruent(u: nat)
    ensures Congruent(u, ToSigned(Low(u, WIDE), WIDE), Pow2(WIDE)) && Fits128(ToSigned(Low(u, WIDE), WIDE))
  {
    LowIsMod(u, WIDE);
    ReduceCongruent(u, WIDE, true);
  }

  lemma PatternDigits(v: int, k: nat)
    requires k < WIDE
    ensures Digit(Pattern(v), k) <==> TwosDigit(v, k)
  {
    SplitAt(v, Pow2(WIDE));
    SameDigits(v, Pattern(v), WIDE, k);
    NaturalDigits(Pattern(v), k);
  }

  lemma WordDigits(u: nat, k: nat)
    requires k < WIDE
    ensures TwosDigit(ToSigned(Low(u, WIDE), WIDE), k) <==> Digit(u, k)
  {
    WordCongruent(u);
    SameDigits(u, ToSigned(Low(u, WIDE), WIDE), WIDE, k);
    NaturalDigits(u, k);
  }

  predicate Bitwise(op: BinOp) {
    op.BitAnd? || op.BitOr? || op.BitXor?
  }

  lemma WordOperation(op: BinOp, a: int, b: int, k: nat) returns (v: int)
    requires Bitwise(op) && k < WIDE
    ensures ApplyArithmetic(op, a, b) == Some(v) && Fits128(v)
    ensures op.BitAnd? ==> (TwosDigit(v, k) <==> TwosDigit(a, k) && TwosDigit(b, k))
    ensures op.BitOr? ==> (TwosDigit(v, k) <==> TwosDigit(a, k) || TwosDigit(b, k))
    ensures op.BitXor? ==> (TwosDigit(v, k) <==> TwosDigit(a, k) != TwosDigit(b, k))
  {
    v := ApplyArithmetic(op, a, b).value;
    var x, y := Pattern(a), Pattern(b);
    var only, other := AndNot(x, y), AndNot(y, x);
    PatternDigits(a, k);
    PatternDigits(b, k);
    AndDigits(x, y, k);
    OrDigits(x, y, k);
    AndNotDigits(x, y, k);
    AndNotDigits(y, x, k);
    OrDigits(only, other, k);
    var u := if op.BitAnd? then Bits.And(x, y) else if op.BitOr? then Bits.Or(x, y) else Bits.Or(only, other);
    WordCongruent(u);
    WordDigits(u, k);
  }

  /** `&`, `|` and `^` work digit by digit, over all digits of the type. */
  lemma BitwiseMeaning(pass: Pass, table: seq<Named>, n: nat, e: Expr, a: int, b: int, k: nat)
    requires Scoped(table) && n <= |table| && e.Binary? && NamesBelow(e, n) && Bitwise(e.bop)
    requires OperandsAre(pass, table, n, e, a, b) && k < WorkTy(e).width
    ensures var v := Eval(pass, table, n, e);
            && v.Some? && Representable(v.value, WorkTy(e))
            && (e.bop.BitAnd? ==> (TwosDigit(v.value, k) <==> TwosDigit(a, k) && TwosDigit(b, k)))
            && (e.bop.BitOr? ==> (TwosDigit(v.value, k) <==> TwosDigit(a, k) || TwosDigit(b, k)))
            && (e.bop.BitXor? ==> (TwosDigit(v.value, k) <==> TwosDigit(a, k) != TwosDigit(b, k)))
  {
    Applied(pass, table, n, e, a, b);
    var v := WordOperation(e.bop, a, b, k);
    Settles(e, v);
    SameDigits(v, Convert(v, WorkTy(e)), WorkTy(e).width, k);
  }

  /** The distance of a shift counts modulo 2^32. */
  ghost predicate IsDistance(r: Option<int>, distance: nat) {
    r.Some? && distance < 0x1_0000_0000 && Congruent(r.value, distance, 0x1_0000_0000)
  }

  ghost predicate LeftBy(l: int, distance: nat, v: int) {
    Fits128(v) && Congruent(l * Pow2(distance), v, Pow2(128))
  }

  ghost predicate RightBy(l: int, distance: nat, v: int) {
    v * Pow2(distance) <= l < (v + 1) * Pow2(distance)
  }

  lemma ShiftApplied(pass: Pass, table: seq<Named>, n: nat, e: Expr)
    requires Scoped(table) && n <= |table| && e.Binary? && NamesBelow(e, n) && (e.bop.Shl? || e.bop.Shr?)
    ensures var l, r := Eval(pass, table, n, e.lhs), Eval(pass, table, n, e.rhs);
            Eval(pass, table, n, e) == if l.Some? && r.Some? then ApplyOther(e.bop, l.value, r.value) else None
  {
    var l, r := Eval(pass, table, n, e.lhs), Eval(pass, table, n, e.rhs);
    if l.Some? && r.Some? { BinariesAgree(e.lhs, e.bop, e.rhs, l.value, r.value); }
  }

  /** `<<` multiplies and drops what does not fit an `i128`; a distance of 128 or more is an error. Operands are not
      converted. */
  lemma LeftShiftMeaning(pass: Pass, table: seq<Named>, n: nat, e: Expr, distance: nat)
    requires Scoped(table) && n <= |table| && e.Binary? && NamesBelow(e, n) && e.bop.Shl?
    requires IsDistance(Eval(pass, table, n, e.rhs), distance)
    ensures var l, v := Eval(pass, table, n, e.lhs), Eval(pass, table, n, e);
            && (v.Some? <==> l.Some? && distance < 128)
            && (v.Some? ==> LeftBy(l.value, distance, v.value))
  {
    ShiftApplied(pass, table, n, e);
    var l, r := Eval(pass, table, n, e.lhs), Eval(pass, table, n, e.rhs);
    if l.Some? { ShiftsLeft(l.value, r.value, distance); }
  }

  lemma ShiftsLeft(l: int, r: int, distance: nat)
    requires IsDistance(Some(r), distance)
    ensures ShiftLeft(l, r).Some? <==> distance < 128
    ensures ShiftLeft(l, r).Some? ==> LeftBy(l, distance, ShiftLeft(l, r).value)
  {
    DistanceIs(Some(r), distance);
    if distance < WIDE { ShiftedLeft(l, distance); }
  }

  /** `>>` divides and rounds down. */
  lemma RightShiftMeaning(pass: Pass, table: seq<Named>, n: nat, e: Expr, distance: nat)
    requires Scoped(table) && n <= |table| && e.Binary? && NamesBelow(e, n) && e.bop.Shr?
    requires IsDistance(Eval(pass, table, n, e.rhs), distance)
    ensures var l, v := Eval(pass, table, n, e.lhs), Eval(pass, table, n, e);
            && (v.Some? <==> l.Some? && distance < 128)
            && (v.Some? ==> RightBy(l.value, distance, v.value))
  {
    ShiftApplied(pass, table, n, e);
    var l, r := Eval(pass, table, n, e.lhs), Eval(pass, table, n, e.rhs);
    if l.Some? { ShiftsRight(l.value, r.value, distance); }
  }

  lemma ShiftsRight(l: int, r: int, distance: nat)
    requires IsDistance(Some(r), distance)
    ensures ShiftRight(l, r).Some? <==> distance < 128
    ensures ShiftRight(l, r).Some? ==> RightBy(l, distance, ShiftRight(l, r).value)
  {
    DistanceIs(Some(r), distance);
    RoundsDown(l, Pow2(distance));
  }

  lemma DistanceIs(r: Option<int>, distance: nat)
    requires IsDistance(r, distance)
    ensures r.value % Pow2(DISTANCE) == distance
  {
    var m := 0x1_0000_0000;
    assert Pow2(8) == 0x100;
    Pow2Add(8, 8);
    Pow2Add(16, 16);
    SplitAt(r.value, m);
    Flip(r.value, distance, m);
    Chain(distance, r.value, r.value % m, m);
    CloseCongruent(distance, r.value % m, m);
  }

  lemma ShiftedLeft(l: int, n: nat)
    requires n < WIDE
    ensures LeftBy(l, n, ToSigned(Low(Bits.Shl(Pattern(l), n), WIDE), WIDE))
  {
    var w := WIDE;
    var m, u := Pow2(w), Bits.Shl(Pattern(l), n);
    ShlIsTimes(Pattern(l), n);
    WordCongruent(u);
    SplitAt(l, m);
    Refl(Pow2(n), m);
    CongruentMul(l, Pattern(l), Pow2(n), Pow2(n), m);
    Chain(l * Pow2(n), u, ToSigned(Low(u, WIDE), WIDE), m);
  }

  lemma RoundsDown(l: int, p: int)
    requires p > 0
    ensures (l / p) * p <= l < (l / p + 1) * p
  {
    assert l == (l / p) * p + l % p;
    assert (l / p + 1) * p == (l / p) * p + p;
  }

  // ---- casts ----

  /** What a cast makes of a value, as far as both evaluators go the same way. */
  lemma CastMeaning(pass: Pass, table: seq<Named>, n: nat, target: Ty, operand: Expr)
    requires Scoped(table) && n <= |table| && NamesBelow(operand, n)
    ensures var v, r := Eval(pass, table, n, operand), Eval(pass, table, n, Cast(target, operand));
            && (r.Some? ==> v.Some?)
            && (v.Some? ==>
                  match target
                  case Bool => r == Some(if v.value == 0 then 0 else 1)
                  case Char => r == if 0 <= v.value <= 0x10FFFF && !(0xD800 <= v.value <= 0xDFFF) then v else None
                  case Int(w) => r.Some? && Becomes(v.value, IntTy(IntBits(w), true), r.value)
                  case Uint(w) => r.Some? && Becomes(v.value, IntTy(IntBits(w), false), r.value)
                  case Alias(underlying) => r == Eval(pass, table, n, Cast(underlying, operand))
                  case Enum(payload) => r == Eval(pass, table, n, Cast(if pass.Signature? then payload else Int(W32), operand))
                  case _ => pass.Signature? ==> r.None?)
  {
    var v := Eval(pass, table, n, operand);
    if v.Some? {
      match target {
        case Int(w) => IntCastBecomes(v.value, w, true);
        case Uint(w) => IntCastBecomes(v.value, w, false);
        case _ =>
      }
    }
  }

  lemma IntCastBecomes(v: int, w: IntWidth, signed: bool)
    ensures Becomes(v, IntTy(IntBits(w), signed), IntCast(v, w, signed))
  {
    ReduceCongruent(v, IntBits(w), signed || w == W128);
  }

  // ---- enumerators ----

  /** Enumerators without an initializer count up from the one before them, as long as an `i128` holds the value. */
  lemma {:induction false} EnumeratorsCount(table: seq<Named>, i: nat, k: nat)
    requires Scoped(table) && i + k < |table|
    requires forall j :: i < j <= i + k ==> table[j] == EnumPrevPlus(j - 1)
    requires ValueOf(table, i).Some? && Fits128(ValueOf(table, i).value)
    ensures var first := ValueOf(table, i).value;
            ValueOf(table, i + k) == if Fits128(first + k) then Some(first + k) else None
  {
    if k > 0 {
      EnumeratorsCount(table, i, k - 1);
      assert table[i + k] == EnumPrevPlus(i + k - 1);
    }
  }

  /** The first enumerator is 0 unless it says otherwise. */
  lemma FirstEnumerator(table: seq<Named>, i: nat)
    requires Scoped(table) && i < |table|
    ensures table[i] == EnumZeroed ==> ValueOf(table, i) == Some(0)
    ensures table[i].EnumExplicit? ==> NamesBelow(table[i].init, i) && ValueOf(table, i) == EvalFirst(table, i, table[i].init)
  {
    assert ScopedAt(table[i], i);
  }

  // ---- types of operands, as ranges ----

  /** The least and the greatest value of a literal's type. `u128` is kept as an `i128`. */
  function SuffixRange(s: Suffix): (int, int) {
    match s
    case NoSuffix => (-0x8000_0000, 0x7fff_ffff)
    case NoneDecimal => (-0x8000_0000, 0x7fff_ffff)
    case Unsigned => (0, 0xffff_ffff)
    case Long => (-0x8000_0000_0000_0000, 0x7fff_ffff_ffff_ffff)
    case LongLong => (-0x8000_0000_0000_0000, 0x7fff_ffff_ffff_ffff)
    case UnsignedLong => (0, 0xffff_ffff_ffff_ffff)
    case UnsignedLongLong => (0, 0xffff_ffff_ffff_ffff)
    case USize => (0, 0xffff_ffff_ffff_ffff)
    case ISize => (-0x8000_0000_0000_0000, 0x7fff_ffff_ffff_ffff)
    case U8 => (0, 255)
    case U16 => (0, 65535)
    case U32 => (0, 0xffff_ffff)
    case U64 => (0, 0xffff_ffff_ffff_ffff)
    case I8 => (-128, 127)
    case I16 => (-32768, 32767)
    case I32 => (-0x8000_0000, 0x7fff_ffff)
    case I64 => (-0x8000_0000_0000_0000, 0x7fff_ffff_ffff_ffff)
    case U128 => (-0x8000_0000_0000_0000_0000_0000_0000_0000, 0x7fff_ffff_ffff_ffff_ffff_ffff_ffff_ffff)
    case I128 => (-0x8000_0000_0000_0000_0000_0000_0000_0000, 0x7fff_ffff_ffff_ffff_ffff_ffff_ffff_ffff)
  }

  function SignedSuffix(w: IntWidth): Suffix {
    match w
    case W8 => I8
    case W16 => I16
    case W32 => I32
    case W64 => I64
    case W128 => I128
    case WSize => ISize
  }

  function UnsignedSuffix(w: IntWidth): Suffix {
    match w
    case W8 => U8
    case W16 => U16
    case W32 => U32
    case W64 => U64
    case W128 => U128
    case WSize => USize
  }

  function AtomRange(e: Expr): Option<(int, int)> {
    match e
    case IntConst(_, suffix) => Some(SuffixRange(suffix))
    case CharConst(_, Utf8) => Some((0, 255))
    case CharConst(_, Utf16) => Some((0, 65535))
    case CharConst(_, Utf32) => Some((0, 0xffff_ffff))
    case CharConst(_, _) => Some((-0x8000_0000, 0x7fff_ffff))
    case Cast(Bool, _) => Some((-128, 127))
    case Cast(Char, _) => Some((-128, 127))
    case Cast(Int(w), _) => Some(SuffixRange(SignedSuffix(w)))
    case Cast(Uint(w), _) => Some(SuffixRange(UnsignedSuffix(w)))
    case Cast(Enum(_), _) => Some((-0x8000_0000, 0x7fff_ffff))
    case Binary(_, Comma, rhs) => AtomRange(rhs)
    case Binary(_, op, _) => if op.And? || op.Or? || Comparison(op) then Some((-0x8000_0000, 0x7fff_ffff)) else None
    case _ => None
  }

  function PowerAt(width: nat): nat {
    match width
    case 8 => 0x100
    case 16 => 0x1_0000
    case 32 => 0x1_0000_0000
    case 64 => 0x1_0000_0000_0000_0000
    case _ => 0x1_0000_0000_0000_0000_0000_0000_0000_0000
  }

  lemma {:induction false} PowerIs(width: nat)
    requires UnitBits(width)
    ensures Pow2(width) == PowerAt(width)
  {
    if width == 8 {
      assert Pow2(8) == 0x100;
    } else {
      PowerIs(width / 2);
      Squared(width / 2, PowerAt(width / 2));
      HalfPower(width);
    }
  }

  lemma HalfPower(width: nat)
    requires UnitBits(width) && width > 8
    ensures UnitBits(width / 2) && width / 2 + width / 2 == width
    ensures PowerAt(width / 2) * PowerAt(width / 2) == PowerAt(width)
  {
  }

  lemma Squared(k: nat, p: nat)
    requires Pow2(k) == p
    ensures Pow2(k + k) == p * p
  {
    Pow2Add(k, k);
  }

  /** The bounds of a type, as numbers. */
  lemma Bounds(ty: IntTy, v: int)
    requires ValidTy(ty)
    ensures Representable(v, ty)
            <==> if ty.signed || ty.width == 128 then -(PowerAt(ty.width) / 2) <= v < PowerAt(ty.width) / 2 else 0 <= v < PowerAt(ty.width)
  {
    PowerIs(ty.width);
    assert Pow2(ty.width) == 2 * Pow2(ty.width - 1);
  }

  lemma SuffixBounds(s: Suffix)
    ensures var ty, range := SuffixTy(s), SuffixRange(s);
            if ty.signed || ty.width == 128 then range == (-(PowerAt(ty.width) / 2), PowerAt(ty.width) / 2 - 1)
            else range == (0, PowerAt(ty.width) - 1)
  {
  }

  /** An operand with a range of its own has the type of that range. */
  lemma {:induction false} OperandRange(e: Expr, v: int)
    requires AtomRange(e).Some?
    ensures TyOf(e).Some? && (Representable(v, TyOf(e).value) <==> AtomRange(e).value.0 <= v <= AtomRange(e).value.1)
  {
    if e.Binary? && e.bop.Comma? {
      OperandRange(e.rhs, v);
    } else {
      Bounds(TyOf(e).value, v);
      if e.IntConst? { SuffixBounds(e.suffix); }
      if e.Cast? && (e.target.Int? || e.target.Uint?) {
        CastBounds(e);
        SuffixBounds(if e.target.Int? then SignedSuffix(e.target.iw) else UnsignedSuffix(e.target.uw));
      }
    }
  }

  lemma CastBounds(e: Expr)
    requires e.Cast? && (e.target.Int? || e.target.Uint?)
    ensures AtomRange(e) == Some(SuffixRange(if e.target.Int? then SignedSuffix(e.target.iw) else UnsignedSuffix(e.target.uw)))
    ensures TyOf(e) == Some(SuffixTy(if e.target.Int? then SignedSuffix(e.target.iw) else UnsignedSuffix(e.target.uw)))
  {
  }

  /** Booleans, names and `__builtin_constant_p` have no type of their own, so operations on them convert nothing. */
  lemma Untyped(e: Expr, other: Expr, op: BinOp)
    requires e.BoolConst? || e.NamedConst? || e.ConstantP? || e.NotConstant?
    ensures WorkTy(Binary(e, op, other)) == WorkTy(Binary(other, op, e)) == IntTy(128, true)
  {
  }

  // ---- every value is an `i128` ----

  predicate LiteralsFit(e: Expr) {
    match e
    case IntConst(v, _) => Fits128(v)
    case CharConst(code, _) => Fits128(code)
    case Unary(_, inner) => LiteralsFit(inner)
    case Binary(l, _, r) => LiteralsFit(l) && LiteralsFit(r)
    case Conditional(c, t, f) => LiteralsFit(c) && (t.Some? ==> LiteralsFit(t.value)) && LiteralsFit(f)
    case Cast(_, operand) => LiteralsFit(operand)
    case _ => true
  }

  predicate InitializerFits(def: Named) {
    match def
    case EnumExplicit(init) => LiteralsFit(init)
    case ConstexprObject(init) => LiteralsFit(init)
    case _ => true
  }

  ghost predicate TableFits(table: seq<Named>) {
    forall i :: 0 <= i < |table| ==> InitializerFits(table[i])
  }

  lemma SmallFits128(v: int)
    requires -1 <= v <= 0x10FFFF
    ensures Fits128(v)
  {
    Bounds(IntTy(WIDE, true), v);
  }

  lemma ConvertFits(v: int, ty: IntTy)
    requires ValidTy(ty)
    ensures Fits128(Convert(v, ty))
  {
    ReduceCongruent(v, ty.width, ty.signed || ty.width == 128);
    RepresentableFits(Convert(v, ty), ty);
  }

  lemma {:induction false} CastFits(v: int, target: Ty)
    requires Fits128(v)
    ensures CastFirst(v, target).Some? ==> Fits128(CastFirst(v, target).value)
    ensures CastSecond(v, target).Some? ==> Fits128(CastSecond(v, target).value)
  {
    match target {
      case Int(w) => IntCastFits(v, w, true);
      case Uint(w) => IntCastFits(v, w, false);
      case Enum(payload) =>
        CastFits(v, payload);
        IntCastFits(v, W32, true);
      case Alias(underlying) => CastFits(v, underlying);
      case _ =>
        SmallFits128(0);
        SmallFits128(1);
        IntCastFits(v, W32, true);
    }
  }

  lemma IntCastFits(v: int, w: IntWidth, signed: bool)
    ensures Fits128(IntCast(v, w, signed))
  {
    ConvertFits(v, IntTy(IntBits(w), signed));
  }

  lemma ArithmeticFits(op: BinOp, a: int, b: int)
    requires Arithmetic(op) && Fits128(a) && Fits128(b)
    ensures ApplyArithmetic(op, a, b).Some? ==> Fits128(ApplyArithmetic(op, a, b).value)
  {
    if op.Rem? && b != 0 {
      TruncDivides(a, b);
    } else if Bitwise(op) {
      var v := WordOperation(op, a, b, 0);
    }
  }

  lemma ShiftFits(op: BinOp, a: int, b: int)
    requires !Arithmetic(op) && !Comparison(op) && Fits128(a)
    ensures ApplyOther(op, a, b).Some? ==> Fits128(ApplyOther(op, a, b).value)
  {
    SmallFits128(0);
    SmallFits128(1);
    var n := b % Pow2(DISTANCE);
    if op.Shl? && n < WIDE {
      ShiftedLeft(a, n);
    } else if op.Shr? {
      Floor(a, Pow2(n), Pow2(WIDE - 1));
    }
  }

  lemma Floor(a: int, p: int, bound: int)
    requires p > 0 && bound > 0 && -bound <= a < bound
    ensures -bound <= a / p < bound
  {
    RoundsDown(a, p);
    if a / p >= bound { Grows(a / p, p); }
    if a / p < -bound { Grows(-(a / p + 1), p); }
  }

  lemma Grows(k: int, p: int)
    requires k >= 0 && p > 0
    ensures k * p >= k && (-k) * p <= -k
  {
  }

  lemma BinaryFits(lhs: Expr, op: BinOp, rhs: Expr, l: int, r: int)
    requires Fits128(l) && Fits128(r)
    ensures BinaryFirst(lhs, op, rhs, l, r).Some? ==> Fits128(BinaryFirst(lhs, op, rhs, l, r).value)
  {
    SmallFits128(0);
    SmallFits128(1);
    var common := OperandTy(lhs, rhs);
    if Arithmetic(op) {
      if common.None? {
        ArithmeticFits(op, l, r);
      } else {
        var v := ApplyArithmetic(op, Convert(l, common.value), Convert(r, common.value));
        if v.Some? { ConvertFits(v.value, common.value); }
      }
    } else if !Comparison(op) {
      ShiftFits(op, l, r);
    }
  }

  lemma {:induction false} NamedFits(table: seq<Named>, i: nat)
    requires Scoped(table) && i < |table| && TableFits(table)
    ensures ValueOf(table, i).Some? ==> Fits128(ValueOf(table, i).value)
    decreases i, 1, 0
  {
    SmallFits128(0);
    assert ScopedAt(table[i], i) && InitializerFits(table[i]);
    match table[i] {
      case EnumExplicit(init) => ValuesFit(Signature, table, i, init);
      case ConstexprObject(init) => ValuesFit(Signature, table, i, init);
      case _ =>
    }
  }

  /** With literals that are `i128`s, so is every value: what `OperandsAre` asks of operands always holds. */
  lemma {:induction false} ValuesFit(pass: Pass, table: seq<Named>, n: nat, e: Expr)
    requires Scoped(table) && n <= |table| && NamesBelow(e, n) && TableFits(table) && LiteralsFit(e)
    ensures Eval(pass, table, n, e).Some? ==> Fits128(Eval(pass, table, n, e).value)
    decreases n, 0, e
  {
    SmallFits128(0);
    SmallFits128(1);
    match e {
      case NamedConst(id) => NamedFits(table, id);
      case Unary(_, inner) => ValuesFit(pass, table, n, inner);
      case Binary(l, op, r) =>
        ValuesFit(pass, table, n, l);
        ValuesFit(pass, table, n, r);
        var x, y := Eval(pass, table, n, l), Eval(pass, table, n, r);
        if x.Some? && y.Some? {
          BinariesAgree(l, op, r, x.value, y.value);
          BinaryFits(l, op, r, x.value, y.value);
        }
      case Conditional(c, t, f) =>
        ValuesFit(pass, table, n, c);
        if t.Some? { ValuesFit(pass, table, n, t.value); }
        ValuesFit(pass, table, n, f);
      case Cast(target, operand) =>
        ValuesFit(pass, table, n, operand);
        var v := Eval(pass, table, n, operand);
        if v.Some? { CastFits(v.value, target); }
      case _ =>
    }
  }
}
