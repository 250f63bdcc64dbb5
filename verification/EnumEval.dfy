/** `eval_local_const` with its cache of enumerator values, and `eval_const_expr` calling it. */
module EnumEval {
  import opened CTypes
  import opened ConstExpr

  class Evaluator {
    const table: seq<Named>
    var enumConstValues: map<nat, int>

    /** The cache only holds enumerators, and only their true values. */
    ghost predicate Valid()
      reads this
    {
      Scoped(table)
      && forall i :: i in enumConstValues ==> i < |table| && ValueOf(table, i) == Some(enumConstValues[i])
    }

    constructor (declarations: seq<Named>)
      requires Scoped(declarations)
      ensures Valid() && table == declarations && enumConstValues == map[]
    {
      table := declarations;
      enumConstValues := map[];
    }

    /** The cache never changes an answer, and no answer already in it is lost. */
    method EvalLocalConst(i: nat) returns (r: Option<int>)
      requires Valid() && i < |table|
      modifies this`enumConstValues
      ensures Valid() && r == ValueOf(table, i)
      ensures forall k :: k in old(enumConstValues) ==> k in enumConstValues && enumConstValues[k] == old(enumConstValues[k])
      ensures r.Some? && !table[i].ConstexprObject? ==> i in enumConstValues
      decreases i, 1, 0
    {
      assert ScopedAt(table[i], i);
      if table[i].ConstexprObject? {
        r := EvalConstExpr(i, table[i].value);
        return;
      }
      if i in enumConstValues {
        return Some(enumConstValues[i]);
      }
      match table[i] {
        case EnumZeroed => r := Some(0);
        case EnumExplicit(init) => r := EvalConstExpr(i, init);
        case EnumPrevPlus(prev) =>
          var before := EvalLocalConst(prev);
          r := if before.Some? then Checked(before.value + 1) else None;
        case NoConst => r := None;
      }
      if r.Some? {
        enumConstValues := enumConstValues[i := r.value];
      }
    }

    method EvalConstExpr(n: nat, e: Expr) returns (r: Option<int>)
      requires Valid() && n <= |table| && NamesBelow(e, n)
      modifies this`enumConstValues
      ensures Valid() && r == EvalFirst(table, n, e)
      ensures forall k :: k in old(enumConstValues) ==> k in enumConstValues && enumConstValues[k] == old(enumConstValues[k])
      decreases n, 0, e
    {
      match e {
        case IntConst(v, _) => r := Some(v);
        case BoolConst(b) => r := Some(FromBool(b));
        case CharConst(code, _) => r := Some(code);
        case NamedConst(id) => r := EvalLocalConst(id);
        case Unary(op, inner) =>
          r := EvalConstExpr(n, inner);
          if r.Some? { r := ApplyUnary(op, r.value); }
        case Binary(lhs, op, rhs) =>
          var l := EvalConstExpr(n, lhs);
          if l.None? { return None; }
          r := EvalConstExpr(n, rhs);
          if r.Some? { r := BinaryFirst(lhs, op, rhs, l.value, r.value); }
        case Conditional(cond, thenExpr, elseExpr) =>
          var c := EvalConstExpr(n, cond);
          if c.None? { return None; }
          if c.value != 0 {
            if thenExpr.Some? { r := EvalConstExpr(n, thenExpr.value); } else { r := EvalConstExpr(n, cond); }
          } else {
            r := EvalConstExpr(n, elseExpr);
          }
        case Cast(target, operand) =>
          r := EvalConstExpr(n, operand);
          if r.Some? { r := CastFirst(r.value, target); }
        case ConstantP(arg) =>
          var v := EvalConstExpr(n, arg);
          r := Some(FromBool(v.Some?));
        case NotConstant => r := None;
      }
    }
  }
}
