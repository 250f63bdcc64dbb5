/** The part of a function body the borrow checker looks at. */
module Mir {
  datatype Option<+T> = None | Some(value: T)

  datatype ProjectionElem = Deref | Field(index: nat) | Index(local: nat) | Downcast(variant: nat)

  datatype Place = Place(local: nat, projection: seq<ProjectionElem>)

  datatype Operand = Copy(place: Place) | Move(place: Place) | Constant | RuntimeChecks

  datatype Rvalue =
    | AddressOf(place: Place)
    | Ref(place: Place)
    | Reborrow(place: Place)
    | Use(operand: Operand)
    | Cast(operand: Operand)
    | BinaryOp(lhs: Operand, rhs: Operand)
    | CheckedBinaryOp(lhs: Operand, rhs: Operand)
    | UnaryOp(operand: Operand)
    | Repeat(operand: Operand)
    | Aggregate(operands: seq<Operand>)
    | CopyForDeref(place: Place)
    | Discriminant(place: Place)
    | Len(place: Place)
    | ThreadLocalRef

  datatype Statement = Assign(place: Place, rvalue: Rvalue) | OtherStatement

  datatype AsmOperand = AsmOperand(inValue: Option<Operand>, outPlace: Option<Place>)

  datatype Terminator =
    | Call(args: seq<Operand>, destination: Place)
    | SwitchInt(discr: Operand)
    | Assert(cond: Operand)
    | InlineAsm(operands: seq<AsmOperand>)
    | Return
    | OtherTerminator

  datatype Block = Block(statements: seq<Statement>, terminator: Terminator, successors: seq<nat>)

  /** `pointerDepth` and `needsDrop` record, per local, what the source reads off its type: how many raw
      pointer and reference layers it starts with, and whether it needs dropping. */
  datatype Body = Body(
    blocks: seq<Block>, localCount: nat, argCount: nat,
    pointerDepth: seq<nat>, needsDrop: seq<bool>, returnsUnit: bool)
  {
    /** `is_pointer_local`. */
    predicate IsPointer(local: nat)
      requires local < |pointerDepth|
    {
      pointerDepth[local] > 0
    }

    /** What rustc guarantees of any body: an entry block, a return local, no dangling index, and that a
        local which takes an address has the deeper type. */
    ghost predicate Valid() {
      && |blocks| > 0
      && argCount < localCount == |pointerDepth| == |needsDrop|
      && (forall b :: 0 <= b < |blocks| ==> ValidBlock(blocks[b]))
    }

    ghost predicate ValidBlock(block: Block) {
      && (forall s :: s in block.successors ==> s < |blocks|)
      && (forall s :: s in block.statements ==> ValidStatement(s))
      && ValidTerminator(block.terminator)
    }

    ghost predicate ValidStatement(s: Statement) {
      s.Assign? ==>
        && s.place.local < localCount && ValidRvalue(s.rvalue)
        && (s.rvalue.AddressOf? || s.rvalue.Ref? ==> TypedAddress(s.place, s.rvalue.place))
    }

    /** The address of a whole local is a pointer to that local's type; only a pointer can be dereferenced
        first, and a pointer has no other projections. */
    ghost predicate TypedAddress(p: Place, pointee: Place) {
      && p.local < |pointerDepth| && pointee.local < |pointerDepth|
      && (AsLocal(p).Some? && AsLocal(pointee).Some? ==> pointerDepth[pointee.local] < pointerDepth[p.local])
      && (AsLocal(pointee).None? && DerefPointer(pointee).None? ==> !IsPointer(pointee.local))
    }

    ghost predicate ValidOperand(op: Operand) {
      op.Copy? || op.Move? ==> op.place.local < localCount
    }

    ghost predicate ValidRvalue(r: Rvalue) {
      match r
      case AddressOf(p) => p.local < localCount
      case Ref(p) => p.local < localCount
      case Reborrow(p) => p.local < localCount
      case Use(o) => ValidOperand(o)
      case Cast(o) => ValidOperand(o)
      case BinaryOp(l, r) => ValidOperand(l) && ValidOperand(r)
      case CheckedBinaryOp(l, r) => ValidOperand(l) && ValidOperand(r)
      case UnaryOp(o) => ValidOperand(o)
      case Repeat(o) => ValidOperand(o)
      case Aggregate(os) => forall o :: o in os ==> ValidOperand(o)
      case CopyForDeref(p) => p.local < localCount
      case Discriminant(p) => p.local < localCount
      case Len(p) => p.local < localCount
      case ThreadLocalRef => true
    }

    ghost predicate ValidTerminator(t: Terminator) {
      match t
      case Call(args, destination) => destination.local < localCount && (forall o :: o in args ==> ValidOperand(o))
      case SwitchInt(o) => ValidOperand(o)
      case Assert(o) => ValidOperand(o)
      case InlineAsm(os) =>
        forall o :: o in os ==>
                      && (o.inValue.Some? ==> ValidOperand(o.inValue.value))
                      && (o.outPlace.Some? ==> o.outPlace.value.local < localCount)
      case _ => true
    }
  }

  const RETURN_LOCAL: nat := 0

  /** The local, if `place` is a plain local. */
  function AsLocal(place: Place): Option<nat> {
    if place.projection == [] then Some(place.local) else None
  }

  /** The pointer local `p`, if `place` is `*p` or a projection of it. */
  function DerefPointer(place: Place): Option<nat> {
    if place.projection != [] && place.projection[0] == Deref then Some(place.local) else None
  }

  function OperandLocal(op: Operand): Option<nat> {
    if op.Copy? || op.Move? then AsLocal(op.place) else None
  }

  /** No dereference anywhere: the place is part of the local itself. */
  predicate IsDirect(place: Place) {
    Deref !in place.projection
  }
}
