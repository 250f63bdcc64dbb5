/** What each point of a body does to a local, read off its operands and places, and proved to be its events. */
module PointUses {
  import opened Mir
  import opened Flow
  import opened Facts
  import opened Locations
  import PointsTo
  import PointsToMeaning

  /** A part of `x` itself, nothing behind a pointer. */
  ghost predicate PartOf(place: Place, x: nat) {
    place.local == x && Deref !in place.projection
  }

  /** An operand that names a part of `x`. */
  ghost predicate DirectOperand(op: Operand, x: nat) {
    (op.Copy? || op.Move?) && PartOf(op.place, x)
  }

  ghost predicate WholePointer(op: Operand, p: nat) {
    op == Copy(Place(p, [])) || op == Move(Place(p, []))
  }

  // ---- operands and places of a point ----

  /** `op` is passed on as a value: assigned, cast or put into an aggregate. */
  predicate Passes(rvalue: Rvalue, op: Operand) {
    || ((rvalue.Use? || rvalue.Cast?) && rvalue.operand == op)
    || (rvalue.Aggregate? && op in rvalue.operands)
  }

  /** `op` is computed with and stays where it is. */
  predicate Inspects(rvalue: Rvalue, op: Operand) {
    || ((rvalue.BinaryOp? || rvalue.CheckedBinaryOp?) && (rvalue.lhs == op || rvalue.rhs == op))
    || ((rvalue.UnaryOp? || rvalue.Repeat?) && rvalue.operand == op)
  }

  predicate InspectsPlace(rvalue: Rvalue, place: Place) {
    (rvalue.CopyForDeref? || rvalue.Discriminant? || rvalue.Len?) && rvalue.place == place
  }

  predicate AddressesPlace(rvalue: Rvalue, place: Place) {
    (rvalue.AddressOf? || rvalue.Ref? || rvalue.Reborrow?) && rvalue.place == place
  }

  /** What a branch, an assertion or inline assembly looks at. */
  ghost predicate Consults(t: Terminator, op: Operand) {
    || (t.SwitchInt? && t.discr == op)
    || (t.Assert? && t.cond == op)
    || (t.InlineAsm? && exists asm: AsmOperand :: asm in t.operands && asm.inValue == Some(op))
  }

  /** What a call or inline assembly stores its results in. */
  ghost predicate Fills(t: Terminator, place: Place) {
    || (t.Call? && t.destination == place)
    || (t.InlineAsm? && exists asm: AsmOperand :: asm in t.operands && asm.outPlace == Some(place))
  }

  // ---- what a point does to a local ----

  /** The statement at `(b, i)` is an assignment. */
  predicate IsAssign(body: Body, b: nat, i: nat)
    requires IsLocation(body, b, i)
  {
    i < |body.blocks[b].statements| && body.blocks[b].statements[i].Assign?
  }

  /** `(b, i)` is the end of block `b`. */
  predicate IsEnd(body: Body, b: nat, i: nat)
    requires IsLocation(body, b, i)
  {
    i == |body.blocks[b].statements|
  }

  /** The point passes on a part of `x` by `Move`: to another place, or to a callee. */
  ghost predicate HandsOver(body: Body, b: nat, i: nat, x: nat)
    requires IsLocation(body, b, i)
  {
    var block := body.blocks[b];
    exists op: Operand :: op.Move? && PartOf(op.place, x)
                          && (|| (IsAssign(body, b, i) && Passes(block.statements[i].rvalue, op))
                              || (IsEnd(body, b, i) && block.terminator.Call? && op in block.terminator.args))
  }

  /** The point reads a part of `x`: through an operand, in place, or to return it. */
  ghost predicate Reads(body: Body, b: nat, i: nat, x: nat)
    requires IsLocation(body, b, i)
  {
    var block := body.blocks[b];
    || (IsAssign(body, b, i)
        && (exists op :: DirectOperand(op, x) && (Passes(block.statements[i].rvalue, op) || Inspects(block.statements[i].rvalue, op))))
    || (IsAssign(body, b, i) && (exists place :: PartOf(place, x) && InspectsPlace(block.statements[i].rvalue, place)))
    || (IsEnd(body, b, i) && block.terminator.Call? && (exists op :: DirectOperand(op, x) && op in block.terminator.args))
    || (IsEnd(body, b, i) && (exists op :: DirectOperand(op, x) && Consults(block.terminator, op)))
    || (IsEnd(body, b, i) && block.terminator.Return? && !body.returnsUnit && x == 0)
  }

  /** The point takes the address of a part of `x`. */
  ghost predicate Borrows(body: Body, b: nat, i: nat, x: nat)
    requires IsLocation(body, b, i)
  {
    IsAssign(body, b, i) && exists place :: PartOf(place, x) && AddressesPlace(body.blocks[b].statements[i].rvalue, place)
  }

  /** The point stores into a part of `x`. */
  ghost predicate Assigns(body: Body, b: nat, i: nat, x: nat)
    requires IsLocation(body, b, i)
  {
    || (IsAssign(body, b, i) && PartOf(body.blocks[b].statements[i].place, x))
    || (IsEnd(body, b, i) && exists place :: PartOf(place, x) && Fills(body.blocks[b].terminator, place))
  }

  /** The point stores through the pointer `p`, or gives it to a callee that may. */
  ghost predicate UsesPointer(body: Body, b: nat, i: nat, p: nat)
    requires IsLocation(body, b, i)
  {
    var block := body.blocks[b];
    || (IsAssign(body, b, i) && block.statements[i].place.local == p
        && block.statements[i].place.projection != [] && block.statements[i].place.projection[0] == Deref)
    || (IsEnd(body, b, i) && block.terminator.Call? && exists op :: WholePointer(op, p) && op in block.terminator.args)
  }

  /** A pointer that may point at `x` is written through. */
  ghost predicate MayWrite(body: Body, b: nat, i: nat, x: nat)
    requires body.Valid() && IsLocation(body, b, i)
  {
    exists p: nat :: p < body.localCount && UsesPointer(body, b, i, p) && PointsToMeaning.Points(body, b, i, p, x)
  }

  // ---- operand lists ----

  lemma {:induction false} UsesListed(ops: seq<Operand>, x: nat)
    ensures x in OperandUses(ops).moves <==> exists op :: op in ops && op.Move? && DirectOperand(op, x)
    ensures x in OperandUses(ops).accesses <==> exists op :: op in ops && DirectOperand(op, x)
    ensures OperandUses(ops).borrows == OperandUses(ops).assigns == OperandUses(ops).writes == {}
  {
    if ops != [] {
      var init, last := ops[..|ops| - 1], ops[|ops| - 1];
      UsesListed(init, x);
      assert ops == init + [last] && last in ops;
      assert x in OperandRead(last).accesses <==> DirectOperand(last, x);
    }
  }

  lemma {:induction false} ArgumentsListed(body: Body, args: seq<Operand>, pts: PointsTo.State, x: nat)
    requires |pts| == body.localCount && forall a :: a in args ==> body.ValidOperand(a)
    ensures var ev := ArgumentsEvents(body, args, pts);
            && (x in ev.moves <==> exists op :: op in args && op.Move? && DirectOperand(op, x))
            && (x in ev.accesses <==> exists op :: op in args && DirectOperand(op, x))
            && (x in ev.writes <==> exists op, p: nat :: op in args && p < |pts| && WholePointer(op, p) && x in pts[p])
            && ev.borrows == ev.assigns == {}
  {
    if args != [] {
      var init, last := args[..|args| - 1], args[|args| - 1];
      assert last in args;
      ArgumentsListed(body, init, pts, x);
      assert args == init + [last] && last in args;
      assert x in OperandRead(last).accesses <==> DirectOperand(last, x);
      ArgumentWrites(body, last, pts, x);
    }
  }

  lemma ArgumentWrites(body: Body, op: Operand, pts: PointsTo.State, x: nat)
    requires |pts| == body.localCount && body.ValidOperand(op)
    ensures x in ArgumentEvents(body, op, pts).writes <==> exists p: nat :: p < |pts| && WholePointer(op, p) && x in pts[p]
  {
    if (op.Copy? || op.Move?) && op.place.projection == [] {
      assert op.place == Place(op.place.local, []);
      assert WholePointer(op, op.place.local);
    }
  }

  lemma {:induction false} AsmListed(operands: seq<AsmOperand>, x: nat)
    ensures var ev := AsmAllEvents(operands);
            && (x in ev.accesses <==> exists asm: AsmOperand :: asm in operands && asm.inValue.Some? && DirectOperand(asm.inValue.value, x))
            && (x in ev.assigns <==> exists asm: AsmOperand :: asm in operands && asm.outPlace.Some? && PartOf(asm.outPlace.value, x))
            && ev.moves == ev.borrows == ev.writes == {}
  {
    if operands != [] {
      var init, last := operands[..|operands| - 1], operands[|operands| - 1];
      AsmListed(init, x);
      assert operands == init + [last] && last in operands;
    }
  }

  // ---- events are what the operands and places say ----

  lemma MovesMeaning(body: Body, b: nat, i: nat, x: nat)
    requires body.Valid() && IsLocation(body, b, i)
    ensures x in EventsAt(body, b, i).moves <==> HandsOver(body, b, i, x)
  {
    var block := body.blocks[b];
    assert body.ValidBlock(block);
    if IsAssign(body, b, i) {
      RvalueMoves(block.statements[i].rvalue, x);
    } else if IsEnd(body, b, i) {
      match block.terminator {
        case Call(args, dest) => ArgumentsListed(body, args, TargetsAt(body, b, i), x);
        case InlineAsm(operands) => AsmListed(operands, x);
        case _ =>
      }
    }
  }

  lemma RvalueMoves(rvalue: Rvalue, x: nat)
    ensures x in RvalueEvents(rvalue).moves <==> exists op: Operand :: op.Move? && PartOf(op.place, x) && Passes(rvalue, op)
  {
    match rvalue {
      case Use(op) => assert Passes(rvalue, op);
      case Cast(op) => assert Passes(rvalue, op);
      case Aggregate(ops) => UsesListed(ops, x);
      case _ =>
    }
  }

  /** What the events of a value are, in terms of its operands and places. */
  ghost predicate UsesOf(rvalue: Rvalue, ev: Events) {
    && (forall x: nat :: x in ev.moves <==> exists op: Operand :: op.Move? && PartOf(op.place, x) && Passes(rvalue, op))
    && (forall x: nat :: x in ev.accesses <==>
          (exists op :: DirectOperand(op, x) && (Passes(rvalue, op) || Inspects(rvalue, op)))
          || (exists place :: PartOf(place, x) && InspectsPlace(rvalue, place)))
    && (forall x: nat :: x in ev.borrows <==> exists place :: PartOf(place, x) && AddressesPlace(rvalue, place))
    && ev.assigns == ev.writes == {}
  }

  lemma RvalueUses(rvalue: Rvalue)
    ensures UsesOf(rvalue, RvalueEvents(rvalue))
  {
    var ev := RvalueEvents(rvalue);
    forall x: nat
      ensures x in ev.moves <==> exists op: Operand :: op.Move? && PartOf(op.place, x) && Passes(rvalue, op)
      ensures x in ev.borrows <==> exists place :: PartOf(place, x) && AddressesPlace(rvalue, place)
      ensures x in ev.accesses
              <==> (exists op :: DirectOperand(op, x) && (Passes(rvalue, op) || Inspects(rvalue, op)))
                   || (exists place :: PartOf(place, x) && InspectsPlace(rvalue, place))
    {
      RvalueMoves(rvalue, x);
      RvalueReads(rvalue, x);
      RvalueBorrows(rvalue, x);
    }
    RvalueBorrows(rvalue, 0);
  }

  lemma ReadsMeaning(body: Body, b: nat, i: nat, x: nat)
    requires body.Valid() && IsLocation(body, b, i)
    ensures x in EventsAt(body, b, i).accesses <==> Reads(body, b, i, x)
  {
    var block := body.blocks[b];
    assert body.ValidBlock(block);
    if IsAssign(body, b, i) {
      RvalueReads(block.statements[i].rvalue, x);
    } else if IsEnd(body, b, i) {
      TerminatorReads(body, block.terminator, TargetsAt(body, b, i), x);
    }
  }

  lemma RvalueReads(rvalue: Rvalue, x: nat)
    ensures x in RvalueEvents(rvalue).accesses
            <==> (exists op :: DirectOperand(op, x) && (Passes(rvalue, op) || Inspects(rvalue, op)))
                 || (exists place :: PartOf(place, x) && InspectsPlace(rvalue, place))
  {
    match rvalue {
      case Use(op) => assert Passes(rvalue, op);
      case Cast(op) => assert Passes(rvalue, op);
      case Aggregate(ops) => UsesListed(ops, x);
      case BinaryOp(l, r) => assert Inspects(rvalue, l) && Inspects(rvalue, r);
      case CheckedBinaryOp(l, r) => assert Inspects(rvalue, l) && Inspects(rvalue, r);
      case UnaryOp(op) => assert Inspects(rvalue, op);
      case Repeat(op) => assert Inspects(rvalue, op);
      case CopyForDeref(place) => assert InspectsPlace(rvalue, place);
      case Discriminant(place) => assert InspectsPlace(rvalue, place);
      case Len(place) => assert InspectsPlace(rvalue, place);
      case _ =>
    }
  }

  lemma TerminatorReads(body: Body, t: Terminator, pts: PointsTo.State, x: nat)
    requires body.ValidTerminator(t) && |pts| == body.localCount
    ensures x in TerminatorEvents(body, t, pts).accesses
            <==> || (t.Call? && exists op :: DirectOperand(op, x) && op in t.args)
                 || (exists op :: DirectOperand(op, x) && Consults(t, op))
                 || (t.Return? && !body.returnsUnit && x == 0)
  {
    match t {
      case Call(args, dest) => ArgumentsListed(body, args, pts, x);
      case SwitchInt(op) => assert Consults(t, op);
      case Assert(op) => assert Consults(t, op);
      case InlineAsm(ops) => AsmReads(ops, x);
      case _ =>
    }
  }

  lemma AsmReads(ops: seq<AsmOperand>, x: nat)
    ensures x in AsmAllEvents(ops).accesses <==> exists op :: DirectOperand(op, x) && Consults(InlineAsm(ops), op)
  {
    AsmListed(ops, x);
    assert forall asm :: asm in ops && asm.inValue.Some? ==> Consults(InlineAsm(ops), asm.inValue.value);
  }

  lemma BorrowsMeaning(body: Body, b: nat, i: nat, x: nat)
    requires body.Valid() && IsLocation(body, b, i)
    ensures x in EventsAt(body, b, i).borrows <==> Borrows(body, b, i, x)
  {
    var block := body.blocks[b];
    assert body.ValidBlock(block);
    if IsAssign(body, b, i) {
      RvalueBorrows(block.statements[i].rvalue, x);
    } else if IsEnd(body, b, i) {
      match block.terminator {
        case Call(args, _) => ArgumentsListed(body, args, TargetsAt(body, b, i), x);
        case InlineAsm(ops) => AsmListed(ops, x);
        case _ =>
      }
    }
  }

  lemma RvalueBorrows(rvalue: Rvalue, x: nat)
    ensures x in RvalueEvents(rvalue).borrows <==> exists place :: PartOf(place, x) && AddressesPlace(rvalue, place)
    ensures RvalueEvents(rvalue).assigns == RvalueEvents(rvalue).writes == {}
  {
    match rvalue {
      case AddressOf(place) => assert AddressesPlace(rvalue, place);
      case Ref(place) => assert AddressesPlace(rvalue, place);
      case Reborrow(place) => assert AddressesPlace(rvalue, place);
      case Aggregate(ops) => UsesListed(ops, x);
      case _ =>
    }
  }

  lemma AssignsMeaning(body: Body, b: nat, i: nat, x: nat)
    requires body.Valid() && IsLocation(body, b, i)
    ensures x in EventsAt(body, b, i).assigns <==> Assigns(body, b, i, x)
  {
    var block := body.blocks[b];
    assert body.ValidBlock(block);
    if IsAssign(body, b, i) {
      RvalueBorrows(block.statements[i].rvalue, x);
    } else if IsEnd(body, b, i) {
      TerminatorAssigns(body, block.terminator, TargetsAt(body, b, i), x);
    }
  }

  lemma TerminatorAssigns(body: Body, t: Terminator, pts: PointsTo.State, x: nat)
    requires body.ValidTerminator(t) && |pts| == body.localCount
    ensures x in TerminatorEvents(body, t, pts).assigns <==> exists place :: PartOf(place, x) && Fills(t, place)
  {
    match t {
      case Call(args, dest) =>
        ArgumentsListed(body, args, pts, x);
        assert Fills(t, dest);
      case InlineAsm(ops) =>
        AsmListed(ops, x);
        assert forall asm :: asm in ops && asm.outPlace.Some? ==> Fills(t, asm.outPlace.value);
      case _ =>
    }
  }

  lemma WritesMeaning(body: Body, b: nat, i: nat, x: nat)
    requires body.Valid() && IsLocation(body, b, i)
    ensures x in EventsAt(body, b, i).writes <==> MayWrite(body, b, i, x)
  {
    var block, pts := body.blocks[b], TargetsAt(body, b, i);
    assert body.ValidBlock(block);
    WrittenVia(body, b, i, x);
    forall p: nat | p < body.localCount
      ensures x in pts[p] <==> PointsToMeaning.Points(body, b, i, p, x)
    {
      PointsToMeaning.TargetsMeaning(body, b, i, p, x);
    }
  }

  /** Written are the targets of the pointers used. */
  lemma WrittenVia(body: Body, b: nat, i: nat, x: nat)
    requires body.Valid() && IsLocation(body, b, i)
    ensures x in EventsAt(body, b, i).writes
            <==> exists p: nat :: p < body.localCount && UsesPointer(body, b, i, p) && x in TargetsAt(body, b, i)[p]
  {
    var block, pts := body.blocks[b], TargetsAt(body, b, i);
    assert body.ValidBlock(block);
    if IsAssign(body, b, i) {
      var place := block.statements[i].place;
      assert block.statements[i] in block.statements;
      RvalueBorrows(block.statements[i].rvalue, x);
      assert place.projection != [] && place.projection[0] == Deref ==> UsesPointer(body, b, i, place.local);
    } else if IsEnd(body, b, i) {
      match block.terminator {
        case Call(args, dest) =>
          ArgumentsListed(body, args, pts, x);
          assert forall op, p: nat :: op in args && WholePointer(op, p) ==> UsesPointer(body, b, i, p);
        case InlineAsm(ops) => AsmListed(ops, x);
        case _ =>
      }
    }
  }
}
