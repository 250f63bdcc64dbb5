/** The events of each program point, and the pass that emits them. */
module Facts {
  import opened Mir
  import opened Flow
  import opened Locations
  import PointsTo
  import PointsToSolve

  // ---- what each statement and terminator does, as sets of locals ----

  const QUIET := Events({}, {}, {}, {}, {})

  function Both(a: Events, b: Events): Events {
    Events(a.assigns + b.assigns, a.moves + b.moves, a.accesses + b.accesses, a.borrows + b.borrows, a.writes + b.writes)
  }

  function DirectLocal(place: Place): set<nat> {
    if IsDirect(place) then {place.local} else {}
  }

  function PlaceRead(place: Place): Events {
    QUIET.(accesses := DirectLocal(place))
  }

  function OperandRead(op: Operand): Events {
    if op.Copy? || op.Move? then PlaceRead(op.place) else QUIET
  }

  /** A value passed with `Move` leaves the local it came from. */
  function OperandUse(op: Operand): Events {
    OperandRead(op).(moves := if op.Move? then DirectLocal(op.place) else {})
  }

  function OperandUses(ops: seq<Operand>): Events {
    if ops == [] then QUIET else Both(OperandUses(ops[..|ops| - 1]), OperandUse(ops[|ops| - 1]))
  }

  function Borrow(place: Place): Events {
    QUIET.(borrows := DirectLocal(place))
  }

  function RvalueEvents(rvalue: Rvalue): Events {
    match rvalue
    case Use(op) => OperandUse(op)
    case Cast(op) => OperandUse(op)
    case BinaryOp(l, r) => Both(OperandRead(l), OperandRead(r))
    case CheckedBinaryOp(l, r) => Both(OperandRead(l), OperandRead(r))
    case UnaryOp(op) => OperandRead(op)
    case Repeat(op) => OperandRead(op)
    case Aggregate(ops) => OperandUses(ops)
    case CopyForDeref(place) => PlaceRead(place)
    case Discriminant(place) => PlaceRead(place)
    case Len(place) => PlaceRead(place)
    case AddressOf(place) => Borrow(place)
    case Ref(place) => Borrow(place)
    case Reborrow(place) => Borrow(place)
    case ThreadLocalRef => QUIET
  }

  function StoreEvents(place: Place, pts: PointsTo.State): Events
    requires place.local < |pts|
  {
    QUIET.(assigns := DirectLocal(place),
           writes := if DerefPointer(place).Some? then pts[place.local] else {})
  }

  function StatementEvents(body: Body, stmt: Statement, pts: PointsTo.State): Events
    requires body.ValidStatement(stmt) && |pts| == body.localCount
  {
    match stmt
    case Assign(place, rvalue) => Both(StoreEvents(place, pts), RvalueEvents(rvalue))
    case OtherStatement => QUIET
  }

  /** Passing a pointer lets the callee write whatever it points at. */
  function ArgumentEvents(body: Body, arg: Operand, pts: PointsTo.State): Events
    requires body.ValidOperand(arg) && |pts| == body.localCount
  {
    OperandUse(arg).(writes := PointsTo.OperandTargets(pts, arg))
  }

  function ArgumentsEvents(body: Body, args: seq<Operand>, pts: PointsTo.State): Events
    requires |pts| == body.localCount && forall a :: a in args ==> body.ValidOperand(a)
  {
    if args == [] then QUIET
    else Both(ArgumentsEvents(body, args[..|args| - 1], pts), ArgumentEvents(body, args[|args| - 1], pts))
  }

  function AsmEvents(operand: AsmOperand): Events {
    var read := if operand.inValue.Some? then OperandRead(operand.inValue.value) else QUIET;
    if operand.outPlace.Some? then read.(assigns := DirectLocal(operand.outPlace.value)) else read
  }

  function AsmAllEvents(operands: seq<AsmOperand>): Events {
    if operands == [] then QUIET
    else Both(AsmAllEvents(operands[..|operands| - 1]), AsmEvents(operands[|operands| - 1]))
  }

  function TerminatorEvents(body: Body, t: Terminator, pts: PointsTo.State): Events
    requires body.ValidTerminator(t) && |pts| == body.localCount
  {
    match t
    case Call(args, destination) =>
      Both(QUIET.(assigns := DirectLocal(destination)), ArgumentsEvents(body, args, pts))
    case SwitchInt(discr) => OperandRead(discr)
    case Assert(cond) => OperandRead(cond)
    case InlineAsm(operands) => AsmAllEvents(operands)
    case Return => if body.returnsUnit then QUIET else QUIET.(accesses := {RETURN_LOCAL})
    case OtherTerminator => QUIET
  }

  // ---- the graph a body stands for ----

  ghost function TargetsAt(body: Body, b: nat, i: nat): (s: PointsTo.State)
    requires body.Valid() && IsLocation(body, b, i)
    ensures PointsTo.Fits(body, s)
  {
    assert body.ValidBlock(body.blocks[b]);
    PointsTo.RunAll(body, PointsTo.EntryTargets(body, b), body.blocks[b].statements[..i])
  }

  ghost function EventsAt(body: Body, b: nat, i: nat): Events
    requires body.Valid() && IsLocation(body, b, i)
  {
    assert body.ValidBlock(body.blocks[b]);
    var block := body.blocks[b];
    if i < |block.statements| then StatementEvents(body, block.statements[i], TargetsAt(body, b, i))
    else TerminatorEvents(body, block.terminator, TargetsAt(body, b, i))
  }

  ghost function GraphOf(body: Body): (g: Graph)
    requires body.Valid()
    ensures |g.events| == |g.succs| == |body.blocks|
    ensures forall b :: 0 <= b < |body.blocks| ==> |g.events[b]| == |body.blocks[b].statements| + 1
    ensures forall b: nat, i: nat :: IsLocation(body, b, i) ==> g.events[b][i] == EventsAt(body, b, i)
    ensures forall b :: 0 <= b < |body.blocks| ==> g.succs[b] == body.blocks[b].successors
    ensures g.locals == body.localCount && g.args == body.argCount
  {
    Graph(
      body.localCount, body.argCount,
      seq(|body.blocks|, b requires 0 <= b < |body.blocks| =>
        seq(|body.blocks[b].statements| + 1, i requires 0 <= i <= |body.blocks[b].statements| => EventsAt(body, b, i))),
      seq(|body.blocks|, b requires 0 <= b < |body.blocks| => body.blocks[b].successors))
  }

  ghost predicate InBody(body: Body, ev: Events) {
    forall x :: x in ev.assigns || x in ev.moves || x in ev.accesses || x in ev.borrows || x in ev.writes
                ==> x < body.localCount
  }

  lemma {:induction false} UsesInBody(body: Body, ops: seq<Operand>)
    requires forall o :: o in ops ==> body.ValidOperand(o)
    ensures InBody(body, OperandUses(ops))
  {
    if ops != [] {
      assert ops[|ops| - 1] in ops;
      UsesInBody(body, ops[..|ops| - 1]);
    }
  }

  lemma {:induction false} ArgumentsInBody(body: Body, args: seq<Operand>, pts: PointsTo.State)
    requires PointsTo.Fits(body, pts) && forall o :: o in args ==> body.ValidOperand(o)
    ensures InBody(body, ArgumentsEvents(body, args, pts))
  {
    if args != [] {
      assert args[|args| - 1] in args;
      ArgumentsInBody(body, args[..|args| - 1], pts);
    }
  }

  lemma {:induction false} AsmInBody(body: Body, operands: seq<AsmOperand>)
    requires body.ValidTerminator(InlineAsm(operands))
    ensures InBody(body, AsmAllEvents(operands))
  {
    if operands != [] {
      assert operands[|operands| - 1] in operands;
      AsmInBody(body, operands[..|operands| - 1]);
    }
  }

  lemma StatementInBody(body: Body, stmt: Statement, pts: PointsTo.State)
    requires body.ValidStatement(stmt) && PointsTo.Fits(body, pts)
    ensures InBody(body, StatementEvents(body, stmt, pts))
  {
    if stmt.Assign? && stmt.rvalue.Aggregate? {
      UsesInBody(body, stmt.rvalue.operands);
    }
  }

  lemma TerminatorInBody(body: Body, t: Terminator, pts: PointsTo.State)
    requires body.Valid() && body.ValidTerminator(t) && PointsTo.Fits(body, pts)
    ensures InBody(body, TerminatorEvents(body, t, pts))
  {
    match t {
      case Call(args, _) => ArgumentsInBody(body, args, pts);
      case InlineAsm(operands) => AsmInBody(body, operands);
      case _ =>
    }
  }

  lemma EventsInBody(body: Body, b: nat, i: nat)
    requires body.Valid() && IsLocation(body, b, i)
    ensures InBody(body, EventsAt(body, b, i))
  {
    var block := body.blocks[b];
    assert body.ValidBlock(block);
    if i < |block.statements| {
      assert block.statements[i] in block.statements;
      StatementInBody(body, block.statements[i], TargetsAt(body, b, i));
    } else {
      TerminatorInBody(body, block.terminator, TargetsAt(body, b, i));
    }
  }

  /** The graph of a well-formed body is well-formed: every event names a local of the body. */
  lemma GraphValid(body: Body)
    requires body.Valid()
    ensures GraphOf(body).Valid()
  {
    var g := GraphOf(body);
    forall b, i | 0 <= b < |g.events| && 0 <= i < |g.events[b]|
      ensures g.InRange(g.events[b][i])
    {
      assert IsLocation(body, b, i);
      EventsInBody(body, b, i);
    }
    forall b, s | 0 <= b < |g.succs| && s in g.succs[b]
      ensures s < |g.events|
    {
      assert body.ValidBlock(body.blocks[b]);
    }
  }
}
