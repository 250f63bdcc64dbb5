/** The fact-generation pass of `facts.rs`, proved to emit exactly the events of `Facts.GraphOf`. */
module Emit {
  import opened Mir
  import opened Flow
  import opened Locations
  import opened Facts
  import opened PointUses
  import PointsTo
  import PointsToSolve

  /** A local together with the point the fact is about. */
  type Fact = (nat, nat)

  datatype FactLists = FactLists(
    assigns: seq<Fact>, moves: seq<Fact>, accesses: seq<Fact>, borrows: seq<Fact>, writes: seq<Fact>)

  ghost predicate Adds(before: seq<Fact>, after: seq<Fact>, locals: set<nat>, point: nat) {
    forall f :: f in after <==> f in before || (f.0 in locals && f.1 == point)
  }

  /** `after` is `before` plus exactly the events `ev` at `point`. */
  ghost predicate Extends(before: FactLists, after: FactLists, ev: Events, point: nat) {
    && Adds(before.assigns, after.assigns, ev.assigns, point)
    && Adds(before.moves, after.moves, ev.moves, point)
    && Adds(before.accesses, after.accesses, ev.accesses, point)
    && Adds(before.borrows, after.borrows, ev.borrows, point)
    && Adds(before.writes, after.writes, ev.writes, point)
  }

  /** The facts about `point` are exactly `ev`. */
  ghost predicate Records(lists: FactLists, ev: Events, point: nat) {
    && (forall x: nat :: (x, point) in lists.assigns <==> x in ev.assigns)
    && (forall x: nat :: (x, point) in lists.moves <==> x in ev.moves)
    && (forall x: nat :: (x, point) in lists.accesses <==> x in ev.accesses)
    && (forall x: nat :: (x, point) in lists.borrows <==> x in ev.borrows)
    && (forall x: nat :: (x, point) in lists.writes <==> x in ev.writes)
  }

  ghost predicate AllBelow(facts: seq<Fact>, point: nat) {
    forall f :: f in facts ==> f.1 < point
  }

  ghost predicate OnlyBelow(lists: FactLists, point: nat) {
    && AllBelow(lists.assigns, point) && AllBelow(lists.moves, point) && AllBelow(lists.accesses, point)
    && AllBelow(lists.borrows, point) && AllBelow(lists.writes, point)
  }

  lemma Recorded(before: FactLists, after: FactLists, ev: Events, point: nat)
    requires Extends(before, after, ev, point) && OnlyBelow(before, point)
    ensures Records(after, ev, point) && OnlyBelow(after, point + 1)
  {
  }

  lemma StillRecorded(before: FactLists, after: FactLists, ev: Events, point: nat, old': Events, earlier: nat)
    requires Extends(before, after, ev, point) && earlier != point && Records(before, old', earlier)
    ensures Records(after, old', earlier)
  {
  }

  class FactsOutput {
    var pathAssigned: seq<Fact>
    var pathMoved: seq<Fact>
    var pathAccessed: seq<Fact>
    var borrowed: seq<Fact>
    var written: seq<Fact>

    ghost function Lists(): FactLists
      reads this
    {
      FactLists(pathAssigned, pathMoved, pathAccessed, borrowed, written)
    }

    constructor ()
      ensures Lists() == FactLists([], [], [], [], [])
    {
      pathAssigned, pathMoved, pathAccessed, borrowed, written := [], [], [], [], [];
    }

    method EmitPlaceRead(place: Place, mid: nat)
      modifies this
      ensures Extends(old(Lists()), Lists(), PlaceRead(place), mid)
    {
      if IsDirect(place) {
        pathAccessed := pathAccessed + [(place.local, mid)];
      }
    }

    method EmitOperandRead(op: Operand, mid: nat)
      modifies this
      ensures Extends(old(Lists()), Lists(), OperandRead(op), mid)
    {
      if op.Copy? || op.Move? {
        EmitPlaceRead(op.place, mid);
      }
    }

    method EmitOperandMove(op: Operand, mid: nat)
      modifies this
      ensures Extends(old(Lists()), Lists(), QUIET.(moves := if op.Move? then DirectLocal(op.place) else {}), mid)
    {
      if op.Move? && IsDirect(op.place) {
        pathMoved := pathMoved + [(op.place.local, mid)];
      }
    }

    method EmitOperandUse(op: Operand, mid: nat)
      modifies this
      ensures Extends(old(Lists()), Lists(), OperandUse(op), mid)
    {
      EmitOperandRead(op, mid);
      EmitOperandMove(op, mid);
    }

    method EmitBorrow(place: Place, mid: nat)
      modifies this
      ensures Extends(old(Lists()), Lists(), Borrow(place), mid)
    {
      if IsDirect(place) {
        borrowed := borrowed + [(place.local, mid)];
      }
    }

    method EmitAssigned(place: Place, mid: nat)
      modifies this
      ensures Extends(old(Lists()), Lists(), QUIET.(assigns := DirectLocal(place)), mid)
    {
      if IsDirect(place) {
        pathAssigned := pathAssigned + [(place.local, mid)];
      }
    }

    /** Records a pointer write for each target, whatever the order of the set. */
    method EmitWrites(targets: set<nat>, mid: nat)
      modifies this
      ensures Extends(old(Lists()), Lists(), QUIET.(writes := targets), mid)
    {
      var rest := targets;
      while rest != {}
        invariant rest <= targets
        invariant Extends(old(Lists()), Lists(), QUIET.(writes := targets - rest), mid)
      {
        var target :| target in rest;
        written := written + [(target, mid)];
        rest := rest - {target};
      }
    }

    method EmitOperandUses(ops: seq<Operand>, mid: nat)
      modifies this
      ensures Extends(old(Lists()), Lists(), OperandUses(ops), mid)
    {
      for k := 0 to |ops|
        invariant Extends(old(Lists()), Lists(), OperandUses(ops[..k]), mid)
      {
        assert ops[..k + 1][..k] == ops[..k];
        EmitOperandUse(ops[k], mid);
      }
      assert ops[..|ops|] == ops;
    }

    /** Emits the reads, moves and borrows of a value, which are those of its operands and places. */
    method EmitRvalueUses(rvalue: Rvalue, mid: nat)
      modifies this
      ensures Extends(old(Lists()), Lists(), RvalueEvents(rvalue), mid) && UsesOf(rvalue, RvalueEvents(rvalue))
    {
      EmitByKind(rvalue, mid);
      RvalueUses(rvalue);
    }

    method EmitByKind(rvalue: Rvalue, mid: nat)
      modifies this
      ensures Extends(old(Lists()), Lists(), RvalueEvents(rvalue), mid)
    {
      match rvalue {
        case Use(op) => EmitOperandUse(op, mid);
        case Cast(op) => EmitOperandUse(op, mid);
        case BinaryOp(l, r) =>
          EmitOperandRead(l, mid);
          EmitOperandRead(r, mid);
        case CheckedBinaryOp(l, r) =>
          EmitOperandRead(l, mid);
          EmitOperandRead(r, mid);
        case UnaryOp(op) => EmitOperandRead(op, mid);
        case Repeat(op) => EmitOperandRead(op, mid);
        case Aggregate(ops) => EmitOperandUses(ops, mid);
        case CopyForDeref(place) => EmitPlaceRead(place, mid);
        case Discriminant(place) => EmitPlaceRead(place, mid);
        case Len(place) => EmitPlaceRead(place, mid);
        case AddressOf(place) => EmitBorrow(place, mid);
        case Ref(place) => EmitBorrow(place, mid);
        case Reborrow(place) => EmitBorrow(place, mid);
        case ThreadLocalRef =>
      }
    }

    /** Emits the statement's events and moves the points-to state past it. */
    method EmitStatement(body: Body, stmt: Statement, pts: PointsTo.State, mid: nat) returns (after: PointsTo.State)
      requires body.Valid() && body.ValidStatement(stmt) && PointsTo.Fits(body, pts)
      modifies this
      ensures Extends(old(Lists()), Lists(), StatementEvents(body, stmt, pts), mid)
      ensures after == PointsTo.Transfer(body, pts, stmt)
    {
      after := pts;
      if stmt.Assign? {
        EmitAssigned(stmt.place, mid);
        if DerefPointer(stmt.place).Some? {
          EmitWrites(pts[stmt.place.local], mid);
        }
        EmitRvalueUses(stmt.rvalue, mid);
        after := PointsToSolve.ApplyAssign(body, pts, stmt.place, stmt.rvalue);
      }
    }

    method EmitArguments(body: Body, args: seq<Operand>, pts: PointsTo.State, mid: nat)
      requires |pts| == body.localCount && forall a :: a in args ==> body.ValidOperand(a)
      modifies this
      ensures Extends(old(Lists()), Lists(), ArgumentsEvents(body, args, pts), mid)
    {
      for k := 0 to |args|
        invariant Extends(old(Lists()), Lists(), ArgumentsEvents(body, args[..k], pts), mid)
      {
        assert args[..k + 1][..k] == args[..k];
        assert args[k] in args;
        if OperandLocal(args[k]).Some? {
          EmitWrites(pts[args[k].place.local], mid);
        }
        EmitOperandUse(args[k], mid);
      }
      assert args[..|args|] == args;
    }

    method EmitAsm(operands: seq<AsmOperand>, mid: nat)
      modifies this
      ensures Extends(old(Lists()), Lists(), AsmAllEvents(operands), mid)
    {
      for k := 0 to |operands|
        invariant Extends(old(Lists()), Lists(), AsmAllEvents(operands[..k]), mid)
      {
        assert operands[..k + 1][..k] == operands[..k];
        if operands[k].inValue.Some? {
          EmitOperandRead(operands[k].inValue.value, mid);
        }
        if operands[k].outPlace.Some? {
          EmitAssigned(operands[k].outPlace.value, mid);
        }
      }
      assert operands[..|operands|] == operands;
    }

    /** Emits the terminator's events. A call's destination no longer points anywhere known. */
    method EmitTerminator(body: Body, t: Terminator, pts: PointsTo.State, mid: nat) returns (after: PointsTo.State)
      requires body.ValidTerminator(t) && |pts| == body.localCount
      modifies this
      ensures Extends(old(Lists()), Lists(), TerminatorEvents(body, t, pts), mid)
      ensures |after| == |pts|
      ensures forall p :: 0 <= p < |pts| ==> after[p] == if t.Call? && AsLocal(t.destination) == Some(p) then {} else pts[p]
    {
      after := pts;
      match t {
        case Call(args, destination) =>
          EmitAssigned(destination, mid);
          EmitArguments(body, args, pts, mid);
          var dest := AsLocal(destination);
          if dest.Some? {
            after := after[dest.value := {}];
          }
        case SwitchInt(discr) => EmitOperandRead(discr, mid);
        case Assert(cond) => EmitOperandRead(cond, mid);
        case InlineAsm(operands) => EmitAsm(operands, mid);
        case Return =>
          if !body.returnsUnit {
            pathAccessed := pathAccessed + [(RETURN_LOCAL, mid)];
          }
        case OtherTerminator =>
      }
    }

    /** The facts at the entry's start point, which no mid point shares. */
    method EmitEntry(body: Body, entry: nat)
      requires Lists() == FactLists([], [], [], [], [])
      modifies this
      ensures forall f: Fact :: f in pathAssigned <==> f.1 == entry && f.0 < body.localCount && 1 <= f.0 <= body.argCount
      ensures forall f: Fact :: f in pathMoved <==> f.1 == entry && f.0 < body.localCount && !(1 <= f.0 <= body.argCount)
      ensures pathAccessed == [] && borrowed == [] && written == []
    {
      for local := 0 to body.localCount
        invariant forall f: Fact :: f in pathAssigned <==> f.1 == entry && f.0 < local && 1 <= f.0 <= body.argCount
        invariant forall f: Fact :: f in pathMoved <==> f.1 == entry && f.0 < local && !(1 <= f.0 <= body.argCount)
        invariant pathAccessed == [] && borrowed == [] && written == []
      {
        if 1 <= local <= body.argCount {
          pathAssigned := pathAssigned + [(local, entry)];
        } else {
          pathMoved := pathMoved + [(local, entry)];
        }
      }
    }

    /** Emits one block's facts, leaving those of earlier points alone. */
    method EmitBlock(body: Body, b: nat, entry: PointsTo.State, table: LocationTable)
      requires body.Valid() && b < |body.blocks| && table.Describes(body)
      requires entry == PointsTo.EntryTargets(body, b)
      requires table != this as object
      requires OnlyBelow(Lists(), Base(body, b) + 1)
      requires forall c: nat, j: nat :: IsLocation(body, c, j) && c < b ==> Records(Lists(), EventsAt(body, c, j), Mid(body, c, j))
      modifies this
      ensures OnlyBelow(Lists(), Base(body, b + 1) + 1)
      ensures forall c: nat, j: nat :: IsLocation(body, c, j) && c <= b ==> Records(Lists(), EventsAt(body, c, j), Mid(body, c, j))
    {
      var block := body.blocks[b];
      var n := |block.statements|;
      assert body.ValidBlock(block);
      var pts := entry;
      for i := 0 to n
        invariant pts == PointsTo.RunAll(body, entry, block.statements[..i])
        invariant OnlyBelow(Lists(), Base(body, b) + 2 * i + 1)
        invariant forall c: nat, j: nat :: IsLocation(body, c, j) && (c < b || (c == b && j < i))
                                           ==> Records(Lists(), EventsAt(body, c, j), Mid(body, c, j))
      {
        assert block.statements[..i + 1][..i] == block.statements[..i];
        assert block.statements[i] in block.statements;
        ghost var before := Lists();
        var mid := table.MidIndex(body, b, i);
        pts := EmitStatement(body, block.statements[i], pts, mid);
        Advance(body, b, i, before, Lists());
      }
      assert block.statements[..n] == block.statements;
      ghost var before := Lists();
      var mid := table.MidIndex(body, b, n);
      pts := EmitTerminator(body, block.terminator, pts, mid);
      Advance(body, b, n, before, Lists());
    }
  }

  /** Emitting location `(b, i)` after all earlier ones keeps theirs and records its own. */
  lemma Advance(body: Body, b: nat, i: nat, before: FactLists, after: FactLists)
    requires body.Valid() && IsLocation(body, b, i)
    requires Extends(before, after, EventsAt(body, b, i), Mid(body, b, i))
    requires OnlyBelow(before, Mid(body, b, i))
    requires forall c: nat, j: nat :: IsLocation(body, c, j) && (c < b || (c == b && j < i))
                                      ==> Records(before, EventsAt(body, c, j), Mid(body, c, j))
    ensures OnlyBelow(after, Mid(body, b, i) + 1)
    ensures forall c: nat, j: nat :: IsLocation(body, c, j) && (c < b || (c == b && j <= i))
                                     ==> Records(after, EventsAt(body, c, j), Mid(body, c, j))
  {
    Recorded(before, after, EventsAt(body, b, i), Mid(body, b, i));
    forall c: nat, j: nat | IsLocation(body, c, j) && (c < b || (c == b && j <= i))
      ensures Records(after, EventsAt(body, c, j), Mid(body, c, j))
    {
      PointsDistinct(body, c, j, b, i);
      if c < b || j < i {
        StillRecorded(before, after, EventsAt(body, b, i), Mid(body, b, i), EventsAt(body, c, j), Mid(body, c, j));
      }
    }
  }

  /** Facts at every mid point are exactly that point's events. */
  method GenerateFacts(body: Body, table: LocationTable) returns (out: FactsOutput)
    requires body.Valid() && table.Describes(body)
    ensures fresh(out)
    ensures forall b: nat, i: nat :: IsLocation(body, b, i) ==> Records(out.Lists(), EventsAt(body, b, i), Mid(body, b, i))
  {
    out := new FactsOutput();
    var start := table.StartIndex(body, 0, 0);
    out.EmitEntry(body, start);
    var entries := PointsToSolve.ComputePointsTo(body);
    assert |entries[..]| == |body.blocks|;
    for b := 0 to |body.blocks|
      invariant forall c :: 0 <= c < entries.Length ==> entries[c] == PointsTo.EntryTargets(body, c)
      invariant OnlyBelow(out.Lists(), Base(body, b) + 1)
      invariant forall c: nat, j: nat :: IsLocation(body, c, j) && c < b
                                         ==> Records(out.Lists(), EventsAt(body, c, j), Mid(body, c, j))
    {
      out.EmitBlock(body, b, entries[b], table);
    }
  }
}
