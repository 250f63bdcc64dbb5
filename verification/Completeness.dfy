/** The reports and leaks speak for all paths: in a typed body some local is never written through a pointer. */
module Completeness {
  import opened Mir
  import opened Flow
  import opened Locations
  import opened Facts
  import opened Emit
  import opened Borrowck
  import opened Analyze
  import opened PointUses
  import opened Histories
  import PointsTo

  // ---- a local nothing points at ----

  /** No pointer is recorded as pointing at `y`. */
  ghost predicate Avoids(s: PointsTo.State, y: nat) {
    forall p :: 0 <= p < |s| ==> y !in s[p]
  }

  /** `y` has the deepest type of the body. */
  ghost predicate Deepest(body: Body, y: nat) {
    y < body.localCount == |body.pointerDepth| && forall x :: 0 <= x < body.localCount ==> body.pointerDepth[x] <= body.pointerDepth[y]
  }

  lemma {:induction false} SomeDeepest(depths: seq<nat>) returns (y: nat)
    requires depths != []
    ensures y < |depths| && forall x :: 0 <= x < |depths| ==> depths[x] <= depths[y]
  {
    y := 0;
    if |depths| > 1 {
      var front := depths[..|depths| - 1];
      y := SomeDeepest(front);
      if depths[|depths| - 1] > depths[y] { y := |depths| - 1; }
      assert forall x :: 0 <= x < |front| ==> depths[x] == front[x];
    }
  }

  /** An assignment that would make something point at `y` needs a deeper type than there is. */
  lemma TransferAvoids(body: Body, s: PointsTo.State, stmt: Statement, y: nat)
    requires body.Valid() && body.ValidStatement(stmt) && PointsTo.Fits(body, s) && Deepest(body, y) && Avoids(s, y)
    ensures Avoids(PointsTo.Transfer(body, s, stmt), y)
  {
  }

  lemma {:induction false} RunAvoids(body: Body, s: PointsTo.State, stmts: seq<Statement>, y: nat)
    requires body.Valid() && PointsTo.Fits(body, s) && Deepest(body, y) && Avoids(s, y)
    requires forall st :: st in stmts ==> body.ValidStatement(st)
    ensures Avoids(PointsTo.RunAll(body, s, stmts), y)
  {
    if stmts != [] {
      var init, last := stmts[..|stmts| - 1], stmts[|stmts| - 1];
      assert last in stmts;
      RunAvoids(body, s, init, y);
      TransferAvoids(body, PointsTo.RunAll(body, s, init), last, y);
    }
  }

  lemma {:induction false} WalkAvoids(body: Body, walk: seq<nat>, y: nat)
    requires body.Valid() && PointsTo.IsWalk(body, walk) && Deepest(body, y)
    ensures Avoids(PointsTo.Along(body, walk), y)
    decreases |walk|
  {
    if |walk| > 1 {
      var front := walk[..|walk| - 1];
      WalkAvoids(body, front, y);
      assert body.ValidBlock(body.blocks[front[|front| - 1]]);
      RunAvoids(body, PointsTo.Along(body, front), body.blocks[front[|front| - 1]].statements, y);
    }
  }

  lemma TargetsAvoid(body: Body, b: nat, i: nat, y: nat)
    requires body.Valid() && IsLocation(body, b, i) && Deepest(body, y)
    ensures Avoids(TargetsAt(body, b, i), y)
  {
    forall p | 0 <= p < body.localCount
      ensures y !in PointsTo.EntryTargets(body, b)[p]
    {
      if PointsTo.MayPoint(body, b, p, y) {
        var walk :| PointsTo.IsWalk(body, walk) && walk[|walk| - 1] == b && y in PointsTo.Along(body, walk)[p];
        WalkAvoids(body, walk, y);
      }
    }
    assert body.ValidBlock(body.blocks[b]);
    RunAvoids(body, PointsTo.EntryTargets(body, b), body.blocks[b].statements[..i], y);
  }

  lemma {:induction false} ArgumentsAvoid(body: Body, args: seq<Operand>, pts: PointsTo.State, y: nat)
    requires |pts| == body.localCount && (forall a :: a in args ==> body.ValidOperand(a)) && Avoids(pts, y)
    ensures y !in ArgumentsEvents(body, args, pts).writes
  {
    if args != [] {
      assert args[|args| - 1] in args;
      ArgumentsAvoid(body, args[..|args| - 1], pts, y);
    }
  }

  lemma {:induction false} UsesWriteNothing(ops: seq<Operand>)
    ensures OperandUses(ops).writes == {}
  {
    if ops != [] { UsesWriteNothing(ops[..|ops| - 1]); }
  }

  lemma {:induction false} AsmWritesNothing(operands: seq<AsmOperand>)
    ensures AsmAllEvents(operands).writes == {}
  {
    if operands != [] { AsmWritesNothing(operands[..|operands| - 1]); }
  }

  lemma EventsAvoid(body: Body, b: nat, i: nat, y: nat)
    requires body.Valid() && IsLocation(body, b, i) && Deepest(body, y)
    ensures y !in EventsAt(body, b, i).writes
  {
    var block, pts := body.blocks[b], TargetsAt(body, b, i);
    assert body.ValidBlock(block);
    TargetsAvoid(body, b, i, y);
    if i < |block.statements| {
      var stmt := block.statements[i];
      assert stmt in block.statements;
      if stmt.Assign? && stmt.rvalue.Aggregate? { UsesWriteNothing(stmt.rvalue.operands); }
    } else {
      match block.terminator {
        case Call(args, _) => ArgumentsAvoid(body, args, pts, y);
        case InlineAsm(operands) => AsmWritesNothing(operands);
        case _ =>
      }
    }
  }

  /** Every typed body has a local that is never written through a pointer. */
  lemma SomeNeverWritten(body: Body) returns (y: nat)
    requires body.Valid()
    ensures y < body.localCount && NeverWritten(GraphOf(body), y)
  {
    y := SomeDeepest(body.pointerDepth);
    var g := GraphOf(body);
    forall b, i | 0 <= b < |g.events| && 0 <= i < |g.events[b]|
      ensures y !in g.events[b][i].writes
    {
      assert IsLocation(body, b, i);
      EventsAvoid(body, b, i, y);
    }
  }

  // ---- all paths ----

  /** The reports about `x` at point `i` of block `b` are exactly those some path deserves. */
  ghost predicate ReportsMatchPaths(g: Graph, body: Body, errors: Errors, b: nat, i: nat, x: nat)
    requires IsLocation(body, b, i) && b < |g.events| && i < |g.events[b]|
  {
    var ev, point := g.events[b][i], Mid(body, b, i);
    && (HasError(errors, point, x, Moved) || HasError(errors, point, x, Uninit)
        <==> (x in ev.accesses && ArrivesAny(g, b, i, x, UninitBit)) || (x in ev.borrows && ArrivesAny(g, b, i, x, MovedBit)))
    && (HasError(errors, point, x, Moved)
        <==> (x in ev.accesses || x in ev.borrows) && ArrivesAny(g, b, i, x, MovedBit))
  }

  lemma ReportsOnAllPaths(body: Body, errors: Errors, b: nat, i: nat, x: nat)
    requires body.Valid() && IsLocation(body, b, i)
    requires ReportsExact(GraphOf(body), body, errors, b, i, x)
    ensures ReportsMatchPaths(GraphOf(body), body, errors, b, i, x)
  {
    GraphValid(body);
    var y := SomeNeverWritten(body);
    ArrivesOnAnyPath(GraphOf(body), y, b, i, x, UninitBit);
    ArrivesOnAnyPath(GraphOf(body), y, b, i, x, MovedBit);
  }

  /** `x` is owned at the end of some path to the return block `b`. A block no path reaches is replayed from nothing. */
  ghost predicate OwnedOnPath(g: Graph, b: nat, x: nat)
    requires b < |g.events|
  {
    if Reachable(g, b) then ArrivesAny(g, b, |g.events[b]|, x, OwnedBit)
    else Run(g.events[b], x, NOTHING).owned
  }

  /** The return of block `b` leaks `x`: a drop-needing local, not the return local, that some path leaves owned. */
  ghost predicate LeaksOnPath(g: Graph, body: Body, b: nat, x: nat)
    requires |g.events| == |body.blocks| && |body.needsDrop| == g.locals
  {
    && b < |body.blocks| && body.blocks[b].terminator.Return?
    && x != RETURN_LOCAL && x < g.locals && body.needsDrop[x] && OwnedOnPath(g, b, x)
  }

  /** The listed locals are exactly those some return leaks, each blamed on an assignment or as an argument. */
  ghost predicate LeaksMatchPaths(g: Graph, body: Body, leaks: seq<Leak>)
    requires |g.events| == |body.blocks| && |body.needsDrop| == g.locals
  {
    && (forall leak :: leak in leaks ==> Blamed(g, body, leak))
    && (forall x: nat :: Listed(leaks, x) <==> exists b: nat :: LeaksOnPath(g, body, b, x))
  }

  lemma OwnershipOnAllPaths(body: Body, b: nat, x: nat)
    requires body.Valid() && b < |body.blocks|
    ensures OwnedAtReturn(GraphOf(body), b, x) <==> OwnedOnPath(GraphOf(body), b, x)
  {
    var g := GraphOf(body);
    GraphValid(body);
    var y := SomeNeverWritten(body);
    if Reachable(g, b) {
      var path :| IsPath(g, path) && Last(path) == b;
      UnwrittenAwake(g, path, y);
      ArrivesOnAnyPath(g, y, b, |g.events[b]|, x, OwnedBit);
    }
  }

  lemma LeaksOnAllPaths(body: Body, leaks: seq<Leak>)
    requires body.Valid() && LeaksExact(GraphOf(body), body, leaks, |body.blocks|)
    ensures LeaksMatchPaths(GraphOf(body), body, leaks)
  {
    var g := GraphOf(body);
    forall b: nat, x: nat
      ensures Leaks(g, body, b, x) <==> LeaksOnPath(g, body, b, x)
    {
      if b < |body.blocks| { OwnershipOnAllPaths(body, b, x); }
    }
    forall x: nat
      ensures Listed(leaks, x) <==> exists b: nat :: LeaksOnPath(g, body, b, x)
    {
      if leak :| leak in leaks && leak.local == x {
        var b: nat :| b < |body.blocks| && Leaks(g, body, b, x);
        assert LeaksOnPath(g, body, b, x);
      }
      if b: nat :| LeaksOnPath(g, body, b, x) {
        assert Leaks(g, body, b, x);
        assert LeaksBefore(g, body, |body.blocks|, x);
      }
    }
  }

  // ---- in terms of the body itself ----

  /** At point `i` of block `b`, `x` is reported as moved exactly when it is used there after it may have been handed
      over, and reported at all exactly when it may moreover be read without ever having got a value. */
  ghost predicate ReportedRightly(body: Body, errors: Errors, b: nat, i: nat, x: nat)
    requires body.Valid() && IsLocation(body, b, i)
  {
    var point := Mid(body, b, i);
    && (HasError(errors, point, x, Moved) || HasError(errors, point, x, Uninit)
        <==> (Reads(body, b, i, x) && MayBe(body, b, i, x, UninitBit)) || (Borrows(body, b, i, x) && MayBe(body, b, i, x, MovedBit)))
    && (HasError(errors, point, x, Moved)
        <==> (Reads(body, b, i, x) || Borrows(body, b, i, x)) && MayBe(body, b, i, x, MovedBit))
  }

  /** All reports are about points of the body, and right. */
  ghost predicate ReportsRight(body: Body, errors: Errors)
    requires body.Valid()
  {
    && (forall b: nat, i: nat, x: nat :: IsLocation(body, b, i) ==> ReportedRightly(body, errors, b, i, x))
    && (forall point: nat, x: nat, kind :: HasError(errors, point, x, kind)
                                           ==> exists b: nat, i: nat :: IsLocation(body, b, i) && point == Mid(body, b, i))
  }

  lemma ReportRight(body: Body, errors: Errors, b: nat, i: nat, x: nat)
    requires body.Valid() && IsLocation(body, b, i)
    requires ReportsMatchPaths(GraphOf(body), body, errors, b, i, x)
    ensures ReportedRightly(body, errors, b, i, x)
  {
    ReadsMeaning(body, b, i, x);
    BorrowsMeaning(body, b, i, x);
    ArrivesTold(body, b, i, x, UninitBit);
    ArrivesTold(body, b, i, x, MovedBit);
  }

  /** The return of block `b` leaks `x`: a drop-needing local, not the return local, that some route leaves with a value
      of its own. In a block no route reaches, one the block itself assigns. */
  ghost predicate LeavesOwned(body: Body, b: nat, x: nat)
    requires body.Valid()
  {
    && b < |body.blocks| && body.blocks[b].terminator.Return?
    && x != 0 && x < body.localCount && body.needsDrop[x]
    && if HasRoute(body, b) then MayBe(body, b, |body.blocks[b].statements| + 1, x, OwnedBit)
       else FilledAfter(body, BlockSpots(b, |body.blocks[b].statements| + 1), x)
  }

  /** A leak is blamed on a point that assigns the local, or on its declaration as an argument. */
  ghost predicate BlamedRightly(body: Body, leak: Leak) {
    match leak.at
    case Some(p) => exists b: nat, i: nat :: IsLocation(body, b, i) && p == Mid(body, b, i) && Assigns(body, b, i, leak.local)
    case None => IsArgument(body, leak.local)
  }

  ghost predicate LeaksRight(body: Body, leaks: seq<Leak>)
    requires body.Valid()
  {
    && (forall leak :: leak in leaks ==> BlamedRightly(body, leak))
    && (forall x: nat :: Listed(leaks, x) <==> exists b: nat :: LeavesOwned(body, b, x))
  }

  lemma LeavesTold(body: Body, b: nat, x: nat)
    requires body.Valid()
    ensures LeavesOwned(body, b, x) <==> LeaksOnPath(GraphOf(body), body, b, x)
  {
    if b < |body.blocks| {
      RoutesReach(body, b);
      ArrivesTold(body, b, |body.blocks[b].statements| + 1, x, OwnedBit);
      ReplayTold(body, b, x);
    }
  }

  lemma BlameTold(body: Body, leak: Leak)
    requires body.Valid() && Blamed(GraphOf(body), body, leak)
    ensures BlamedRightly(body, leak)
  {
    if leak.at.Some? {
      var b: nat, i: nat :| IsLocation(body, b, i) && leak.at.value == Mid(body, b, i)
                            && leak.local in GraphOf(body).events[b][i].assigns;
      AssignsMeaning(body, b, i, leak.local);
    }
  }

  lemma LeaksTold(body: Body, leaks: seq<Leak>)
    requires body.Valid() && LeaksMatchPaths(GraphOf(body), body, leaks)
    ensures LeaksRight(body, leaks)
  {
    var g := GraphOf(body);
    forall leak | leak in leaks
      ensures BlamedRightly(body, leak)
    {
      BlameTold(body, leak);
    }
    forall b: nat, x: nat
      ensures LeavesOwned(body, b, x) <==> LeaksOnPath(g, body, b, x)
    {
      LeavesTold(body, b, x);
    }
  }

  /** Use after move: nothing between the hand-over and the use gives `x` a value. */
  lemma UseAfterMove(body: Body, errors: Errors, b: nat, i: nat, j: nat, x: nat)
    requires body.Valid() && ReportsRight(body, errors) && HasRoute(body, b)
    requires i < j && IsLocation(body, b, i) && IsLocation(body, b, j)
    requires HandsOver(body, b, i, x) && (Reads(body, b, j, x) || Borrows(body, b, j, x))
    requires forall m :: i <= m < j ==> !Assigns(body, b, m, x) && !MayWrite(body, b, m, x)
    ensures HasError(errors, Mid(body, b, j), x, Moved)
  {
    var route :| IsRoute(body, route) && route[|route| - 1] == b;
    var story, k := Story(body, route, j), |Before(body, route)| + i;
    assert story[k] == Spot(b, i);
    assert forall m :: k <= m < |story| ==> story[m] == Spot(b, m - |Before(body, route)|);
    assert Unrestored(body, story, x, k);
    assert Tells(body, story, x, MovedBit);
    assert ReportedRightly(body, errors, b, j, x);
  }

  /** `check`: number the points, emit the facts, analyze them. Reports and leaks are those of the body's paths,
      all of them,
      told from its statements, places and pointers. */
  method Check(body: Body) returns (errors: Errors, leaks: seq<Leak>)
    requires body.Valid()
    ensures ReportsRight(body, errors)
    ensures LeaksRight(body, leaks)
  {
    var table := new LocationTable(body);
    var facts := GenerateFacts(body, table);
    var lists := FactLists(facts.pathAssigned, facts.pathMoved, facts.pathAccessed, facts.borrowed, facts.written);
    errors, leaks := Analyze.Analyze(lists, GraphOf(body), body, table);
    forall b: nat, i: nat, x: nat | IsLocation(body, b, i)
      ensures ReportedRightly(body, errors, b, i, x)
    {
      ReportsOnAllPaths(body, errors, b, i, x);
      ReportRight(body, errors, b, i, x);
    }
    LeaksOnAllPaths(body, leaks);
    LeaksTold(body, leaks);
  }
}
