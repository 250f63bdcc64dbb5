/** Flow-sensitive may-points-to: `compute_points_to` and the paths it sums up. */
module PointsTo {
  import opened Mir

  /** For each local, the locals it may point at. */
  type State = seq<set<nat>>

  ghost predicate Fits(body: Body, s: State) {
    |s| == body.localCount && forall p, q :: 0 <= p < |s| && q in s[p] ==> q < body.localCount
  }

  function Nowhere(body: Body): (s: State)
    ensures Fits(body, s)
  {
    seq(body.localCount, _ => {})
  }

  function OperandTargets(s: State, op: Operand): set<nat>
    requires OperandLocal(op).Some? ==> OperandLocal(op).value < |s|
  {
    match OperandLocal(op)
    case Some(local) => s[local]
    case None => {}
  }

  /** Points-to transfer of one statement. Only an assignment to a whole pointer local has one. */
  function Transfer(body: Body, s: State, stmt: Statement): (r: State)
    requires body.Valid() && body.ValidStatement(stmt) && Fits(body, s)
    ensures Fits(body, r)
  {
    if stmt.Assign? && AsLocal(stmt.place).Some? && body.IsPointer(stmt.place.local) then
      var targets :=
        match stmt.rvalue
        case AddressOf(pointee) => PointeeTargets(s, pointee)
        case Ref(pointee) => PointeeTargets(s, pointee)
        case Use(op) => OperandTargets(s, op)
        case Cast(op) => OperandTargets(s, op)
        case _ => {};
      s[stmt.place.local := targets]
    else s
  }

  function PointeeTargets(s: State, pointee: Place): set<nat>
    requires pointee.local < |s|
  {
    match DerefPointer(pointee)
    case Some(base) => s[base]
    case None => {pointee.local}
  }

  function RunAll(body: Body, s: State, stmts: seq<Statement>): (r: State)
    requires body.Valid() && Fits(body, s)
    requires forall st :: st in stmts ==> body.ValidStatement(st)
    ensures Fits(body, r)
  {
    if stmts == [] then s
    else Transfer(body, RunAll(body, s, stmts[..|stmts| - 1]), stmts[|stmts| - 1])
  }

  // ---- every target has a single origin ----

  /** `q` is in `RunAll(s)[p]` because of one entry of `s` alone, or of nothing in `s`. */
  ghost predicate Carries(body: Body, stmts: seq<Statement>, p: nat, q: nat, from: Option<nat>)
    requires body.Valid() && (forall st :: st in stmts ==> body.ValidStatement(st))
  {
    forall t: State :: Fits(body, t) && p < |t| && (from.Some? ==> from.value < |t| && q in t[from.value])
                       ==> q in RunAll(body, t, stmts)[p]
  }

  lemma {:induction false} Origin(body: Body, s: State, stmts: seq<Statement>, p: nat, q: nat) returns (from: Option<nat>)
    requires body.Valid() && Fits(body, s) && (forall st :: st in stmts ==> body.ValidStatement(st))
    requires p < body.localCount && q in RunAll(body, s, stmts)[p]
    ensures from.Some? ==> from.value < |s| && q in s[from.value]
    ensures Carries(body, stmts, p, q, from)
  {
    if stmts == [] {
      from := Some(p);
    } else {
      var init, last := stmts[..|stmts| - 1], stmts[|stmts| - 1];
      assert last in stmts;
      var mid := RunAll(body, s, init);
      var via: Option<nat> := Source(body, last, p);
      from := None;
      if via.Some? {
        from := Origin(body, s, init, via.value, q);
      }
      CarriesStep(body, s, stmts, p, q, via, from);
    }
  }

  /** A statement either copies one local's targets into `p` or gives `p` the same targets whatever came before. */
  lemma SourceCopies(body: Body, t: State, u: State, stmt: Statement, p: nat)
    requires body.Valid() && body.ValidStatement(stmt) && p < body.localCount && Fits(body, t) && Fits(body, u)
    ensures match Source(body, stmt, p)
            case Some(via) => Transfer(body, t, stmt)[p] == t[via]
            case None => Transfer(body, t, stmt)[p] == Transfer(body, u, stmt)[p]
  {
  }

  lemma CarriesStep(body: Body, s: State, stmts: seq<Statement>, p: nat, q: nat, via: Option<nat>, from: Option<nat>)
    requires body.Valid() && Fits(body, s) && (forall st :: st in stmts ==> body.ValidStatement(st))
    requires stmts != [] && body.ValidStatement(stmts[|stmts| - 1]) && p < body.localCount
    requires q in RunAll(body, s, stmts)[p]
    requires via == Source(body, stmts[|stmts| - 1], p)
    requires if via.Some? then Carries(body, stmts[..|stmts| - 1], via.value, q, from) else from.None?
    ensures Carries(body, stmts, p, q, from)
  {
    var init, last := stmts[..|stmts| - 1], stmts[|stmts| - 1];
    var before := RunAll(body, s, init);
    forall t: State | Fits(body, t) && p < |t| && (from.Some? ==> from.value < |t| && q in t[from.value])
      ensures q in RunAll(body, t, stmts)[p]
    {
      if via.Some? { CarriedAlong(body, init, via.value, q, from, t); }
      var mid := RunAll(body, t, init);
      SourceCopies(body, mid, before, last, p);
    }
  }

  /** The one local whose targets `Transfer` copies into `p`, if any. */
  function Source(body: Body, stmt: Statement, p: nat): (via: Option<nat>)
    requires body.Valid() && body.ValidStatement(stmt) && p < body.localCount
    ensures via.Some? ==> via.value < body.localCount
  {
    if stmt.Assign? && AsLocal(stmt.place) == Some(p) && body.IsPointer(p) then
      match stmt.rvalue
      case AddressOf(pointee) => DerefPointer(pointee)
      case Ref(pointee) => DerefPointer(pointee)
      case Use(op) => OperandLocal(op)
      case Cast(op) => OperandLocal(op)
      case _ => None
    else Some(p)
  }

  // ---- paths ----

  /** A walk along the body's edges; unlike the move analysis it may start at any block. */
  ghost predicate IsWalk(body: Body, walk: seq<nat>) {
    && |walk| > 0
    && (forall k :: 0 <= k < |walk| ==> walk[k] < |body.blocks|)
    && (forall k :: 0 < k < |walk| ==> walk[k] in body.blocks[walk[k - 1]].successors)
  }

  /** What the pointers hold at the end of `walk`, with nothing known at its start. */
  ghost function Along(body: Body, walk: seq<nat>): (s: State)
    requires body.Valid() && IsWalk(body, walk)
    ensures Fits(body, s)
    decreases |walk|
  {
    if |walk| == 1 then Nowhere(body)
    else
      var front := walk[..|walk| - 1];
      assert body.ValidBlock(body.blocks[front[|front| - 1]]);
      RunAll(body, Along(body, front), body.blocks[front[|front| - 1]].statements)
  }

  /** Some walk ends at `b` with `p` pointing at `q`. */
  ghost predicate MayPoint(body: Body, b: nat, p: nat, q: nat)
    requires body.Valid() && p < body.localCount
  {
    exists walk :: IsWalk(body, walk) && walk[|walk| - 1] == b && q in Along(body, walk)[p]
  }

  lemma WalkStep(body: Body, walk: seq<nat>, s: nat)
    requires body.Valid() && IsWalk(body, walk) && s in body.blocks[walk[|walk| - 1]].successors
    ensures body.ValidBlock(body.blocks[walk[|walk| - 1]])
    ensures IsWalk(body, walk + [s]) && (walk + [s])[|walk + [s]| - 1] == s
    ensures Along(body, walk + [s]) == RunAll(body, Along(body, walk), body.blocks[walk[|walk| - 1]].statements)
  {
    assert body.ValidBlock(body.blocks[walk[|walk| - 1]]);
    assert (walk + [s])[..|walk|] == walk;
  }

  lemma CarriedAlong(body: Body, stmts: seq<Statement>, p: nat, q: nat, from: Option<nat>, s: State)
    requires body.Valid() && (forall st :: st in stmts ==> body.ValidStatement(st))
    requires Carries(body, stmts, p, q, from) && Fits(body, s) && p < |s|
    requires from.Some? ==> from.value < |s| && q in s[from.value]
    ensures q in RunAll(body, s, stmts)[p]
  {
  }

  lemma WalkFor(body: Body, b: nat, s: State, from: Option<nat>, q: nat) returns (walk: seq<nat>)
    requires body.Valid() && b < |body.blocks| && Fits(body, s)
    requires forall p', q' :: 0 <= p' < body.localCount && q' in s[p'] ==> MayPoint(body, b, p', q')
    requires from.Some? ==> from.value < |s| && q in s[from.value]
    ensures IsWalk(body, walk) && walk[|walk| - 1] == b
    ensures from.Some? ==> q in Along(body, walk)[from.value]
  {
    walk := [b];
    if from.Some? {
      assert MayPoint(body, b, from.value, q);
      walk :| IsWalk(body, walk) && walk[|walk| - 1] == b && q in Along(body, walk)[from.value];
    }
  }

  /** What a block sends on is justified by a walk if what it received is. */
  lemma MayPointStep(body: Body, b: nat, s: State, succ: nat, p: nat, q: nat)
    requires body.Valid() && b < |body.blocks| && succ in body.blocks[b].successors && Fits(body, s)
    requires forall p', q' :: 0 <= p' < body.localCount && q' in s[p'] ==> MayPoint(body, b, p', q')
    requires body.ValidBlock(body.blocks[b])
    requires p < body.localCount && q in RunAll(body, s, body.blocks[b].statements)[p]
    ensures MayPoint(body, succ, p, q)
  {
    var stmts := body.blocks[b].statements;
    var from := Origin(body, s, stmts, p, q);
    var walk := WalkFor(body, b, s, from, q);
    WalkStep(body, walk, succ);
    CarriedAlong(body, stmts, p, q, from, Along(body, walk));
    assert q in Along(body, walk + [succ])[p];
  }

  /** Points-to state at block entry, read off the walks that reach the block. */
  ghost function EntryTargets(body: Body, b: nat): (s: State)
    requires body.Valid()
    ensures Fits(body, s)
  {
    seq(body.localCount, p requires 0 <= p < body.localCount =>
      set q | 0 <= q < body.localCount && MayPoint(body, b, p, q))
  }
}
