/** The points-to worklist. */
module PointsToSolve {
  import opened Mir
  import opened PointsTo
  import opened Measure
  import opened PointsToMeaning

  /** Everything `b` sends out has arrived at all of its successors. */
  ghost predicate Settled(body: Body, entry: seq<State>, b: nat)
    requires body.Valid() && |entry| == |body.blocks| && b < |entry|
    requires forall k :: 0 <= k < |entry| ==> Fits(body, entry[k])
  {
    assert body.ValidBlock(body.blocks[b]);
    forall s :: s in body.blocks[b].successors
                ==> Leq(RunAll(body, entry[b], body.blocks[b].statements), entry[s])
  }

  ghost predicate Justified(body: Body, s: State, b: nat)
    requires body.Valid() && Fits(body, s)
  {
    forall p, q :: 0 <= p < body.localCount && q in s[p] ==> MayPoint(body, b, p, q)
  }

  lemma {:induction false} RunAllMonotone(body: Body, s: State, t: State, stmts: seq<Statement>)
    requires body.Valid() && Fits(body, s) && Fits(body, t) && Leq(s, t)
    requires forall st :: st in stmts ==> body.ValidStatement(st)
    ensures Leq(RunAll(body, s, stmts), RunAll(body, t, stmts))
  {
    if stmts != [] {
      assert stmts[|stmts| - 1] in stmts;
      RunAllMonotone(body, s, t, stmts[..|stmts| - 1]);
    }
  }

  /** Once every block is settled, every walk is covered. */
  lemma {:induction false} Covered(body: Body, entry: seq<State>, walk: seq<nat>)
    requires body.Valid() && |entry| == |body.blocks| && IsWalk(body, walk)
    requires forall k :: 0 <= k < |entry| ==> Fits(body, entry[k])
    requires forall k :: 0 <= k < |entry| ==> Settled(body, entry, k)
    ensures Leq(Along(body, walk), entry[walk[|walk| - 1]])
    decreases |walk|
  {
    if |walk| > 1 {
      var front := walk[..|walk| - 1];
      var b := front[|front| - 1];
      Covered(body, entry, front);
      assert body.ValidBlock(body.blocks[b]);
      RunAllMonotone(body, Along(body, front), entry[b], body.blocks[b].statements);
      assert Settled(body, entry, b);
    }
  }

  /** `apply_assign_points_to`: updates one local's targets, to the local whose address is taken or to what is handed on. */
  method ApplyAssign(body: Body, s: State, place: Place, rvalue: Rvalue) returns (r: State)
    requires body.Valid() && body.ValidStatement(Assign(place, rvalue)) && Fits(body, s)
    ensures r == Transfer(body, s, Assign(place, rvalue))
    ensures |r| == body.localCount
    ensures forall p: nat, q: nat :: p < body.localCount ==> (q in r[p] <==> LeavesIn(body, s, Assign(place, rvalue), p, q))
  {
    TransferMeans(body, s, Assign(place, rvalue));
    r := s;
    var local := AsLocal(place);
    if local.None? { return; }
    if !body.IsPointer(local.value) { return; }
    var targets: set<nat>;
    match rvalue {
      case AddressOf(pointee) => targets := PointeeTargets(s, pointee);
      case Ref(pointee) => targets := PointeeTargets(s, pointee);
      case Use(op) => targets := OperandTargets(s, op);
      case Cast(op) => targets := OperandTargets(s, op);
      case _ => targets := {};
    }
    r := r[local.value := targets];
  }

  method RunStatements(body: Body, s: State, stmts: seq<Statement>) returns (r: State)
    requires body.Valid() && Fits(body, s)
    requires forall st :: st in stmts ==> body.ValidStatement(st)
    ensures r == RunAll(body, s, stmts)
  {
    r := s;
    for i := 0 to |stmts|
      invariant r == RunAll(body, s, stmts[..i])
    {
      assert stmts[..i + 1][..i] == stmts[..i];
      if stmts[i].Assign? {
        r := ApplyAssign(body, r, stmts[i].place, stmts[i].rvalue);
      }
    }
    assert stmts[..|stmts|] == stmts;
  }

  function Merge(s: State, t: State): (r: State)
    requires |s| == |t|
    ensures |r| == |s| && forall p :: 0 <= p < |s| ==> r[p] == s[p] + t[p]
  {
    seq(|s|, p requires 0 <= p < |s| => s[p] + t[p])
  }

  ghost predicate Table(body: Body, entry: seq<State>) {
    |entry| == |body.blocks| && forall k :: 0 <= k < |entry| ==> Fits(body, entry[k])
  }

  lemma MergeJustified(body: Body, s: State, t: State, b: nat)
    requires body.Valid() && Fits(body, s) && Fits(body, t) && Justified(body, s, b) && Justified(body, t, b)
    ensures Fits(body, Merge(s, t)) && Justified(body, Merge(s, t), b)
    ensures Leq(s, Merge(s, t)) && Leq(t, Merge(s, t))
  {
  }

  ghost predicate AllJustified(body: Body, entry: seq<State>)
    requires body.Valid()
  {
    Table(body, entry) && forall k :: 0 <= k < |entry| ==> Justified(body, entry[k], k)
  }

  /** Blocks not queued are settled, and the queue holds only blocks. */
  ghost predicate Queued(body: Body, entry: seq<State>, worklist: seq<nat>)
    requires body.Valid() && Table(body, entry)
  {
    && (forall k :: k in worklist ==> k < |entry|)
    && (forall k :: 0 <= k < |entry| ==> k in worklist || Settled(body, entry, k))
  }

  ghost predicate Grown(before: seq<State>, after: seq<State>) {
    |before| == |after| && forall k :: 0 <= k < |before| ==> Leq(before[k], after[k])
  }

  /** After `out` has been merged everywhere, `block` is settled and so is every block left alone. */
  lemma SettledAfter(body: Body, block: nat, before: seq<State>, after: seq<State>, queue: seq<nat>, worklist: seq<nat>)
    requires body.Valid() && Table(body, before) && Table(body, after) && block < |before|
    requires Grown(before, after) && Queued(body, before, queue + [block])
    requires body.ValidBlock(body.blocks[block])
    requires forall s :: s in body.blocks[block].successors
                         ==> Leq(RunAll(body, before[block], body.blocks[block].statements), after[s])
    requires forall k :: k in worklist ==> k < |after|
    requires forall k :: k in queue ==> k in worklist
    requires forall k :: 0 <= k < |after| ==> k in worklist || after[k] == before[k]
    ensures Queued(body, after, worklist)
  {
    forall k | 0 <= k < |after| && k !in worklist
      ensures Settled(body, after, k)
    {
      assert after[k] == before[k];
      assert body.ValidBlock(body.blocks[k]);
      if k != block {
        assert k !in queue + [block];
        assert Settled(body, before, k);
      }
    }
  }

  lemma OutJustified(body: Body, b: nat, s: State, succ: nat)
    requires body.Valid() && b < |body.blocks| && succ in body.blocks[b].successors
    requires Fits(body, s) && Justified(body, s, b) && body.ValidBlock(body.blocks[b])
    ensures Justified(body, RunAll(body, s, body.blocks[b].statements), succ)
  {
    var out := RunAll(body, s, body.blocks[b].statements);
    forall p, q | 0 <= p < body.localCount && q in out[p]
      ensures MayPoint(body, succ, p, q)
    {
      MayPointStep(body, b, s, succ, p, q);
    }
  }

  /** Merges `out` into one entry and says whether the entry grew. */
  method MergeInto(body: Body, succ: nat, out: State, entry: array<State>) returns (changed: bool)
    requires body.Valid() && AllJustified(body, entry[..]) && succ < entry.Length
    requires Fits(body, out) && Justified(body, out, succ)
    modifies entry
    ensures AllJustified(body, entry[..])
    ensures entry[..] == old(entry[..])[succ := Merge(old(entry[succ]), out)]
    ensures changed <==> entry[..] != old(entry[..])
    ensures changed ==> TotalRoom(body.localCount, entry[..]) < old(TotalRoom(body.localCount, entry[..]))
  {
    var merged := Merge(entry[succ], out);
    ghost var now := entry[..];
    MergeJustified(body, now[succ], out, succ);
    changed := merged != entry[succ];
    if changed {
      TotalRoomLess(body.localCount, now, succ, merged);
      entry[succ] := merged;
      assert entry[succ] != now[succ];
    }
    assert entry[..] == now[succ := merged];
  }

  /** Halfway through `block`'s successors: the first `done` have been served. */
  ghost predicate Serving(body: Body, block: nat, out: State, before: seq<State>, now: seq<State>,
                          queue: seq<nat>, worklist: seq<nat>, done: nat)
    requires block < |body.blocks|
  {
    var succs := body.blocks[block].successors;
    && |before| == |now| && Grown(before, now)
    && (forall k :: k in worklist ==> k < |now|)
    && (forall k :: 0 <= k < |now| ==> k in worklist || now[k] == before[k])
    && (forall k :: k in queue ==> k in worklist)
    && done <= |succs| && (forall j :: 0 <= j < done ==> succs[j] < |now| && Leq(out, now[succs[j]]))
    && ((now == before && worklist == queue) || TotalRoom(body.localCount, now) < TotalRoom(body.localCount, before))
  }

  lemma ServeOne(body: Body, block: nat, out: State, before: seq<State>, now: seq<State>, after: seq<State>,
                 queue: seq<nat>, worklist: seq<nat>, done: nat, succ: nat, changed: bool)
    requires block < |body.blocks| && Serving(body, block, out, before, now, queue, worklist, done)
    requires done < |body.blocks[block].successors| && succ == body.blocks[block].successors[done] && succ < |now|
    requires |now[succ]| == |out| && after == now[succ := Merge(now[succ], out)]
    requires changed <==> after != now
    requires changed ==> TotalRoom(body.localCount, after) < TotalRoom(body.localCount, now)
    ensures Serving(body, block, out, before, after, queue, if changed then worklist + [succ] else worklist, done + 1)
  {
    forall k | 0 <= k < |now|
      ensures Leq(now[k], after[k]) && Leq(before[k], after[k])
    {
      assert Leq(before[k], now[k]);
    }
    forall j | 0 <= j < done + 1
      ensures Leq(out, after[body.blocks[block].successors[j]])
    {
      var s := body.blocks[block].successors[j];
      if j < done { assert Leq(out, now[s]) && Leq(now[s], after[s]); }
    }
  }

  /** Merges `out` into the successors of `block` one by one, queueing those that grow. */
  method Propagate(body: Body, block: nat, out: State, entry: array<State>, queue: seq<nat>)
    returns (worklist: seq<nat>)
    requires body.Valid() && AllJustified(body, entry[..]) && block < entry.Length
    requires body.ValidBlock(body.blocks[block])
    requires out == RunAll(body, entry[block], body.blocks[block].statements)
    requires forall k :: k in queue ==> k < entry.Length
    modifies entry
    ensures AllJustified(body, entry[..])
    ensures Serving(body, block, out, old(entry[..]), entry[..], queue, worklist, |body.blocks[block].successors|)
  {
    worklist := queue;
    var succs := body.blocks[block].successors;
    ghost var before := entry[..];
    for j := 0 to |succs|
      invariant AllJustified(body, entry[..])
      invariant Serving(body, block, out, before, entry[..], queue, worklist, j)
    {
      var succ := succs[j];
      OutJustified(body, block, before[block], succ);
      ghost var now := entry[..];
      var changed := MergeInto(body, succ, out, entry);
      ServeOne(body, block, out, before, now, entry[..], queue, worklist, j, succ, changed);
      if changed {
        worklist := worklist + [succ];
      }
    }
  }

  lemma AllServed(body: Body, block: nat, out: State, before: seq<State>, now: seq<State>, queue: seq<nat>, worklist: seq<nat>)
    requires body.Valid() && Table(body, before) && Table(body, now) && block < |before|
    requires body.ValidBlock(body.blocks[block]) && Queued(body, before, queue + [block])
    requires out == RunAll(body, before[block], body.blocks[block].statements)
    requires Serving(body, block, out, before, now, queue, worklist, |body.blocks[block].successors|)
    ensures Queued(body, now, worklist)
  {
    SettledAfter(body, block, before, now, queue, worklist);
  }

  /** One turn of the worklist: run the popped block and merge what it makes into its successors. */
  method Turn(body: Body, block: nat, queue: seq<nat>, entry: array<State>) returns (worklist: seq<nat>)
    requires body.Valid() && Working(body, entry[..], queue + [block])
    modifies entry
    ensures Working(body, entry[..], worklist)
    ensures Closer(body, old(entry[..]), entry[..], queue, worklist)
  {
    ghost var was := entry[..];
    assert block in queue + [block] && |was| == entry.Length;
    assert forall k :: k in queue ==> k in queue + [block];
    assert body.ValidBlock(body.blocks[block]) && was[block] == entry[block];
    var out := RunStatements(body, entry[block], body.blocks[block].statements);
    worklist := Propagate(body, block, out, entry, queue);
    AllServed(body, block, out, was, entry[..], queue, worklist);
  }

  /** The worklist's invariant: entries justified by walks, every block outside the list settled. */
  ghost predicate Working(body: Body, entry: seq<State>, worklist: seq<nat>)
    requires body.Valid()
  {
    AllJustified(body, entry) && Queued(body, entry, worklist)
  }

  /** After a turn either nothing happened but that the list is shorter, or an entry grew. */
  ghost predicate Closer(body: Body, before: seq<State>, after: seq<State>, queue: seq<nat>, worklist: seq<nat>) {
    (after == before && worklist == queue) || TotalRoom(body.localCount, after) < TotalRoom(body.localCount, before)
  }

  lemma StartsJustified(body: Body, entry: seq<State>, worklist: seq<nat>)
    requires body.Valid() && |entry| == |worklist| == |body.blocks|
    requires forall k :: 0 <= k < |entry| ==> entry[k] == Nowhere(body) && worklist[k] == k
    ensures Working(body, entry, worklist)
  {
    assert forall k :: 0 <= k < |entry| ==> worklist[k] in worklist;
  }

  method Initialize(body: Body) returns (entry: array<State>, worklist: seq<nat>)
    requires body.Valid()
    ensures fresh(entry) && Working(body, entry[..], worklist)
  {
    entry := new State[|body.blocks|](_ => Nowhere(body));
    worklist := seq(|body.blocks|, b => b);
    StartsJustified(body, entry[..], worklist);
  }

  /** Runs the worklist to its end. */
  method Solve(body: Body) returns (entry: array<State>)
    requires body.Valid()
    ensures fresh(entry) && Working(body, entry[..], [])
  {
    var worklist;
    entry, worklist := Initialize(body);
    while worklist != []
      invariant fresh(entry) && Working(body, entry[..], worklist)
      decreases TotalRoom(body.localCount, entry[..]), |worklist|
    {
      var queue, block := worklist[..|worklist| - 1], worklist[|worklist| - 1];
      assert worklist == queue + [block];
      worklist := Turn(body, block, queue, entry);
    }
  }

  /** May-points-to at the entry of every block: exactly what chains of assignments along walks to it lead to. */
  method ComputePointsTo(body: Body) returns (entry: array<State>)
    requires body.Valid()
    ensures fresh(entry) && Table(body, entry[..])
    ensures forall b :: 0 <= b < entry.Length ==> entry[b] == EntryTargets(body, b)
    ensures forall b: nat, p: nat, q: nat :: b < entry.Length && p < body.localCount
                                             ==> (q in entry[b][p] <==> Points(body, b, 0, p, q))
  {
    entry := Solve(body);
    AllComplete(body, entry[..]);
    assert |entry[..]| == entry.Length;
    assert forall b :: 0 <= b < entry.Length ==> entry[b] == entry[..][b];
    forall b: nat, p: nat, q: nat | b < entry.Length && p < body.localCount
      ensures q in entry[b][p] <==> Points(body, b, 0, p, q)
    {
      EntryMeaning(body, b, p, q);
    }
  }

  lemma AllComplete(body: Body, entry: seq<State>)
    requires body.Valid() && Working(body, entry, [])
    ensures forall b :: 0 <= b < |entry| ==> entry[b] == EntryTargets(body, b)
  {
    forall b | 0 <= b < |entry|
      ensures entry[b] == EntryTargets(body, b)
    {
      Complete(body, entry, b);
    }
  }

  lemma Complete(body: Body, entry: seq<State>, b: nat)
    requires body.Valid() && Working(body, entry, []) && b < |entry|
    ensures entry[b] == EntryTargets(body, b)
  {
    assert Fits(body, entry[b]);
    forall p | 0 <= p < body.localCount
      ensures entry[b][p] == EntryTargets(body, b)[p]
    {
      forall q: nat | MayPoint(body, b, p, q)
        ensures q in entry[b][p]
      {
        var walk :| IsWalk(body, walk) && walk[|walk| - 1] == b && q in Along(body, walk)[p];
        Covered(body, entry, walk);
      }
    }
  }
}
