/** The imperative analysis, proved against the paths of the body's graph. */
module Analyze {
  import opened Mir
  import opened Flow
  import opened Measure
  import opened Bits
  import opened Rows
  import opened Locations
  import opened Facts
  import opened Emit
  import opened Collect
  import opened Borrowck

  // ---- one program point ----

  ghost predicate Fit(ev: Events, words: nat) {
    forall x :: x in ev.assigns || x in ev.moves || x in ev.accesses || x in ev.borrows || x in ev.writes
                ==> x < WORD_BITS * words
  }

  function Report(errors: Errors, point: nat, x: nat, kind: UseKind): (r: Errors)
    ensures forall p: nat, y: nat, k :: HasError(r, p, y, k) <==> HasError(errors, p, y, k) || (p == point && y == x && k == kind)
  {
    errors[point := (if point in errors then errors[point] else []) + [(x, kind)]]
  }

  /** Checks the point's accesses and borrows against the state before its own effects. */
  method RecordErrors(pe: PointEvents, ghost ev: Events, r: Rows, ghost words: nat, mid: nat, before: Errors)
    returns (errors: Errors)
    requires Lists(pe, ev) && Fit(ev, words) && r.Wide(words)
    ensures forall p: nat, x: nat, kind :: HasError(errors, p, x, kind) <==>
                                           HasError(before, p, x, kind)
                                           || (p == mid && x < WORD_BITS * words && ErrorAt(ev, x, View(r, words, x), kind))
  {
    errors := before;
    for k := 0 to |pe.accesses|
      invariant forall p: nat, x: nat, kind :: HasError(errors, p, x, kind) <==>
                                               HasError(before, p, x, kind)
                                               || (p == mid && x in pe.accesses[..k] && x < WORD_BITS * words && View(r, words, x).uninit
                                                   && kind == if View(r, words, x).moved then Moved else Uninit)
    {
      var path := pe.accesses[k];
      assert path in pe.accesses;
      if IsSet(r.uninit, path) {
        errors := Report(errors, mid, path, if IsSet(r.moved, path) then Moved else Uninit);
      }
      assert pe.accesses[..k + 1] == pe.accesses[..k] + [path];
    }
    assert pe.accesses[..|pe.accesses|] == pe.accesses;
    ghost var accessed := errors;
    for k := 0 to |pe.borrows|
      invariant forall p: nat, x: nat, kind :: HasError(errors, p, x, kind) <==>
                                               HasError(accessed, p, x, kind)
                                               || (p == mid && x in pe.borrows[..k] && x < WORD_BITS * words && View(r, words, x).moved && kind == Moved)
    {
      var path := pe.borrows[k];
      assert path in pe.borrows;
      if IsSet(r.moved, path) {
        errors := Report(errors, mid, path, Moved);
      }
      assert pe.borrows[..k + 1] == pe.borrows[..k] + [path];
    }
    assert pe.borrows[..|pe.borrows|] == pe.borrows;
  }

  /** Moves: uninitialized, moved, no longer owned. */
  method ApplyMoves(paths: seq<nat>, r: Rows, ghost words: nat) returns (s: Rows)
    requires r.Wide(words) && forall x :: x in paths ==> x < WORD_BITS * words
    ensures s.Wide(words)
    ensures forall x: nat :: x < WORD_BITS * words
                             ==> View(s, words, x) == if x in paths then LocalState(true, true, false) else View(r, words, x)
  {
    s := r;
    for k := 0 to |paths|
      invariant s.Wide(words)
      invariant forall x: nat :: x < WORD_BITS * words
                                 ==> View(s, words, x) == if x in paths[..k] then LocalState(true, true, false) else View(r, words, x)
    {
      assert paths[k] in paths;
      s := MarkMoved(s, words, paths[k]);
      assert paths[..k + 1] == paths[..k] + [paths[k]];
    }
    assert paths[..|paths|] == paths;
  }

  /** Pointer writes: initialized, ownership as before. */
  method ApplyWrites(paths: seq<nat>, r: Rows, ghost words: nat) returns (s: Rows)
    requires r.Wide(words) && forall x :: x in paths ==> x < WORD_BITS * words
    ensures s.Wide(words)
    ensures forall x: nat :: x < WORD_BITS * words
                             ==> View(s, words, x) == if x in paths then LocalState(false, false, View(r, words, x).owned)
                                                      else View(r, words, x)
  {
    s := r;
    for k := 0 to |paths|
      invariant s.Wide(words)
      invariant forall x: nat :: x < WORD_BITS * words
                                 ==> View(s, words, x) == if x in paths[..k] then LocalState(false, false, View(r, words, x).owned)
                                                          else View(r, words, x)
    {
      assert paths[k] in paths;
      s := MarkWritten(s, words, paths[k]);
      assert paths[..k + 1] == paths[..k] + [paths[k]];
    }
    assert paths[..|paths|] == paths;
  }

  /** Assignments: initialized and owned, and the point is noted. */
  method ApplyAssigns(paths: seq<nat>, r: Rows, ghost words: nat, mid: nat, lastAssign: array<Option<nat>>) returns (s: Rows)
    requires r.Wide(words) && forall x :: x in paths ==> x < WORD_BITS * words && x < lastAssign.Length
    modifies lastAssign
    ensures s.Wide(words)
    ensures forall x: nat :: x < WORD_BITS * words
                             ==> View(s, words, x) == if x in paths then LocalState(false, false, true) else View(r, words, x)
    ensures forall x: nat :: x < lastAssign.Length ==> lastAssign[x] == if x in paths then Some(mid) else old(lastAssign[x])
  {
    s := r;
    for k := 0 to |paths|
      invariant s.Wide(words)
      invariant forall x: nat :: x < WORD_BITS * words
                                 ==> View(s, words, x) == if x in paths[..k] then LocalState(false, false, true) else View(r, words, x)
      invariant forall x: nat :: x < lastAssign.Length ==> lastAssign[x] == if x in paths[..k] then Some(mid) else old(lastAssign[x])
    {
      assert paths[k] in paths;
      s := MarkAssigned(s, words, paths[k]);
      lastAssign[paths[k]] := Some(mid);
      assert paths[..k + 1] == paths[..k] + [paths[k]];
    }
    assert paths[..|paths|] == paths;
  }

  /** The point's effects, in the source's order, noting where each local was last assigned. */
  method ApplyEvents(pe: PointEvents, ghost ev: Events, r: Rows, ghost words: nat, mid: nat, lastAssign: array<Option<nat>>)
    returns (s: Rows)
    requires Lists(pe, ev) && Fit(ev, words) && r.Wide(words)
    requires forall x :: x in ev.assigns ==> x < lastAssign.Length
    modifies lastAssign
    ensures s.Wide(words)
    ensures forall x: nat :: x < WORD_BITS * words ==> View(s, words, x) == Step(ev, x, View(r, words, x))
    ensures forall x: nat :: x < lastAssign.Length ==> lastAssign[x] == if x in ev.assigns then Some(mid) else old(lastAssign[x])
  {
    s := ApplyMoves(pe.moves, r, words);
    s := ApplyWrites(pe.writes, s, words);
    s := ApplyAssigns(pe.assigns, s, words, mid, lastAssign);
  }

  // ---- one block ----

  /** The graph, the body and the event map describe the same function. */
  ghost predicate Prepared(g: Graph, body: Body, events: EventMap) {
    && g.Valid() && |g.events| == |g.succs| == |body.blocks| && g.locals == body.localCount
    && (forall b :: 0 <= b < |body.blocks| ==> |g.events[b]| == |body.blocks[b].statements| + 1
                                               && g.succs[b] == body.blocks[b].successors)
    && (forall b: nat, i: nat :: IsLocation(body, b, i) ==> Lists(At(events, Mid(body, b, i)), g.events[b][i]))
  }

  lemma RunOne(evs: seq<Events>, i: nat, x: nat, s: LocalState)
    requires i < |evs|
    ensures Run(evs[..i + 1], x, s) == Step(evs[i], x, Run(evs[..i], x, s))
  {
    assert evs[..i + 1][..i] == evs[..i];
  }

  /** `p` is a point that assigns `x`. */
  ghost predicate AssignsAt(g: Graph, body: Body, x: nat, p: nat) {
    exists b: nat, i: nat :: IsLocation(body, b, i) && p == Mid(body, b, i)
                             && b < |g.events| && i < |g.events[b]| && x in g.events[b][i].assigns
  }

  ghost predicate AssignsKnown(g: Graph, body: Body, lastAssign: seq<Option<nat>>) {
    |lastAssign| == g.locals && forall x: nat :: x < |lastAssign| && lastAssign[x].Some? ==> AssignsAt(g, body, x, lastAssign[x].value)
  }

  /** Whatever `r` calls owned is an argument or has a noted assignment. */
  ghost predicate OwnersKnown(g: Graph, r: Rows, words: nat, lastAssign: seq<Option<nat>>)
    requires r.Wide(words)
  {
    forall x: nat :: x < g.locals <= WORD_BITS * words && x < |lastAssign| && View(r, words, x).owned
                     ==> 1 <= x <= g.args || lastAssign[x].Some?
  }

  ghost predicate Later(before: seq<Option<nat>>, after: seq<Option<nat>>) {
    |before| == |after| && forall x :: 0 <= x < |before| && before[x].Some? ==> after[x].Some?
  }

  /** Runs one point: first its checks if asked for, then its effects. */
  method VisitPoint(ghost g: Graph, ghost body: Body, events: EventMap, ghost b: nat, ghost i: nat, mid: nat,
                    r: Rows, ghost words: nat, lastAssign: array<Option<nat>>) returns (s: Rows)
    requires Prepared(g, body, events) && IsLocation(body, b, i) && mid == Mid(body, b, i)
    requires words == WordsFor(g.locals) && r.Wide(words)
    requires AssignsKnown(g, body, lastAssign[..]) && OwnersKnown(g, r, words, lastAssign[..])
    modifies lastAssign
    ensures s.Wide(words)
    ensures forall x: nat :: x < WORD_BITS * words ==> View(s, words, x) == Step(g.events[b][i], x, View(r, words, x))
    ensures AssignsKnown(g, body, lastAssign[..]) && OwnersKnown(g, s, words, lastAssign[..])
    ensures Later(old(lastAssign[..]), lastAssign[..])
  {
    ghost var ev := g.events[b][i];
    assert g.InRange(ev);
    assert Lists(At(events, mid), ev);
    assert |lastAssign[..]| == lastAssign.Length;
    s := r;
    if mid in events {
      s := ApplyEvents(events[mid], ev, r, words, mid, lastAssign);
    } else {
      assert forall x: nat :: x !in ev.moves && x !in ev.writes && x !in ev.assigns by {
        assert At(events, mid) == PointEvents([], [], [], [], []);
      }
    }
    forall x: nat | x < lastAssign.Length && lastAssign[x].Some?
      ensures AssignsAt(g, body, x, lastAssign[x].value)
    {
      if x !in ev.assigns { assert lastAssign[x] == old(lastAssign[..])[x]; }
    }
    forall x: nat | x < g.locals && View(s, words, x).owned
      ensures 1 <= x <= g.args || lastAssign[x].Some?
    {
      if x !in ev.assigns {
        assert lastAssign[x] == old(lastAssign[..])[x];
        assert View(r, words, x).owned;
      }
    }
  }

  /** The statement loop of one worklist visit. */
  method VisitBlock(ghost g: Graph, body: Body, events: EventMap, table: LocationTable, b: nat, r: Rows, ghost words: nat,
                    before: Errors, lastAssign: array<Option<nat>>) returns (out: Rows, errors: Errors)
    requires Prepared(g, body, events) && table.Describes(body) && b < |body.blocks|
    requires words == WordsFor(g.locals) && r.Wide(words)
    requires Sound(g, r, words, b) && (b == 0 || Nonempty(g, r, words))
    requires ErrorsExplained(g, body, before)
    requires AssignsKnown(g, body, lastAssign[..]) && OwnersKnown(g, r, words, lastAssign[..])
    modifies lastAssign
    ensures IsOut(g, b, r, out, words)
    ensures ErrorsExplained(g, body, errors) && Reported(g, body, b, r, words, errors)
    ensures ErrorsKept(before, errors)
    ensures AssignsKnown(g, body, lastAssign[..]) && OwnersKnown(g, out, words, lastAssign[..])
    ensures Later(old(lastAssign[..]), lastAssign[..])
  {
    var n := |body.blocks[b].statements|;
    out, errors := r, before;
    ghost var evs := g.events[b];
    for i := 0 to n + 1
      invariant Visiting(g, b, i, r, out, words)
      invariant ErrorsExplained(g, body, errors) && ErrorsKept(before, errors)
      invariant ReportedUpTo(g, body, b, i, r, words, errors)
      invariant AssignsKnown(g, body, lastAssign[..]) && OwnersKnown(g, out, words, lastAssign[..])
      invariant Later(old(lastAssign[..]), lastAssign[..])
    {
      var mid := table.MidIndex(body, b, i);
      ghost var was := errors;
      errors := CheckPoint(g, body, events, b, i, mid, r, out, words, errors);
      ghost var at := out;
      out := VisitPoint(g, body, events, b, i, mid, out, words, lastAssign);
      OneFurther(g, b, i, r, at, out, words);
    }
    assert evs[..n + 1] == evs;
  }

  /** The rows while visiting `b`, before its point `i`. */
  ghost predicate Visiting(g: Graph, b: nat, i: nat, r: Rows, out: Rows, words: nat)
    requires b < |g.events| && i <= |g.events[b]| && r.Wide(words)
  {
    && out.Wide(words)
    && forall x: nat :: x < WORD_BITS * words ==> View(out, words, x) == Run(g.events[b][..i], x, View(r, words, x))
  }

  lemma OneFurther(g: Graph, b: nat, i: nat, r: Rows, at: Rows, out: Rows, words: nat)
    requires b < |g.events| && i < |g.events[b]| && r.Wide(words) && Visiting(g, b, i, r, at, words) && out.Wide(words)
    requires forall x: nat :: x < WORD_BITS * words ==> View(out, words, x) == Step(g.events[b][i], x, View(at, words, x))
    ensures Visiting(g, b, i + 1, r, out, words)
  {
    forall x: nat | x < WORD_BITS * words
      ensures View(out, words, x) == Run(g.events[b][..i + 1], x, View(r, words, x))
    {
      RunOne(g.events[b], i, x, View(r, words, x));
    }
  }

  ghost predicate ErrorsKept(before: Errors, after: Errors) {
    forall p: nat, x: nat, kind :: HasError(before, p, x, kind) ==> HasError(after, p, x, kind)
  }

  ghost predicate ReportedUpTo(g: Graph, body: Body, b: nat, i: nat, r: Rows, words: nat, errors: Errors)
    requires b < |g.events| && i <= |g.events[b]| && r.Wide(words)
  {
    forall j: nat, x: nat, kind ::
      j < i && IsLocation(body, b, j) && x < WORD_BITS * words
      && ErrorAt(g.events[b][j], x, Run(g.events[b][..j], x, View(r, words, x)), kind)
      ==> HasError(errors, Mid(body, b, j), x, kind)
  }

  /** The checks of one point of a visit. */
  method CheckPoint(ghost g: Graph, ghost body: Body, events: EventMap, ghost b: nat, ghost i: nat, mid: nat,
                    ghost r: Rows, at: Rows, ghost words: nat, before: Errors) returns (errors: Errors)
    requires Prepared(g, body, events) && IsLocation(body, b, i) && mid == Mid(body, b, i)
    requires words == WordsFor(g.locals) && r.Wide(words)
    requires Sound(g, r, words, b) && (b == 0 || Nonempty(g, r, words))
    requires Visiting(g, b, i, r, at, words)
    requires ErrorsExplained(g, body, before) && ReportedUpTo(g, body, b, i, r, words, before)
    ensures ErrorsExplained(g, body, errors) && ErrorsKept(before, errors)
    ensures ReportedUpTo(g, body, b, i + 1, r, words, errors)
  {
    ghost var ev := g.events[b][i];
    assert g.InRange(ev) && Lists(At(events, mid), ev);
    errors := before;
    if mid in events {
      errors := RecordErrors(events[mid], ev, at, words, mid, before);
    } else {
      assert At(events, mid) == PointEvents([], [], [], [], []);
    }
    KeepExplained(g, body, b, i, r, at, words, before, errors);
  }

  /** The reports of one point, made in a live block, have reasons. */
  lemma KeepExplained(g: Graph, body: Body, b: nat, i: nat, r: Rows, cur: Rows, words: nat, was: Errors, errors: Errors)
    requires g.Valid() && IsLocation(body, b, i) && b < |g.events| && i < |g.events[b]|
    requires r.Wide(words) && cur.Wide(words) && Sound(g, r, words, b) && (b == 0 || Nonempty(g, r, words))
    requires forall x: nat :: x < WORD_BITS * words ==> View(cur, words, x) == Run(g.events[b][..i], x, View(r, words, x))
    requires ErrorsExplained(g, body, was)
    requires forall p: nat, x: nat, kind :: HasError(errors, p, x, kind) ==>
                                              HasError(was, p, x, kind)
                                              || (p == Mid(body, b, i) && x < WORD_BITS * words && ErrorAt(g.events[b][i], x, View(cur, words, x), kind))
    ensures ErrorsExplained(g, body, errors)
  {
    forall p: nat, x: nat, kind | HasError(errors, p, x, kind)
      ensures ExplainedPoint(g, body, p, x, kind)
    {
      if !HasError(was, p, x, kind) {
        VisitExplained(g, r, words, b, i, x, kind);
      }
    }
  }

  // ---- the worklist ----

  ghost predicate AllSound(g: Graph, entry: seq<Rows>, words: nat) {
    Shape(g, entry, words) && forall b :: 0 <= b < |entry| ==> Sound(g, entry[b], words, b)
  }

  ghost predicate AllOwnersKnown(g: Graph, entry: seq<Rows>, words: nat, lastAssign: seq<Option<nat>>)
    requires Shape(g, entry, words)
  {
    forall b :: 0 <= b < |entry| ==> OwnersKnown(g, entry[b], words, lastAssign)
  }

  /** Bits still unset in all entry states together. */
  ghost function Unset(g: Graph, entry: seq<Rows>, words: nat): nat
    requires Shape(g, entry, words)
  {
    TotalRoom(g.locals, seq(|entry|, b requires 0 <= b < |entry| => AsSets(entry[b], words, g.locals)))
  }

  ghost predicate RowsGrow(t: Rows, r: Rows, words: nat)
    requires t.Wide(words) && r.Wide(words)
  {
    forall x: nat, bit :: x < WORD_BITS * words && View(t, words, x).Has(bit) ==> View(r, words, x).Has(bit)
  }

  lemma UnsetShrinks(g: Graph, entry: seq<Rows>, words: nat, b: nat, r: Rows, x: nat, bit: Bit)
    requires Shape(g, entry, words) && b < |entry| && r.Wide(words) && RowsGrow(entry[b], r, words)
    requires x < g.locals && View(r, words, x).Has(bit) && !View(entry[b], words, x).Has(bit)
    ensures Shape(g, entry[b := r], words) && Unset(g, entry[b := r], words) < Unset(g, entry, words)
  {
    var after := entry[b := r];
    var se := seq(|entry|, k requires 0 <= k < |entry| => AsSets(entry[k], words, g.locals));
    var sa := seq(|after|, k requires 0 <= k < |after| => AsSets(after[k], words, g.locals));
    SetsGrow(entry[b], r, words, g.locals, x, bit);
    assert sa == se[b := AsSets(r, words, g.locals)];
    TotalRoomLess(g.locals, se, b, AsSets(r, words, g.locals));
  }

  /** `r` has exactly the bits of `t` and `s`. */
  ghost predicate IsJoin(t: Rows, s: Rows, r: Rows, words: nat)
    requires t.Wide(words) && s.Wide(words)
  {
    && r.Wide(words)
    && forall x: nat, bit :: x < WORD_BITS * words
                             ==> View(r, words, x).Has(bit) == (View(t, words, x).Has(bit) || View(s, words, x).Has(bit))
  }

  lemma JoinSound(g: Graph, t: Rows, s: Rows, r: Rows, words: nat, b: nat, lastAssign: seq<Option<nat>>)
    requires t.Wide(words) && s.Wide(words) && IsJoin(t, s, r, words)
    requires Sound(g, t, words, b) && Sound(g, s, words, b)
    requires OwnersKnown(g, t, words, lastAssign) && OwnersKnown(g, s, words, lastAssign)
    ensures Sound(g, r, words, b) && OwnersKnown(g, r, words, lastAssign)
    ensures RowsGrow(t, r, words) && RowsGrow(s, r, words)
  {
    forall x: nat, bit | x < WORD_BITS * words && View(r, words, x).Has(bit)
      ensures x < g.locals && MayAwake(g, b, x, bit)
    {
      assert View(t, words, x).Has(bit) || View(s, words, x).Has(bit);
    }
    forall x: nat | x < g.locals <= WORD_BITS * words && x < |lastAssign| && View(r, words, x).owned
      ensures 1 <= x <= g.args || lastAssign[x].Some?
    {
      assert View(r, words, x).Has(OwnedBit);
      assert View(t, words, x).Has(OwnedBit) || View(s, words, x).Has(OwnedBit);
    }
  }

  lemma EntryReplaced(g: Graph, was: seq<Rows>, words: nat, b: nat, r: Rows, lastAssign: seq<Option<nat>>)
    requires AllSound(g, was, words) && AllOwnersKnown(g, was, words, lastAssign) && b < |was| && r.Wide(words)
    requires Sound(g, r, words, b) && OwnersKnown(g, r, words, lastAssign)
    ensures AllSound(g, was[b := r], words) && AllOwnersKnown(g, was[b := r], words, lastAssign)
  {
  }

  /** Joins `out` into one entry state. */
  method JoinInto(ghost g: Graph, succ: nat, out: Rows, entry: array<Rows>, ghost words: nat, ghost lastAssign: seq<Option<nat>>)
    returns (changed: bool)
    requires AllSound(g, entry[..], words) && succ < entry.Length && out.Wide(words) && Sound(g, out, words, succ)
    requires AllOwnersKnown(g, entry[..], words, lastAssign) && OwnersKnown(g, out, words, lastAssign)
    modifies entry
    ensures AllSound(g, entry[..], words) && AllOwnersKnown(g, entry[..], words, lastAssign)
    ensures entry[..] == old(entry[..])[succ := entry[succ]]
    ensures RowsGrow(old(entry[succ]), entry[succ], words) && RowsGrow(out, entry[succ], words)
    ensures !changed ==> entry[..] == old(entry[..])
    ensures changed ==> Nonempty(g, entry[succ], words) && Unset(g, entry[..], words) < old(Unset(g, entry[..], words))
  {
    ghost var was := entry[..];
    var joined;
    joined, changed := Join(entry[succ], out, words);
    assert IsJoin(was[succ], out, joined, words);
    JoinSound(g, was[succ], out, joined, words, succ, lastAssign);
    EntryReplaced(g, was, words, succ, joined, lastAssign);
    if changed {
      ghost var x: nat, bit :| x < WORD_BITS * words && View(out, words, x).Has(bit) && !View(was[succ], words, x).Has(bit);
      UnsetShrinks(g, was, words, succ, joined, x, bit);
      assert Nonempty(g, joined, words);
    }
    entry[succ] := joined;
    assert entry[..] == was[succ := joined];
  }

  /** Only live blocks are queued, and a live block not queued has delivered its state. */
  ghost predicate Queued(g: Graph, entry: seq<Rows>, words: nat, worklist: seq<nat>)
    requires Shape(g, entry, words)
  {
    && (forall k :: k in worklist ==> k < |entry| && Live(g, entry, words, k))
    && (forall k :: 0 <= k < |entry| && Live(g, entry, words, k) ==> k in worklist || SettledAt(g, entry, words, k))
  }

  /** Joining keeps what was delivered before. */
  lemma StillDelivered(g: Graph, b: nat, r: Rows, t: Rows, u: Rows, words: nat)
    requires b < |g.events| && r.Wide(words) && t.Wide(words) && u.Wide(words)
    requires Delivered(g, b, r, t, words) && RowsGrow(t, u, words)
    ensures Delivered(g, b, r, u, words)
  {
  }

  ghost predicate EntriesGrow(g: Graph, before: seq<Rows>, after: seq<Rows>, words: nat)
    requires Shape(g, before, words) && Shape(g, after, words)
  {
    forall k :: 0 <= k < |before| ==> RowsGrow(before[k], after[k], words)
  }

  lemma QueuedAfter(g: Graph, block: nat, before: seq<Rows>, after: seq<Rows>, words: nat, queue: seq<nat>, worklist: seq<nat>)
    requires Shape(g, before, words) && Shape(g, after, words) && block < |before|
    requires EntriesGrow(g, before, after, words) && Queued(g, before, words, queue + [block])
    requires forall s :: s in g.succs[block] ==> Delivered(g, block, before[block], after[s], words)
    requires forall k :: k in worklist ==> k in queue || (k < |after| && Nonempty(g, after[k], words))
    requires forall k :: k in queue ==> k in worklist
    requires forall k :: 0 <= k < |after| ==> k in worklist || after[k] == before[k]
    ensures Queued(g, after, words, worklist)
  {
    forall k | k in worklist
      ensures k < |after| && Live(g, after, words, k)
    {
      if k in queue {
        assert k in queue + [block];
        if k != 0 {
          var x: nat, bit :| x < WORD_BITS * words && View(before[k], words, x).Has(bit);
          assert RowsGrow(before[k], after[k], words);
          assert View(after[k], words, x).Has(bit);
        }
      }
    }
    forall k | 0 <= k < |after| && Live(g, after, words, k) && k !in worklist
      ensures SettledAt(g, after, words, k)
    {
      assert after[k] == before[k] && Live(g, before, words, k);
      forall s | s in g.succs[k]
        ensures s < |after| && Delivered(g, k, after[k], after[s], words)
      {
        if k != block {
          assert k !in queue + [block];
          assert SettledAt(g, before, words, k);
          assert RowsGrow(before[s], after[s], words);
          StillDelivered(g, k, before[k], before[s], after[s], words);
        }
      }
    }
  }

  lemma DeliveredByOut(g: Graph, b: nat, r: Rows, out: Rows, t: Rows, words: nat)
    requires b < |g.events| && r.Wide(words) && t.Wide(words) && IsOut(g, b, r, out, words) && RowsGrow(out, t, words)
    ensures Delivered(g, b, r, t, words)
  {
    forall x: nat, bit | x < g.locals <= WORD_BITS * words && Run(g.events[b], x, View(r, words, x)).Has(bit)
      ensures View(t, words, x).Has(bit)
    {
      assert View(out, words, x).Has(bit);
    }
  }

  lemma GrowTogether(g: Graph, before: seq<Rows>, now: seq<Rows>, after: seq<Rows>, words: nat, succ: nat)
    requires Shape(g, before, words) && Shape(g, now, words) && Shape(g, after, words) && succ < |now|
    requires EntriesGrow(g, before, now, words) && after == now[succ := after[succ]] && RowsGrow(now[succ], after[succ], words)
    ensures EntriesGrow(g, before, after, words) && EntriesGrow(g, now, after, words)
  {
    forall k | 0 <= k < |before|
      ensures RowsGrow(now[k], after[k], words) && RowsGrow(before[k], after[k], words)
    {
      assert RowsGrow(before[k], now[k], words);
    }
  }

  lemma StillNonempty(g: Graph, t: Rows, r: Rows, words: nat)
    requires t.Wide(words) && r.Wide(words) && RowsGrow(t, r, words) && Nonempty(g, t, words)
    ensures Nonempty(g, r, words)
  {
    var x: nat, bit :| x < WORD_BITS * words && View(t, words, x).Has(bit);
    assert View(r, words, x).Has(bit);
  }

  /** The first `done` successors of `block` have what it makes of `r`. */
  ghost predicate DeliveredTo(g: Graph, block: nat, r: Rows, now: seq<Rows>, words: nat, done: nat)
    requires Shape(g, now, words) && block < |g.events| && r.Wide(words)
  {
    && done <= |g.succs[block]|
    && forall j :: 0 <= j < done ==> g.succs[block][j] < |now| && Delivered(g, block, r, now[g.succs[block][j]], words)
  }

  /** Halfway through `block`'s successors: the first `done` have been served. */
  ghost predicate Serving(g: Graph, block: nat, before: seq<Rows>, now: seq<Rows>, words: nat,
                          queue: seq<nat>, worklist: seq<nat>, done: nat)
    requires Shape(g, before, words) && Shape(g, now, words) && block < |before|
  {
    && EntriesGrow(g, before, now, words)
    && Queuing(g, before, now, words, queue, worklist)
    && DeliveredTo(g, block, before[block], now, words, done)
    && ((now == before && worklist == queue) || Unset(g, now, words) < Unset(g, before, words))
  }

  lemma ServeOne(g: Graph, block: nat, before: seq<Rows>, now: seq<Rows>, after: seq<Rows>, words: nat,
                 queue: seq<nat>, worklist: seq<nat>, done: nat, out: Rows, succ: nat, changed: bool)
    requires Shape(g, before, words) && Shape(g, now, words) && Shape(g, after, words) && block < |before| && succ < |now|
    requires Serving(g, block, before, now, words, queue, worklist, done) && done < |g.succs[block]| && succ == g.succs[block][done]
    requires IsOut(g, block, before[block], out, words)
    requires after == now[succ := after[succ]]
    requires RowsGrow(now[succ], after[succ], words) && RowsGrow(out, after[succ], words)
    requires !changed ==> after == now
    requires changed ==> Nonempty(g, after[succ], words) && Unset(g, after, words) < Unset(g, now, words)
    ensures Serving(g, block, before, after, words, queue, if changed then worklist + [succ] else worklist, done + 1)
  {
    GrowTogether(g, before, now, after, words, succ);
    assert DeliveredTo(g, block, before[block], after, words, done + 1) by {
      DeliveredByOut(g, block, before[block], out, after[succ], words);
      DoneStays(g, block, before[block], now, after, words, done);
    }
    QueueOne(g, before, now, after, words, queue, worklist, succ, changed);
  }

  /** The worklist holds what it held and whatever is no longer as it was. */
  ghost predicate Queuing(g: Graph, before: seq<Rows>, now: seq<Rows>, words: nat, queue: seq<nat>, worklist: seq<nat>)
    requires Shape(g, before, words) && Shape(g, now, words)
  {
    && (forall k :: k in worklist ==> k in queue || (k < |now| && Nonempty(g, now[k], words)))
    && (forall k :: 0 <= k < |now| ==> k in worklist || now[k] == before[k])
    && (forall k :: k in queue ==> k in worklist)
  }

  lemma QueueOne(g: Graph, before: seq<Rows>, now: seq<Rows>, after: seq<Rows>, words: nat,
                 queue: seq<nat>, worklist: seq<nat>, succ: nat, changed: bool)
    requires Shape(g, before, words) && Shape(g, now, words) && Shape(g, after, words) && succ < |now|
    requires EntriesGrow(g, now, after, words) && Queuing(g, before, now, words, queue, worklist)
    requires after == now[succ := after[succ]]
    requires !changed ==> after == now
    requires changed ==> Nonempty(g, after[succ], words)
    ensures Queuing(g, before, after, words, queue, if changed then worklist + [succ] else worklist)
  {
    NonemptyStays(g, now, after, words);
  }

  lemma DoneStays(g: Graph, block: nat, r: Rows, now: seq<Rows>, after: seq<Rows>, words: nat, done: nat)
    requires Shape(g, now, words) && Shape(g, after, words) && EntriesGrow(g, now, after, words)
    requires block < |g.events| && r.Wide(words)
    requires DeliveredTo(g, block, r, now, words, done)
    ensures DeliveredTo(g, block, r, after, words, done)
  {
    forall j | 0 <= j < done
      ensures Delivered(g, block, r, after[g.succs[block][j]], words)
    {
      var s := g.succs[block][j];
      assert RowsGrow(now[s], after[s], words);
      StillDelivered(g, block, r, now[s], after[s], words);
    }
  }

  lemma NonemptyStays(g: Graph, now: seq<Rows>, after: seq<Rows>, words: nat)
    requires Shape(g, now, words) && Shape(g, after, words) && EntriesGrow(g, now, after, words)
    ensures forall k :: 0 <= k < |now| && Nonempty(g, now[k], words) ==> Nonempty(g, after[k], words)
  {
    forall k | 0 <= k < |now| && Nonempty(g, now[k], words)
      ensures Nonempty(g, after[k], words)
    {
      assert RowsGrow(now[k], after[k], words);
      StillNonempty(g, now[k], after[k], words);
    }
  }

  /** The whole state of the successor loop of `block`. */
  ghost predicate Serves(g: Graph, block: nat, out: Rows, before: seq<Rows>, now: seq<Rows>, words: nat,
                         lastAssign: seq<Option<nat>>, queue: seq<nat>, worklist: seq<nat>, done: nat)
  {
    && Shape(g, before, words) && block < |before| && Queued(g, before, words, queue + [block])
    && Sound(g, before[block], words, block) && (block == 0 || Nonempty(g, before[block], words))
    && IsOut(g, block, before[block], out, words) && OwnersKnown(g, out, words, lastAssign)
    && AllSound(g, now, words) && AllOwnersKnown(g, now, words, lastAssign)
    && Serving(g, block, before, now, words, queue, worklist, done)
  }

  lemma StartServing(g: Graph, block: nat, out: Rows, entry: seq<Rows>, words: nat, lastAssign: seq<Option<nat>>, queue: seq<nat>)
    requires AllSound(g, entry, words) && AllOwnersKnown(g, entry, words, lastAssign) && block < |entry|
    requires Queued(g, entry, words, queue + [block])
    requires IsOut(g, block, entry[block], out, words) && OwnersKnown(g, out, words, lastAssign)
    ensures Serves(g, block, out, entry, entry, words, lastAssign, queue, queue, 0)
  {
    assert block in queue + [block];
    assert Live(g, entry, words, block);
  }

  lemma AllServed(g: Graph, block: nat, out: Rows, before: seq<Rows>, now: seq<Rows>, words: nat,
                  lastAssign: seq<Option<nat>>, queue: seq<nat>, worklist: seq<nat>)
    requires |g.succs| == |before| && block < |g.succs|
    requires Serves(g, block, out, before, now, words, lastAssign, queue, worklist, |g.succs[block]|)
    ensures Queued(g, now, words, worklist)
  {
    QueuedAfter(g, block, before, now, words, queue, worklist);
  }

  /** Joins `out` into one successor and queues it if it changed. */
  method ServeSuccessor(ghost g: Graph, block: nat, succ: nat, out: Rows, entry: array<Rows>, ghost words: nat,
                        ghost lastAssign: seq<Option<nat>>, queue: seq<nat>, ghost before: seq<Rows>,
                        pending: seq<nat>, ghost done: nat) returns (worklist: seq<nat>)
    requires Serves(g, block, out, before, entry[..], words, lastAssign, queue, pending, done)
    requires block < |g.succs| && done < |g.succs[block]| && succ == g.succs[block][done] && succ < entry.Length
    modifies entry
    ensures Serves(g, block, out, before, entry[..], words, lastAssign, queue, worklist, done + 1)
  {
    OutSound(g, before[block], out, words, block, succ);
    ghost var now := entry[..];
    var changed := JoinInto(g, succ, out, entry, words, lastAssign);
    ServeOne(g, block, before, now, entry[..], words, queue, pending, done, out, succ, changed);
    worklist := if changed then pending + [succ] else pending;
  }

  /** Joins `out` into each successor in turn and queues those that changed. */
  method Propagate(ghost g: Graph, body: Body, block: nat, out: Rows, entry: array<Rows>, ghost words: nat,
                   ghost lastAssign: seq<Option<nat>>, queue: seq<nat>) returns (worklist: seq<nat>)
    requires block < |g.succs| == entry.Length == |body.blocks| && g.succs[block] == body.blocks[block].successors
    requires g.Valid() && |g.events| == entry.Length
    requires Serves(g, block, out, entry[..], entry[..], words, lastAssign, queue, queue, 0)
    modifies entry
    ensures Serves(g, block, out, old(entry[..]), entry[..], words, lastAssign, queue, worklist, |g.succs[block]|)
  {
    worklist := queue;
    var succs := body.blocks[block].successors;
    ghost var before := entry[..];
    for j := 0 to |succs|
      invariant Serves(g, block, out, before, entry[..], words, lastAssign, queue, worklist, j)
    {
      assert succs[j] in g.succs[block];
      worklist := ServeSuccessor(g, block, succs[j], out, entry, words, lastAssign, queue, before, worklist, j);
    }
  }

  /** The entry block's in-state: arguments own their values, all other locals are uninitialized. */
  method InitialRows(ghost g: Graph, body: Body, words: nat) returns (r: Rows)
    requires g.Valid() && g.locals == body.localCount && g.args == body.argCount && words == WordsFor(g.locals)
    ensures r.Wide(words)
    ensures forall x: nat :: x < WORD_BITS * words ==> View(r, words, x) == Initial(g, x)
  {
    r := ZeroRows(words);
    for local := 0 to body.localCount
      invariant r.Wide(words)
      invariant forall x: nat :: x < WORD_BITS * words ==> View(r, words, x) == if x < local then Initial(g, x) else NOTHING
    {
      ghost var was := r;
      if 1 <= local <= body.argCount {
        r := Rows(r.uninit, r.moved, SetBit(r.owned, local));
      } else {
        r := Rows(SetBit(r.uninit, local), r.moved, r.owned);
      }
      forall x: nat | x < WORD_BITS * words
        ensures View(r, words, x) == if x < local + 1 then Initial(g, x) else NOTHING
      {
        assert View(was, words, x) == if x < local then Initial(g, x) else NOTHING;
      }
    }
  }

  function ZeroRows(words: nat): (r: Rows)
    ensures r.Wide(words)
    ensures forall x: nat :: x < WORD_BITS * words ==> View(r, words, x) == NOTHING
  {
    var row := seq(words, _ => 0);
    var r := Rows(row, row, row);
    assert forall x: nat :: x < WORD_BITS * words ==> View(r, words, x) == NOTHING by {
      forall x: nat | x < WORD_BITS * words
        ensures View(r, words, x) == NOTHING
      {
        ZeroRow(row, x);
      }
    }
    r
  }

  /** Only the entry block has a state yet. */
  lemma StartsSound(g: Graph, entry: seq<Rows>, words: nat, lastAssign: seq<Option<nat>>)
    requires Shape(g, entry, words)
    requires forall x: nat :: x < WORD_BITS * words ==> View(entry[0], words, x) == Initial(g, x)
    requires forall k :: 0 < k < |entry| ==> entry[k] == ZeroRows(words)
    ensures AllSound(g, entry, words) && AllOwnersKnown(g, entry, words, lastAssign)
    ensures forall k :: 0 < k < |entry| ==> !Nonempty(g, entry[k], words)
    ensures Queued(g, entry, words, [0])
  {
    forall x: nat, bit | x < WORD_BITS * words && View(entry[0], words, x).Has(bit)
      ensures x < g.locals && MayAwake(g, 0, x, bit)
    {
      assert IsPath(g, [0]) && Awake(g, [0]) && AtEntry(g, [0], x).Has(bit);
    }
    forall k | 0 < k < |entry|
      ensures !Nonempty(g, entry[k], words)
    {
    }
  }

  ghost predicate AllReported(g: Graph, body: Body, entry: seq<Rows>, words: nat, errors: Errors, worklist: seq<nat>)
    requires Shape(g, entry, words)
  {
    forall k :: 0 <= k < |entry| && Live(g, entry, words, k) ==> k in worklist || Reported(g, body, k, entry[k], words, errors)
  }

  lemma StillReported(g: Graph, body: Body, before: seq<Rows>, after: seq<Rows>, words: nat, block: nat,
                      was: Errors, errors: Errors, queue: seq<nat>, worklist: seq<nat>)
    requires Shape(g, before, words) && Shape(g, after, words) && block < |before|
    requires Serving(g, block, before, after, words, queue, worklist, |g.succs[block]|)
    requires AllReported(g, body, before, words, was, queue + [block])
    requires Reported(g, body, block, before[block], words, errors)
    requires ErrorsKept(was, errors)
    ensures AllReported(g, body, after, words, errors, worklist)
  {
    forall k | 0 <= k < |after| && Live(g, after, words, k) && k !in worklist
      ensures Reported(g, body, k, after[k], words, errors)
    {
      assert after[k] == before[k] && Live(g, before, words, k);
      if k != block { assert k !in queue + [block]; }
    }
  }

  lemma StartCovered(g: Graph, before: seq<Rows>, after: seq<Rows>, words: nat)
    requires Shape(g, before, words) && Shape(g, after, words) && EntriesGrow(g, before, after, words)
    requires CoversStart(g, before, words)
    ensures CoversStart(g, after, words)
  {
    assert RowsGrow(before[0], after[0], words);
  }

  ghost predicate CoversStart(g: Graph, entry: seq<Rows>, words: nat)
    requires Shape(g, entry, words)
  {
    forall y: nat, bt :: y < g.locals && Initial(g, y).Has(bt) ==> View(entry[0], words, y).Has(bt)
  }

  /** What holds whenever the worklist is looked at. */
  ghost predicate Invariant(g: Graph, body: Body, entry: seq<Rows>, words: nat, worklist: seq<nat>,
                            errors: Errors, lastAssign: seq<Option<nat>>)
  {
    && AllSound(g, entry, words) && Queued(g, entry, words, worklist)
    && CoversStart(g, entry, words)
    && AllReported(g, body, entry, words, errors, worklist) && ErrorsExplained(g, body, errors)
    && AssignsKnown(g, body, lastAssign) && AllOwnersKnown(g, entry, words, lastAssign)
  }

  /** One turn of the worklist: visit the popped block and serve its successors. */
  method Turn(ghost g: Graph, body: Body, events: EventMap, table: LocationTable, ghost words: nat, block: nat,
              queue: seq<nat>, entry: array<Rows>, before: Errors, lastAssign: array<Option<nat>>)
    returns (worklist: seq<nat>, errors: Errors)
    requires Prepared(g, body, events) && table.Describes(body)
    requires words == WordsFor(g.locals)
    requires Invariant(g, body, entry[..], words, queue + [block], before, lastAssign[..])
    modifies entry, lastAssign
    ensures Invariant(g, body, entry[..], words, worklist, errors, lastAssign[..])
    ensures (entry[..] == old(entry[..]) && worklist == queue)
            || Unset(g, entry[..], words) < old(Unset(g, entry[..], words))
  {
    ghost var was, noted := entry[..], lastAssign[..];
    assert block in queue + [block];
    assert |was| == entry.Length == |body.blocks|;
    assert Live(g, was, words, block);
    assert Sound(g, was[block], words, block) && OwnersKnown(g, was[block], words, noted);
    var out;
    out, errors := VisitBlock(g, body, events, table, block, entry[block], words, before, lastAssign);
    assert entry[..] == was;
    StillKnown(g, was, words, noted, lastAssign[..]);
    ghost var known := lastAssign[..];
    StartServing(g, block, out, was, words, known, queue);
    worklist := Propagate(g, body, block, out, entry, words, known, queue);
    assert lastAssign[..] == known;
    AllServed(g, block, out, was, entry[..], words, known, queue, worklist);
    StillReported(g, body, was, entry[..], words, block, before, errors, queue, worklist);
    StartCovered(g, was, entry[..], words);
  }

  /** The in-states before any visit. */
  method Initialize(ghost g: Graph, body: Body, words: nat, ghost lastAssign: seq<Option<nat>>) returns (entry: array<Rows>)
    requires g.Valid() && |g.events| == |body.blocks| && g.locals == body.localCount && g.args == body.argCount
    requires words == WordsFor(g.locals)
    ensures fresh(entry) && AllSound(g, entry[..], words) && AllOwnersKnown(g, entry[..], words, lastAssign)
    ensures Queued(g, entry[..], words, [0]) && CoversStart(g, entry[..], words)
    ensures AllReported(g, body, entry[..], words, map[], [0])
  {
    entry := new Rows[|body.blocks|](_ => ZeroRows(words));
    var first := InitialRows(g, body, words);
    entry[0] := first;
    assert |entry[..]| == entry.Length;
    StartsSound(g, entry[..], words, lastAssign);
  }

  /** Runs the worklist to its end. */
  method Solve(ghost g: Graph, body: Body, events: EventMap, table: LocationTable, words: nat, lastAssign: array<Option<nat>>)
    returns (entry: array<Rows>, errors: Errors)
    requires Prepared(g, body, events) && table.Describes(body)
    requires g.args == body.argCount && words == WordsFor(g.locals)
    requires AssignsKnown(g, body, lastAssign[..])
    modifies lastAssign
    ensures fresh(entry)
    ensures Invariant(g, body, entry[..], words, [], errors, lastAssign[..])
  {
    entry := Initialize(g, body, words, lastAssign[..]);
    errors := map[];
    var worklist: seq<nat> := [0];
    assert ErrorsExplained(g, body, errors);
    while worklist != []
      invariant fresh(entry)
      invariant Invariant(g, body, entry[..], words, worklist, errors, lastAssign[..])
      decreases Unset(g, entry[..], words), |worklist|
    {
      var block := worklist[|worklist| - 1];
      assert worklist[..|worklist| - 1] + [block] == worklist;
      worklist, errors := Turn(g, body, events, table, words, block, worklist[..|worklist| - 1], entry, errors, lastAssign);
    }
  }

  lemma StillKnown(g: Graph, entry: seq<Rows>, words: nat, before: seq<Option<nat>>, after: seq<Option<nat>>)
    requires Shape(g, entry, words) && AllOwnersKnown(g, entry, words, before) && Later(before, after)
    ensures AllOwnersKnown(g, entry, words, after)
  {
    forall b | 0 <= b < |entry|
      ensures OwnersKnown(g, entry[b], words, after)
    {
      assert OwnersKnown(g, entry[b], words, before);
    }
  }

  // ---- what the converged states mean ----

  /** Live blocks are the visited ones, and their entry bits are those of the awake paths. */
  lemma Converged(g: Graph, body: Body, entry: seq<Rows>, words: nat, errors: Errors, lastAssign: seq<Option<nat>>)
    requires Invariant(g, body, entry, words, [], errors, lastAssign)
    ensures forall b :: 0 <= b < |entry| ==> (Live(g, entry, words, b) <==> Visited(g, b))
    ensures forall b, x: nat, bit :: 0 <= b < |entry| && x < g.locals
                                     ==> (View(entry[b], words, x).Has(bit) <==> MayAwake(g, b, x, bit))
  {
    forall b | 0 <= b < |entry|
      ensures Live(g, entry, words, b) <==> Visited(g, b)
    {
      if Live(g, entry, words, b) {
        var path := LiveVisited(g, entry[b], words, b);
      } else if Visited(g, b) {
        var path :| IsPath(g, path) && Last(path) == b && Awake(g, path);
        LiveOnPath(g, entry, words, path);
      }
    }
    forall b, x: nat, bit | 0 <= b < |entry| && x < g.locals && MayAwake(g, b, x, bit)
      ensures View(entry[b], words, x).Has(bit)
    {
      var path :| IsPath(g, path) && Last(path) == b && Awake(g, path) && AtEntry(g, path, x).Has(bit);
      CoversAwake(g, entry, words, path, x, bit);
    }
  }

  /** Replaying a block from its converged state shows a bit exactly when an awake path arrives with it. */
  lemma ReplayExact(g: Graph, body: Body, entry: seq<Rows>, words: nat, errors: Errors, lastAssign: seq<Option<nat>>,
                    b: nat, i: nat, x: nat, bit: Bit)
    requires Invariant(g, body, entry, words, [], errors, lastAssign)
    requires b < |entry| && i <= |g.events[b]| && x < g.locals && Live(g, entry, words, b)
    ensures Run(g.events[b][..i], x, View(entry[b], words, x)).Has(bit) <==> Arrives(g, b, i, x, bit)
  {
    if Run(g.events[b][..i], x, View(entry[b], words, x)).Has(bit) {
      VisitArrives(g, entry[b], words, b, i, x, bit);
    }
    if Arrives(g, b, i, x, bit) {
      var path :| IsPath(g, path) && Last(path) == b && i <= |g.events[b]| && Awake(g, path) && BeforePoint(g, path, i, x).Has(bit);
      var before := AtEntry(g, path, x);
      if before.Has(bit) {
        CoversAwake(g, entry, words, path, x, bit);
      }
      RunBit(g.events[b][..i], x, before, View(entry[b], words, x), bit);
    }
  }

  /** The reports about `x` at point `i` of block `b` are exactly those some awake path deserves. */
  ghost predicate ReportsExact(g: Graph, body: Body, errors: Errors, b: nat, i: nat, x: nat)
    requires IsLocation(body, b, i) && b < |g.events| && i < |g.events[b]|
  {
    var ev, point := g.events[b][i], Mid(body, b, i);
    && (HasError(errors, point, x, Moved) || HasError(errors, point, x, Uninit)
        <==> (x in ev.accesses && Arrives(g, b, i, x, UninitBit)) || (x in ev.borrows && Arrives(g, b, i, x, MovedBit)))
    && (HasError(errors, point, x, Moved)
        <==> (x in ev.accesses || x in ev.borrows) && Arrives(g, b, i, x, MovedBit))
  }

  lemma MovedArrivesUninit(g: Graph, b: nat, i: nat, x: nat)
    requires Arrives(g, b, i, x, MovedBit)
    ensures Arrives(g, b, i, x, UninitBit)
  {
    var path :| IsPath(g, path) && Last(path) == b && i <= |g.events[b]| && Awake(g, path) && BeforePoint(g, path, i, x).Has(MovedBit);
    PathCoherent(g, path, i, x);
    assert BeforePoint(g, path, i, x).Has(UninitBit);
  }

  lemma ErrorsExact(g: Graph, body: Body, entry: seq<Rows>, words: nat, errors: Errors, lastAssign: seq<Option<nat>>,
                    b: nat, i: nat, x: nat)
    requires Invariant(g, body, entry, words, [], errors, lastAssign)
    requires IsLocation(body, b, i) && |g.events| == |body.blocks| && |g.events[b]| == |body.blocks[b].statements| + 1
    requires forall c :: 0 <= c < |g.events| ==> |g.events[c]| == |body.blocks[c].statements| + 1
    ensures ReportsExact(g, body, errors, b, i, x)
  {
    var ev, point := g.events[b][i], Mid(body, b, i);
    assert g.InRange(ev);
    forall kind | HasError(errors, point, x, kind)
      ensures Explained(g, b, i, x, kind)
    {
      assert ExplainedPoint(g, body, point, x, kind);
      var c: nat, j: nat :| IsLocation(body, c, j) && point == Mid(body, c, j) && c < |g.events| && j < |g.events[c]|
                            && Explained(g, c, j, x, kind);
      PointsDistinct(body, b, i, c, j);
    }
    if Arrives(g, b, i, x, MovedBit) { MovedArrivesUninit(g, b, i, x); }
    Converged(g, body, entry, words, errors, lastAssign);
    if x < g.locals && (Arrives(g, b, i, x, UninitBit) || Arrives(g, b, i, x, MovedBit)) {
      assert Visited(g, b);
      ReplayExact(g, body, entry, words, errors, lastAssign, b, i, x, UninitBit);
      ReplayExact(g, body, entry, words, errors, lastAssign, b, i, x, MovedBit);
      assert Reported(g, body, b, entry[b], words, errors);
      var s := Run(g.events[b][..i], x, View(entry[b], words, x));
      assert ErrorAt(ev, x, s, Moved) ==> HasError(errors, point, x, Moved);
      assert ErrorAt(ev, x, s, Uninit) ==> HasError(errors, point, x, Uninit);
    }
  }

  // ---- leaks ----

  datatype Leak = Leak(local: nat, at: Option<nat>)

  /** `x` may still be owned when block `b` returns. A block no awake path visits is replayed from nothing. */
  ghost predicate OwnedAtReturn(g: Graph, b: nat, x: nat)
    requires b < |g.events|
  {
    if Visited(g, b) then Arrives(g, b, |g.events[b]|, x, OwnedBit)
    else Run(g.events[b], x, NOTHING).owned
  }

  ghost predicate Leaks(g: Graph, body: Body, b: nat, x: nat)
    requires |g.events| == |body.blocks| && |body.needsDrop| == g.locals
  {
    && b < |body.blocks| && body.blocks[b].terminator.Return?
    && x != RETURN_LOCAL && x < g.locals && body.needsDrop[x] && OwnedAtReturn(g, b, x)
  }

  /** The place a leak is blamed on: an assignment to the local, or its declaration if it is an argument. */
  ghost predicate Blamed(g: Graph, body: Body, leak: Leak) {
    match leak.at
    case Some(p) => AssignsAt(g, body, leak.local, p)
    case None => 1 <= leak.local <= g.args
  }

  /** `x` is a drop-needing local, not the return local, and the row calls it owned. */
  predicate LeaksFrom(body: Body, owned: seq<nat>, x: nat)
    requires |body.needsDrop| == body.localCount <= WORD_BITS * |owned|
  {
    x < body.localCount && x != RETURN_LOCAL && body.needsDrop[x] && IsSet(owned, x)
  }

  function LeakList(body: Body, owned: seq<nat>, lastAssign: seq<Option<nat>>, upTo: nat): seq<Leak>
    requires |body.needsDrop| == body.localCount == |lastAssign| && upTo <= body.localCount <= WORD_BITS * |owned|
  {
    if upTo == 0 then []
    else
      LeakList(body, owned, lastAssign, upTo - 1)
      + (if LeaksFrom(body, owned, upTo - 1) then [Leak(upTo - 1, lastAssign[upTo - 1])] else [])
  }

  lemma {:induction false} LeakListExact(body: Body, owned: seq<nat>, lastAssign: seq<Option<nat>>, upTo: nat)
    requires |body.needsDrop| == body.localCount == |lastAssign| && upTo <= body.localCount <= WORD_BITS * |owned|
    ensures forall leak :: leak in LeakList(body, owned, lastAssign, upTo) <==>
                           leak.local < upTo && LeaksFrom(body, owned, leak.local) && leak.at == lastAssign[leak.local]
  {
    if upTo > 0 { LeakListExact(body, owned, lastAssign, upTo - 1); }
  }

  /** `check_leaks`: one report for every drop-needing local but the return local that is still owned. */
  method CheckLeaks(body: Body, owned: seq<nat>, lastAssign: array<Option<nat>>, before: seq<Leak>) returns (leaks: seq<Leak>)
    requires |body.needsDrop| == body.localCount == lastAssign.Length <= WORD_BITS * |owned|
    ensures leaks == before + LeakList(body, owned, lastAssign[..], body.localCount)
  {
    leaks := before;
    for local := 0 to body.localCount
      invariant leaks == before + LeakList(body, owned, lastAssign[..], local)
    {
      if local == RETURN_LOCAL { continue; }
      if !body.needsDrop[local] { continue; }
      if !IsSet(owned, local) { continue; }
      leaks := leaks + [Leak(local, lastAssign[local])];
    }
  }

  /** Replays a return block from its converged state. */
  method ReplayBlock(ghost g: Graph, body: Body, events: EventMap, table: LocationTable, b: nat, r: Rows, ghost words: nat,
                     lastAssign: array<Option<nat>>) returns (out: Rows)
    requires Prepared(g, body, events) && table.Describes(body) && b < |body.blocks|
    requires words == WordsFor(g.locals) && r.Wide(words)
    requires AssignsKnown(g, body, lastAssign[..]) && OwnersKnown(g, r, words, lastAssign[..])
    modifies lastAssign
    ensures IsOut(g, b, r, out, words)
    ensures AssignsKnown(g, body, lastAssign[..]) && OwnersKnown(g, out, words, lastAssign[..])
    ensures Later(old(lastAssign[..]), lastAssign[..])
  {
    var n := |body.blocks[b].statements|;
    out := r;
    for i := 0 to n + 1
      invariant Visiting(g, b, i, r, out, words)
      invariant AssignsKnown(g, body, lastAssign[..]) && OwnersKnown(g, out, words, lastAssign[..])
      invariant Later(old(lastAssign[..]), lastAssign[..])
    {
      var mid := table.MidIndex(body, b, i);
      ghost var at := out;
      out := VisitPoint(g, body, events, b, i, mid, out, words, lastAssign);
      OneFurther(g, b, i, r, at, out, words);
    }
    assert g.events[b][..n + 1] == g.events[b];
  }

  lemma OwnedExact(g: Graph, body: Body, entry: seq<Rows>, words: nat, errors: Errors, lastAssign: seq<Option<nat>>,
                   b: nat, out: Rows, x: nat)
    requires Invariant(g, body, entry, words, [], errors, lastAssign)
    requires b < |entry| && x < g.locals && IsOut(g, b, entry[b], out, words)
    ensures View(out, words, x).owned <==> OwnedAtReturn(g, b, x)
  {
    Converged(g, body, entry, words, errors, lastAssign);
    assert g.events[b][..|g.events[b]|] == g.events[b];
    if Visited(g, b) {
      ReplayExact(g, body, entry, words, errors, lastAssign, b, |g.events[b]|, x, OwnedBit);
    } else {
      var v := View(entry[b], words, x);
      assert !v.Has(UninitBit) && !v.Has(MovedBit) && !v.Has(OwnedBit);
      assert v == NOTHING;
    }
  }

  /** Each leak is deserved and blamed correctly, and every local that leaks from the first `upTo` blocks is listed. */
  ghost predicate LeaksExact(g: Graph, body: Body, leaks: seq<Leak>, upTo: nat)
    requires |g.events| == |body.blocks| && |body.needsDrop| == g.locals
  {
    && (forall leak :: leak in leaks ==> Blamed(g, body, leak) && LeaksBefore(g, body, upTo, leak.local))
    && (forall x: nat :: LeaksBefore(g, body, upTo, x) ==> Listed(leaks, x))
  }

  ghost predicate LeaksBefore(g: Graph, body: Body, upTo: nat, x: nat)
    requires |g.events| == |body.blocks| && |body.needsDrop| == g.locals
  {
    exists b: nat :: b < upTo && Leaks(g, body, b, x)
  }

  ghost predicate Listed(leaks: seq<Leak>, x: nat) {
    exists leak :: leak in leaks && leak.local == x
  }

  lemma LeaksExactStep(g: Graph, body: Body, before: seq<Leak>, leaks: seq<Leak>, b: nat, owned: seq<nat>, lastAssign: seq<Option<nat>>)
    requires |g.events| == |body.blocks| && |body.needsDrop| == g.locals == body.localCount == |lastAssign| <= WORD_BITS * |owned|
    requires LeaksExact(g, body, before, b) && b < |body.blocks| && body.blocks[b].terminator.Return?
    requires leaks == before + LeakList(body, owned, lastAssign, body.localCount)
    requires forall x: nat :: x < g.locals ==> (IsSet(owned, x) <==> OwnedAtReturn(g, b, x))
    requires AssignsKnown(g, body, lastAssign)
    requires forall x: nat :: x < g.locals && IsSet(owned, x) ==> 1 <= x <= g.args || lastAssign[x].Some?
    ensures LeaksExact(g, body, leaks, b + 1)
  {
    LeakListExact(body, owned, lastAssign, body.localCount);
    var here := LeakList(body, owned, lastAssign, body.localCount);
    forall leak | leak in leaks
      ensures Blamed(g, body, leak) && LeaksBefore(g, body, b + 1, leak.local)
    {
      if leak in before {
        var c: nat :| c < b && Leaks(g, body, c, leak.local);
        assert c < b + 1;
      } else {
        assert leak in here;
        assert Leaks(g, body, b, leak.local);
      }
    }
    forall x: nat | LeaksBefore(g, body, b + 1, x)
      ensures Listed(leaks, x)
    {
      var c: nat :| c < b + 1 && Leaks(g, body, c, x);
      if c < b {
        assert LeaksBefore(g, body, b, x);
        var leak :| leak in before && leak.local == x;
        assert leak in leaks;
      } else {
        assert LeaksFrom(body, owned, x);
        assert Leak(x, lastAssign[x]) in here;
        assert Leak(x, lastAssign[x]) in leaks;
      }
    }
  }

  lemma LeaksExactSkip(g: Graph, body: Body, leaks: seq<Leak>, b: nat)
    requires |g.events| == |body.blocks| && |body.needsDrop| == g.locals
    requires LeaksExact(g, body, leaks, b) && b < |body.blocks| && !body.blocks[b].terminator.Return?
    ensures LeaksExact(g, body, leaks, b + 1)
  {
    forall x: nat
      ensures LeaksBefore(g, body, b + 1, x) <==> LeaksBefore(g, body, b, x)
    {
      if c: nat :| c < b + 1 && Leaks(g, body, c, x) { assert c < b; }
      if c: nat :| c < b && Leaks(g, body, c, x) { assert c < b + 1; }
    }
  }

  /** Replays every return block and collects what still owns a value there. */
  method FindLeaks(ghost g: Graph, body: Body, events: EventMap, table: LocationTable, ghost words: nat, ghost errors: Errors,
                   entry: array<Rows>, lastAssign: array<Option<nat>>) returns (leaks: seq<Leak>)
    requires Prepared(g, body, events) && table.Describes(body) && |body.needsDrop| == body.localCount
    requires words == WordsFor(g.locals)
    requires Invariant(g, body, entry[..], words, [], errors, lastAssign[..])
    modifies lastAssign
    ensures LeaksExact(g, body, leaks, |body.blocks|)
  {
    leaks := [];
    ghost var converged := entry[..];
    ghost var known := lastAssign[..];
    assert |converged| == entry.Length == |body.blocks|;
    for b := 0 to |body.blocks|
      invariant entry[..] == converged
      invariant AssignsKnown(g, body, lastAssign[..]) && AllOwnersKnown(g, converged, words, lastAssign[..])
      invariant LeaksExact(g, body, leaks, b)
    {
      if !body.blocks[b].terminator.Return? {
        LeaksExactSkip(g, body, leaks, b);
        continue;
      }
      ghost var noted := lastAssign[..];
      assert entry[b] == converged[b];
      var out := ReplayBlock(g, body, events, table, b, entry[b], words, lastAssign);
      StillKnown(g, converged, words, noted, lastAssign[..]);
      ghost var was := leaks;
      assert |lastAssign[..]| == lastAssign.Length;
      leaks := CheckLeaks(body, out.owned, lastAssign, leaks);
      forall x: nat | x < g.locals
        ensures IsSet(out.owned, x) <==> OwnedAtReturn(g, b, x)
        ensures IsSet(out.owned, x) ==> 1 <= x <= g.args || lastAssign[x].Some?
      {
        OwnedExact(g, body, converged, words, errors, known, b, out, x);
        assert View(out, words, x).owned == IsSet(out.owned, x);
      }
      LeaksExactStep(g, body, was, leaks, b, out.owned, lastAssign[..]);
    }
  }

  // ---- the whole analysis ----

  /** `analyze`: reports and leaks are exactly what the body's awake paths deserve. */
  method Analyze(facts: FactLists, ghost g: Graph, body: Body, table: LocationTable)
    returns (errors: Errors, leaks: seq<Leak>)
    requires body.Valid() && g == GraphOf(body) && table.Describes(body)
    requires forall b: nat, i: nat :: IsLocation(body, b, i) ==> Records(facts, g.events[b][i], Mid(body, b, i))
    ensures forall b: nat, i: nat, x: nat :: IsLocation(body, b, i) ==> ReportsExact(g, body, errors, b, i, x)
    ensures ErrorsExplained(g, body, errors)
    ensures LeaksExact(g, body, leaks, |body.blocks|)
  {
    var events := CollectEvents(facts);
    GraphValid(body);
    forall b: nat, i: nat | IsLocation(body, b, i)
      ensures Lists(At(events, Mid(body, b, i)), g.events[b][i])
    {
      IndexedRecords(events, facts, g.events[b][i], Mid(body, b, i));
    }
    var words := WordsFor(body.localCount);
    var lastAssign := new Option<nat>[body.localCount](_ => None);
    var entry;
    entry, errors := Solve(g, body, events, table, words, lastAssign);
    forall b: nat, i: nat, x: nat | IsLocation(body, b, i)
      ensures ReportsExact(g, body, errors, b, i, x)
    {
      ErrorsExact(g, body, entry[..], words, errors, lastAssign[..], b, i, x);
    }
    leaks := FindLeaks(g, body, events, table, words, errors, entry, lastAssign);
  }
}
