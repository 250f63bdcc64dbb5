/** `analyze`: the worklist over move states, its errors and its leaks. */
module Borrowck {
  import opened Mir
  import opened Flow
  import opened Measure
  import opened Bits
  import opened Rows
  import opened Locations
  import opened Facts
  import opened Emit
  import opened Collect

  datatype UseKind = Uninit | Moved

  type Errors = map<nat, seq<(nat, UseKind)>>

  predicate HasError(errors: Errors, point: nat, x: nat, kind: UseKind) {
    point in errors && (x, kind) in errors[point]
  }

  // ---- what the reports mean ----

  /** Some awake path arrives just before point `i` of block `b` with `x` in this state. */
  ghost predicate Arrives(g: Graph, b: nat, i: nat, x: nat, bit: Bit) {
    exists path :: IsPath(g, path) && Last(path) == b && i <= |g.events[b]| && Awake(g, path)
                   && BeforePoint(g, path, i, x).Has(bit)
  }

  /** Any path at all does. */
  ghost predicate ArrivesAny(g: Graph, b: nat, i: nat, x: nat, bit: Bit) {
    exists path :: IsPath(g, path) && Last(path) == b && i <= |g.events[b]| && BeforePoint(g, path, i, x).Has(bit)
  }

  /** A report of this kind about `x` in state `s`, when `ev` happens. */
  predicate ErrorAt(ev: Events, x: nat, s: LocalState, kind: UseKind) {
    || (x in ev.accesses && s.uninit && kind == if s.moved then Moved else Uninit)
    || (x in ev.borrows && s.moved && kind == Moved)
  }

  /** Reasons for a report at point `i` of block `b`. */
  ghost predicate Explained(g: Graph, b: nat, i: nat, x: nat, kind: UseKind)
    requires b < |g.events| && i < |g.events[b]|
  {
    match kind
    case Moved => (x in g.events[b][i].accesses || x in g.events[b][i].borrows) && Arrives(g, b, i, x, MovedBit)
    case Uninit => x in g.events[b][i].accesses && Arrives(g, b, i, x, UninitBit)
  }

  /** If some local is never written through a pointer, awake paths are all paths. */
  lemma ArrivesOnAnyPath(g: Graph, y: nat, b: nat, i: nat, x: nat, bit: Bit)
    requires g.Valid() && y < g.locals && NeverWritten(g, y)
    ensures Arrives(g, b, i, x, bit) <==> ArrivesAny(g, b, i, x, bit)
  {
    if ArrivesAny(g, b, i, x, bit) {
      var path :| IsPath(g, path) && Last(path) == b && i <= |g.events[b]| && BeforePoint(g, path, i, x).Has(bit);
      UnwrittenAwake(g, path, y);
    }
  }

  // ---- the invariant of the worklist ----

  ghost predicate Shape(g: Graph, entry: seq<Rows>, words: nat) {
    && g.Valid() && words == WordsFor(g.locals) && |entry| == |g.events|
    && forall b :: 0 <= b < |entry| ==> entry[b].Wide(words)
  }

  /** Every bit is there because of an awake path, and bits past the last local are never set. */
  ghost predicate Sound(g: Graph, r: Rows, words: nat, b: nat)
    requires r.Wide(words)
  {
    forall x: nat, bit :: x < WORD_BITS * words && View(r, words, x).Has(bit) ==> x < g.locals && MayAwake(g, b, x, bit)
  }

  ghost predicate Nonempty(g: Graph, r: Rows, words: nat)
    requires r.Wide(words)
  {
    exists x: nat, bit :: x < WORD_BITS * words && View(r, words, x).Has(bit)
  }

  ghost predicate Live(g: Graph, entry: seq<Rows>, words: nat, b: nat)
    requires Shape(g, entry, words) && b < |entry|
  {
    b == 0 || Nonempty(g, entry[b], words)
  }

  /** What the block makes of `r`. */
  ghost predicate IsOut(g: Graph, b: nat, r: Rows, out: Rows, words: nat)
    requires b < |g.events| && r.Wide(words)
  {
    && out.Wide(words)
    && forall x: nat :: x < WORD_BITS * words ==> View(out, words, x) == Run(g.events[b], x, View(r, words, x))
  }

  ghost predicate Delivered(g: Graph, b: nat, r: Rows, t: Rows, words: nat)
    requires b < |g.events| && r.Wide(words) && t.Wide(words)
  {
    forall x: nat, bit :: x < g.locals <= WORD_BITS * words && Run(g.events[b], x, View(r, words, x)).Has(bit)
                          ==> View(t, words, x).Has(bit)
  }

  ghost predicate SettledAt(g: Graph, entry: seq<Rows>, words: nat, b: nat)
    requires Shape(g, entry, words) && b < |entry|
  {
    forall s :: s in g.succs[b] ==> s < |entry| && Delivered(g, b, entry[b], entry[s], words)
  }

  /** The reports a visit of `b` from state `r` makes are all on record. */
  ghost predicate Reported(g: Graph, body: Body, b: nat, r: Rows, words: nat, errors: Errors)
    requires b < |g.events| && r.Wide(words)
  {
    forall i: nat, x: nat, kind ::
      IsLocation(body, b, i) && i < |g.events[b]| && x < WORD_BITS * words
      && ErrorAt(g.events[b][i], x, Run(g.events[b][..i], x, View(r, words, x)), kind)
      ==> HasError(errors, Mid(body, b, i), x, kind)
  }

  ghost predicate ErrorsExplained(g: Graph, body: Body, errors: Errors) {
    forall point: nat, x: nat, kind :: HasError(errors, point, x, kind) ==> ExplainedPoint(g, body, point, x, kind)
  }

  ghost predicate ExplainedPoint(g: Graph, body: Body, point: nat, x: nat, kind: UseKind) {
    exists b: nat, i: nat :: IsLocation(body, b, i) && point == Mid(body, b, i) && b < |g.events| && i < |g.events[b]|
                             && Explained(g, b, i, x, kind)
  }

  lemma LiveVisited(g: Graph, r: Rows, words: nat, b: nat) returns (path: seq<nat>)
    requires g.Valid() && r.Wide(words) && Sound(g, r, words, b) && b < |g.events|
    requires b == 0 || Nonempty(g, r, words)
    ensures IsPath(g, path) && Last(path) == b && Awake(g, path)
  {
    if b == 0 {
      path := [0];
    } else {
      var x: nat, bit :| x < WORD_BITS * words && View(r, words, x).Has(bit);
      assert MayAwake(g, b, x, bit);
      path :| IsPath(g, path) && Last(path) == b && Awake(g, path) && AtEntry(g, path, x).Has(bit);
    }
  }

  /** A bit met while visiting `b` has an awake path behind it. */
  lemma VisitArrives(g: Graph, r: Rows, words: nat, b: nat, i: nat, x: nat, bit: Bit)
    requires g.Valid() && r.Wide(words) && Sound(g, r, words, b) && b < |g.events| && i <= |g.events[b]|
    requires b == 0 || Nonempty(g, r, words)
    requires x < WORD_BITS * words && Run(g.events[b][..i], x, View(r, words, x)).Has(bit)
    ensures Arrives(g, b, i, x, bit)
  {
    var evs, s := g.events[b][..i], View(r, words, x);
    if s.Has(bit) {
      assert MayAwake(g, b, x, bit);
      var path :| IsPath(g, path) && Last(path) == b && Awake(g, path) && AtEntry(g, path, x).Has(bit);
      RunBit(evs, x, s, AtEntry(g, path, x), bit);
      assert BeforePoint(g, path, i, x).Has(bit);
    } else {
      var path := LiveVisited(g, r, words, b);
      RunBit(evs, x, s, AtEntry(g, path, x), bit);
      assert BeforePoint(g, path, i, x).Has(bit);
    }
  }

  lemma VisitExplained(g: Graph, r: Rows, words: nat, b: nat, i: nat, x: nat, kind: UseKind)
    requires g.Valid() && r.Wide(words) && Sound(g, r, words, b) && b < |g.events| && i < |g.events[b]|
    requires b == 0 || Nonempty(g, r, words)
    requires x < WORD_BITS * words && ErrorAt(g.events[b][i], x, Run(g.events[b][..i], x, View(r, words, x)), kind)
    ensures Explained(g, b, i, x, kind)
  {
    VisitArrives(g, r, words, b, i, x, if kind == Moved then MovedBit else UninitBit);
  }

  /** What a live block delivers to a successor has an awake path behind it. */
  lemma OutSound(g: Graph, r: Rows, out: Rows, words: nat, b: nat, s: nat)
    requires g.Valid() && r.Wide(words) && Sound(g, r, words, b) && b < |g.events| && s in g.succs[b]
    requires b == 0 || Nonempty(g, r, words)
    requires IsOut(g, b, r, out, words)
    ensures Sound(g, out, words, s)
  {
    forall x: nat, bit | x < WORD_BITS * words && View(out, words, x).Has(bit)
      ensures x < g.locals && MayAwake(g, s, x, bit)
    {
      if x >= g.locals {
        assert !View(r, words, x).Has(UninitBit) && !View(r, words, x).Has(MovedBit) && !View(r, words, x).Has(OwnedBit);
        assert View(r, words, x) == NOTHING;
        RunOutside(g, g.events[b], x);
      } else {
        VisitArrives(g, r, words, b, |g.events[b]|, x, bit) by { assert g.events[b][..|g.events[b]|] == g.events[b]; }
        var path :| IsPath(g, path) && Last(path) == b && Awake(g, path) && BeforePoint(g, path, |g.events[b]|, x).Has(bit);
        assert g.events[b][..|g.events[b]|] == g.events[b];
        AwakeStep(g, path, s, x, bit);
      }
    }
  }

  /** Once nothing is queued, every awake path is covered. */
  lemma {:induction false} CoversAwake(g: Graph, entry: seq<Rows>, words: nat, path: seq<nat>, x: nat, bit: Bit)
    requires Shape(g, entry, words) && IsPath(g, path) && Awake(g, path)
    requires forall b :: 0 <= b < |entry| && Live(g, entry, words, b) ==> SettledAt(g, entry, words, b)
    requires forall y: nat, bt :: y < g.locals && Initial(g, y).Has(bt) ==> View(entry[0], words, y).Has(bt)
    requires x < g.locals && AtEntry(g, path, x).Has(bit)
    ensures View(entry[Last(path)], words, x).Has(bit)
    decreases |path|
  {
    if |path| > 1 {
      var front := Front(path);
      var b, before := Last(front), AtEntry(g, front, x);
      LiveOnPath(g, entry, words, front);
      RunBit(g.events[b], x, before, View(entry[b], words, x), bit);
      if before.Has(bit) {
        CoversAwake(g, entry, words, front, x, bit);
      }
      assert Last(path) in g.succs[b];
      assert SettledAt(g, entry, words, b);
    }
  }

  lemma {:induction false} LiveOnPath(g: Graph, entry: seq<Rows>, words: nat, path: seq<nat>)
    requires Shape(g, entry, words) && IsPath(g, path) && Awake(g, path)
    requires forall b :: 0 <= b < |entry| && Live(g, entry, words, b) ==> SettledAt(g, entry, words, b)
    requires forall y: nat, bt :: y < g.locals && Initial(g, y).Has(bt) ==> View(entry[0], words, y).Has(bt)
    ensures Live(g, entry, words, Last(path))
    decreases |path|, 0
  {
    if |path| > 1 {
      var x: nat, bit :| x < g.locals && AtEntry(g, path, x).Has(bit);
      var front := Front(path);
      var b, before := Last(front), AtEntry(g, front, x);
      LiveOnPath(g, entry, words, front);
      RunBit(g.events[b], x, before, View(entry[b], words, x), bit);
      if before.Has(bit) {
        CoversAwake(g, entry, words, front, x, bit);
      }
      assert SettledAt(g, entry, words, b);
      assert View(entry[Last(path)], words, x).Has(bit);
    }
  }
}
