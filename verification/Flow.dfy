/** The move/leak dataflow as a mathematical problem: what one control-flow path does to one
    local, and what it means for some path to bring a local into a state.

    Nothing here mentions bit words or a worklist; `Borrowck.Analyze` is proved against it. */
module Flow {
  /** What happens at one program point, as sets of locals. */
  datatype Events = Events(
    assigns: set<nat>, moves: set<nat>, accesses: set<nat>, borrows: set<nat>, writes: set<nat>)

  /** A control-flow graph. `events[b]` lists the points of block `b`, its terminator last. */
  datatype Graph = Graph(locals: nat, args: nat, events: seq<seq<Events>>, succs: seq<seq<nat>>) {
    ghost predicate Valid() {
      && 0 < |events| == |succs|
      && args < locals
      && (forall b, s :: 0 <= b < |succs| && s in succs[b] ==> s < |events|)
      && (forall b, i :: 0 <= b < |events| && 0 <= i < |events[b]| ==> InRange(events[b][i]))
    }

    ghost predicate InRange(ev: Events) {
      forall x :: x in ev.assigns || x in ev.moves || x in ev.accesses || x in ev.borrows || x in ev.writes
             ==> x < locals
    }
  }

  datatype Bit = UninitBit | MovedBit | OwnedBit

  datatype LocalState = LocalState(uninit: bool, moved: bool, owned: bool) {
    predicate Has(bit: Bit) {
      match bit
      case UninitBit => uninit
      case MovedBit => moved
      case OwnedBit => owned
    }
  }

  const NOTHING := LocalState(false, false, false)

  /** Arguments arrive initialized and owning their value; every other local is uninitialized. */
  function Initial(g: Graph, x: nat): LocalState {
    if 1 <= x <= g.args then LocalState(false, false, true)
    else LocalState(x < g.locals, false, false)
  }

  /** One point's effect: first moves, then pointer writes, then assignments. */
  function Step(ev: Events, x: nat, s: LocalState): LocalState {
    var s := if x in ev.moves then LocalState(true, true, false) else s;
    var s := if x in ev.writes then LocalState(false, false, s.owned) else s;
    if x in ev.assigns then LocalState(false, false, true) else s
  }

  function Run(evs: seq<Events>, x: nat, s: LocalState): LocalState {
    if evs == [] then s
    else Step(evs[|evs| - 1], x, Run(evs[..|evs| - 1], x, s))
  }

  /** A non-empty walk along the graph's edges that starts at the entry block. */
  ghost predicate IsPath(g: Graph, path: seq<nat>) {
    && |path| > 0
    && path[0] == 0 < |g.events| == |g.succs|
    && (forall k :: 0 <= k < |path| ==> path[k] < |g.events|)
    && (forall k :: 0 < k < |path| ==> path[k] in g.succs[path[k - 1]])
  }

  function Last(path: seq<nat>): nat
    requires |path| > 0
  {
    path[|path| - 1]
  }

  function Front(path: seq<nat>): seq<nat>
    requires |path| > 0
  {
    path[..|path| - 1]
  }

  /** State of `x` on arrival at the end of `path`, before that block's first point. */
  ghost function AtEntry(g: Graph, path: seq<nat>, x: nat): LocalState
    requires IsPath(g, path)
    decreases |path|
  {
    if |path| == 1 then Initial(g, x)
    else Run(g.events[Last(Front(path))], x, AtEntry(g, Front(path), x))
  }

  /** State of `x` just before point `i` of the last block of `path`. */
  ghost function BeforePoint(g: Graph, path: seq<nat>, i: nat, x: nat): LocalState
    requires IsPath(g, path) && i <= |g.events[Last(path)]|
  {
    Run(g.events[Last(path)][..i], x, AtEntry(g, path, x))
  }

  // ---- per-path invariants ----

  predicate Coherent(s: LocalState) {
    (s.moved ==> s.uninit) && (s.owned ==> !s.uninit)
  }

  lemma {:induction false} RunCoherent(evs: seq<Events>, x: nat, s: LocalState)
    requires Coherent(s)
    ensures Coherent(Run(evs, x, s))
  {
    if evs != [] { RunCoherent(evs[..|evs| - 1], x, s); }
  }

  /** On every path, at every point: a moved local counts as uninitialized, an owned one never does. */
  lemma {:induction false} PathCoherent(g: Graph, path: seq<nat>, i: nat, x: nat)
    requires IsPath(g, path) && i <= |g.events[Last(path)]|
    ensures Coherent(AtEntry(g, path, x)) && Coherent(BeforePoint(g, path, i, x))
    decreases |path|
  {
    if |path| > 1 {
      var b := Last(Front(path));
      PathCoherent(g, Front(path), |g.events[b]|, x);
      assert g.events[b][..|g.events[b]|] == g.events[b];
    }
    RunCoherent(g.events[Last(path)][..i], x, AtEntry(g, path, x));
  }

  // ---- each bit flows on its own ----

  /** A bit after a run depends only on that bit before it, and monotonically. */
  lemma {:induction false} RunBit(evs: seq<Events>, x: nat, s: LocalState, t: LocalState, bit: Bit)
    ensures Run(evs, x, s).Has(bit) ==> s.Has(bit) || Run(evs, x, t).Has(bit)
    ensures t.Has(bit) && Run(evs, x, s).Has(bit) ==> Run(evs, x, t).Has(bit)
  {
    if evs != [] { RunBit(evs[..|evs| - 1], x, s, t, bit); }
  }

  /** A local no point pointer-writes cannot lose both of its uninit and owned bits. */
  lemma {:induction false} RunUnwritten(evs: seq<Events>, x: nat, s: LocalState)
    requires forall ev :: ev in evs ==> x !in ev.writes
    requires s.uninit || s.owned
    ensures var r := Run(evs, x, s); r.uninit || r.owned
  {
    if evs != [] { RunUnwritten(evs[..|evs| - 1], x, s); }
  }

  // ---- which paths the worklist follows ----

  ghost predicate Stirs(g: Graph, path: seq<nat>)
    requires IsPath(g, path)
  {
    exists x: nat, bit :: x < g.locals && AtEntry(g, path, x).Has(bit)
  }

  /** Some local is in some state at every block the path enters after the entry block. */
  ghost predicate Awake(g: Graph, path: seq<nat>)
    requires IsPath(g, path)
    decreases |path|
  {
    |path| == 1 || (Stirs(g, path) && Awake(g, Front(path)))
  }

  /** Some path brings `x` to block `b` with `bit` set. */
  ghost predicate May(g: Graph, b: nat, x: nat, bit: Bit) {
    exists path :: IsPath(g, path) && Last(path) == b && AtEntry(g, path, x).Has(bit)
  }

  /** Some awake path does. */
  ghost predicate MayAwake(g: Graph, b: nat, x: nat, bit: Bit) {
    exists path :: IsPath(g, path) && Last(path) == b && Awake(g, path) && AtEntry(g, path, x).Has(bit)
  }

  ghost predicate Visited(g: Graph, b: nat) {
    exists path :: IsPath(g, path) && Last(path) == b && Awake(g, path)
  }

  ghost predicate Reachable(g: Graph, b: nat) {
    exists path :: IsPath(g, path) && Last(path) == b
  }

  lemma Extend(g: Graph, path: seq<nat>, s: nat)
    requires g.Valid() && IsPath(g, path) && s in g.succs[Last(path)]
    ensures IsPath(g, path + [s]) && Front(path + [s]) == path && Last(path + [s]) == s
    ensures forall x :: AtEntry(g, path + [s], x) == Run(g.events[Last(path)], x, AtEntry(g, path, x))
  {
    assert Front(path + [s]) == path;
  }

  /** A bit that a visited block's terminator delivers to a successor is awake there. */
  lemma AwakeStep(g: Graph, path: seq<nat>, s: nat, x: nat, bit: Bit)
    requires g.Valid() && IsPath(g, path) && s in g.succs[Last(path)] && Awake(g, path)
    requires x < g.locals && Run(g.events[Last(path)], x, AtEntry(g, path, x)).Has(bit)
    ensures MayAwake(g, s, x, bit)
  {
    Extend(g, path, s);
    var longer := path + [s];
    assert Stirs(g, longer);
  }

  /** Locals outside the body are never in any state. */
  lemma {:induction false} RunOutside(g: Graph, evs: seq<Events>, x: nat)
    requires forall ev :: ev in evs ==> g.InRange(ev)
    requires x >= g.locals
    ensures Run(evs, x, NOTHING) == NOTHING
  {
    if evs != [] {
      var last := evs[|evs| - 1];
      assert g.InRange(last);
      RunOutside(g, evs[..|evs| - 1], x);
    }
  }

  lemma {:induction false} PathOutside(g: Graph, path: seq<nat>, x: nat)
    requires g.Valid() && IsPath(g, path) && x >= g.locals
    ensures AtEntry(g, path, x) == NOTHING
    decreases |path|
  {
    if |path| > 1 {
      PathOutside(g, Front(path), x);
      RunOutside(g, g.events[Last(Front(path))], x);
    }
  }

  // ---- when awake paths are all paths ----

  /** No point of the body writes local `x` through a pointer. */
  ghost predicate NeverWritten(g: Graph, x: nat) {
    forall b, i :: 0 <= b < |g.events| && 0 <= i < |g.events[b]| ==> x !in g.events[b][i].writes
  }

  lemma {:induction false} UnwrittenStirs(g: Graph, path: seq<nat>, x: nat)
    requires g.Valid() && IsPath(g, path) && x < g.locals && NeverWritten(g, x)
    ensures AtEntry(g, path, x).uninit || AtEntry(g, path, x).owned
    decreases |path|
  {
    if |path| > 1 {
      UnwrittenStirs(g, Front(path), x);
      RunUnwritten(g.events[Last(Front(path))], x, AtEntry(g, Front(path), x));
    }
  }

  /** If some local is never pointer-written, the worklist follows every path. */
  lemma {:induction false} UnwrittenAwake(g: Graph, path: seq<nat>, x: nat)
    requires g.Valid() && IsPath(g, path) && x < g.locals && NeverWritten(g, x)
    ensures Awake(g, path)
    decreases |path|
  {
    if |path| > 1 {
      UnwrittenAwake(g, Front(path), x);
      UnwrittenStirs(g, path, x);
      var bit := if AtEntry(g, path, x).uninit then UninitBit else OwnedBit;
      assert AtEntry(g, path, x).Has(bit);
    }
  }

  /** An edge out of a reachable block that the worklist never visits. */
  ghost predicate Overlooked(g: Graph, d: nat, s: nat) {
    d < |g.succs| && s in g.succs[d] && Reachable(g, d) && !Visited(g, d)
  }

  /** Every bit an overlooked edge would deliver reaches its target on an awake path as well. */
  ghost predicate NothingMissed(g: Graph) {
    forall d: nat, s: nat, x: nat, bit ::
      Overlooked(g, d, s) && x < g.locals && Run(g.events[d], x, NOTHING).Has(bit) ==> MayAwake(g, s, x, bit)
  }

  lemma {:induction false} AwakeWitness(g: Graph, path: seq<nat>, x: nat, bit: Bit)
    requires g.Valid() && IsPath(g, path) && x < g.locals && AtEntry(g, path, x).Has(bit)
    requires NothingMissed(g)
    ensures MayAwake(g, Last(path), x, bit)
    decreases |path|
  {
    if |path| == 1 {
      assert Awake(g, path);
    } else {
      var d, s, before := Last(Front(path)), Last(path), AtEntry(g, Front(path), x);
      RunBit(g.events[d], x, before, NOTHING, bit);
      if before.Has(bit) {
        AwakeWitness(g, Front(path), x, bit);
        var other :| IsPath(g, other) && Last(other) == d && Awake(g, other) && AtEntry(g, other, x).Has(bit);
        RunBit(g.events[d], x, before, AtEntry(g, other, x), bit);
        AwakeStep(g, other, s, x, bit);
      } else if Visited(g, d) {
        var other :| IsPath(g, other) && Last(other) == d && Awake(g, other);
        RunBit(g.events[d], x, NOTHING, AtEntry(g, other, x), bit);
        AwakeStep(g, other, s, x, bit);
      } else {
        assert Overlooked(g, d, s);
      }
    }
  }

  /** Awake paths account for every path exactly when the overlooked edges add nothing. */
  lemma AwakeIsEnough(g: Graph)
    requires g.Valid()
    ensures NothingMissed(g) <==>
            forall b, x: nat, bit :: x < g.locals ==> (May(g, b, x, bit) <==> MayAwake(g, b, x, bit))
  {
    if NothingMissed(g) {
      forall b, x: nat, bit | x < g.locals && May(g, b, x, bit)
        ensures MayAwake(g, b, x, bit)
      {
        var path :| IsPath(g, path) && Last(path) == b && AtEntry(g, path, x).Has(bit);
        AwakeWitness(g, path, x, bit);
      }
    } else {
      var d: nat, s: nat, x: nat, bit :| Overlooked(g, d, s) && x < g.locals
                               && Run(g.events[d], x, NOTHING).Has(bit) && !MayAwake(g, s, x, bit);
      var path :| IsPath(g, path) && Last(path) == d;
      Extend(g, path, s);
      RunBit(g.events[d], x, NOTHING, AtEntry(g, path, x), bit);
      assert AtEntry(g, path + [s], x).Has(bit);
      assert May(g, s, x, bit);
    }
  }
}
