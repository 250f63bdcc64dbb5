/** What has happened to a local by the time a path arrives at a point, told from the body's statements. */
module Histories {
  import opened Mir
  import opened Flow
  import opened Facts
  import opened Locations
  import opened PointUses
  import opened Borrowck
  import PointsTo

  datatype Spot = Spot(block: nat, index: nat)

  ghost predicate InBody(body: Body, story: seq<Spot>) {
    forall k :: 0 <= k < |story| ==> IsLocation(body, story[k].block, story[k].index)
  }

  // ---- three things a story may say about `x` ----

  /** From the `k`-th point of the story on, no point assigns `x` or may write it through a pointer. */
  ghost predicate Unrestored(body: Body, story: seq<Spot>, x: nat, k: nat)
    requires body.Valid() && InBody(body, story)
  {
    forall m :: k <= m < |story| ==> !Assigns(body, story[m].block, story[m].index, x) && !MayWrite(body, story[m].block, story[m].index, x)
  }

  /** `x` was handed over, and has got no value since. */
  ghost predicate GoneAfter(body: Body, story: seq<Spot>, x: nat)
    requires body.Valid() && InBody(body, story)
  {
    exists k: nat :: k < |story| && HandsOver(body, story[k].block, story[k].index, x) && Unrestored(body, story, x, k)
  }

  predicate IsArgument(body: Body, x: nat) {
    1 <= x <= body.argCount
  }

  /** `x` was handed over, or is no argument, and has got no value since. */
  ghost predicate EmptyAfter(body: Body, story: seq<Spot>, x: nat)
    requires body.Valid() && InBody(body, story)
  {
    GoneAfter(body, story, x) || (x < body.localCount && !IsArgument(body, x) && Unrestored(body, story, x, 0))
  }

  /** From the `k`-th point of the story on, no point hands over `x`. */
  ghost predicate Retained(body: Body, story: seq<Spot>, x: nat, k: nat)
    requires InBody(body, story)
  {
    forall m :: k <= m < |story| ==> !HandsOver(body, story[m].block, story[m].index, x)
  }

  /** `x` was assigned and not handed over since. */
  ghost predicate FilledAfter(body: Body, story: seq<Spot>, x: nat)
    requires InBody(body, story)
  {
    exists k: nat :: k < |story| && Assigns(body, story[k].block, story[k].index, x) && Retained(body, story, x, k + 1)
  }

  /** `x` holds a value of its own: an assigned one, or an argument's. */
  ghost predicate OwnsAfter(body: Body, story: seq<Spot>, x: nat)
    requires InBody(body, story)
  {
    FilledAfter(body, story, x) || (IsArgument(body, x) && Retained(body, story, x, 0))
  }

  // ---- runs over any list of points ----

  ghost function EventsOf(body: Body, story: seq<Spot>): (evs: seq<Events>)
    requires body.Valid() && InBody(body, story)
    ensures |evs| == |story|
  {
    seq(|story|, k requires 0 <= k < |story| => EventsAt(body, story[k].block, story[k].index))
  }

  lemma EventsSaid(body: Body, story: seq<Spot>, x: nat, k: nat)
    requires body.Valid() && InBody(body, story) && k < |story|
    ensures var ev := EventsOf(body, story)[k];
            && (x in ev.moves <==> HandsOver(body, story[k].block, story[k].index, x))
            && (x in ev.assigns <==> Assigns(body, story[k].block, story[k].index, x))
            && (x in ev.writes <==> MayWrite(body, story[k].block, story[k].index, x))
  {
    MovesMeaning(body, story[k].block, story[k].index, x);
    AssignsMeaning(body, story[k].block, story[k].index, x);
    WritesMeaning(body, story[k].block, story[k].index, x);
  }

  predicate Untouched(evs: seq<Events>, x: nat, k: nat) {
    forall m :: k <= m < |evs| ==> x !in evs[m].assigns && x !in evs[m].writes
  }

  predicate Unmoved(evs: seq<Events>, x: nat, k: nat) {
    forall m :: k <= m < |evs| ==> x !in evs[m].moves
  }

  ghost predicate LeftFor(evs: seq<Events>, x: nat) {
    exists k: nat :: k < |evs| && x in evs[k].moves && Untouched(evs, x, k)
  }

  ghost predicate Got(evs: seq<Events>, x: nat) {
    exists k: nat :: k < |evs| && x in evs[k].assigns && Unmoved(evs, x, k + 1)
  }

  /** A run, bit by bit, as facts about which points did what. */
  lemma {:induction false} RunMeaning(evs: seq<Events>, x: nat, s: LocalState)
    ensures Run(evs, x, s).moved <==> LeftFor(evs, x) || (s.moved && Untouched(evs, x, 0))
    ensures Run(evs, x, s).uninit <==> LeftFor(evs, x) || (s.uninit && Untouched(evs, x, 0))
    ensures Run(evs, x, s).owned <==> Got(evs, x) || (s.owned && Unmoved(evs, x, 0))
  {
    if evs != [] {
      var init, last := evs[..|evs| - 1], evs[|evs| - 1];
      RunMeaning(init, x, s);
      LeftForStep(init, last, x);
      GotStep(init, last, x);
      assert init + [last] == evs;
    }
  }

  lemma LeftForStep(init: seq<Events>, last: Events, x: nat)
    ensures var evs := init + [last];
            && (LeftFor(evs, x) <==> (LeftFor(init, x) || x in last.moves) && x !in last.assigns && x !in last.writes)
            && (Untouched(evs, x, 0) <==> Untouched(init, x, 0) && x !in last.assigns && x !in last.writes)
  {
    var evs, n := init + [last], |init|;
    assert forall m :: 0 <= m < n ==> evs[m] == init[m];
    assert evs[n] == last;
    if x in last.moves && x !in last.assigns && x !in last.writes {
      assert Untouched(evs, x, n);
    }
    if k: nat :| k < n && x in init[k].moves && Untouched(init, x, k) && x !in last.assigns && x !in last.writes {
      assert Untouched(evs, x, k);
    }
    if k: nat :| k < |evs| && x in evs[k].moves && Untouched(evs, x, k) {
      assert Untouched(init, x, k);
    }
  }

  lemma GotStep(init: seq<Events>, last: Events, x: nat)
    ensures var evs := init + [last];
            && (Got(evs, x) <==> x in last.assigns || (Got(init, x) && x !in last.moves))
            && (Unmoved(evs, x, 0) <==> Unmoved(init, x, 0) && x !in last.moves)
  {
    var evs, n := init + [last], |init|;
    assert forall m :: 0 <= m < n ==> evs[m] == init[m];
    assert evs[n] == last;
    if x in last.assigns {
      assert Unmoved(evs, x, n + 1);
    }
    if k: nat :| k < n && x in init[k].assigns && Unmoved(init, x, k + 1) && x !in last.moves {
      assert Unmoved(evs, x, k + 1);
    }
    if k: nat :| k < |evs| && x in evs[k].assigns && Unmoved(evs, x, k + 1) {
      assert k < n ==> Unmoved(init, x, k + 1);
    }
  }

  /** Running a story from the initial state gives what the story says. */
  lemma StoryMeaning(body: Body, story: seq<Spot>, x: nat)
    requires body.Valid() && InBody(body, story)
    ensures var s := Run(EventsOf(body, story), x, Initial(GraphOf(body), x));
            && (s.moved <==> GoneAfter(body, story, x))
            && (s.uninit <==> EmptyAfter(body, story, x))
            && (s.owned <==> OwnsAfter(body, story, x))
  {
    var evs := EventsOf(body, story);
    RunMeaning(evs, x, Initial(GraphOf(body), x));
    Told(body, story, x);
  }

  /** The events of a story tell the same as its points. */
  lemma Told(body: Body, story: seq<Spot>, x: nat)
    requires body.Valid() && InBody(body, story)
    ensures var evs := EventsOf(body, story);
            && (LeftFor(evs, x) <==> GoneAfter(body, story, x)) && (Untouched(evs, x, 0) <==> Unrestored(body, story, x, 0))
            && (Got(evs, x) <==> FilledAfter(body, story, x)) && (Unmoved(evs, x, 0) <==> Retained(body, story, x, 0))
  {
    var evs := EventsOf(body, story);
    forall k: nat
      ensures Untouched(evs, x, k) <==> Unrestored(body, story, x, k)
      ensures Unmoved(evs, x, k) <==> Retained(body, story, x, k)
    {
      ToldFrom(body, story, x, k);
    }
    forall k: nat | k < |story|
      ensures x in evs[k].moves <==> HandsOver(body, story[k].block, story[k].index, x)
      ensures x in evs[k].assigns <==> Assigns(body, story[k].block, story[k].index, x)
    {
      EventsSaid(body, story, x, k);
    }
    if k: nat :| k < |story| && HandsOver(body, story[k].block, story[k].index, x) && Unrestored(body, story, x, k) {
      assert x in evs[k].moves && Untouched(evs, x, k);
    }
    if k: nat :| k < |story| && Assigns(body, story[k].block, story[k].index, x) && Retained(body, story, x, k + 1) {
      assert x in evs[k].assigns && Unmoved(evs, x, k + 1);
    }
  }

  lemma ToldFrom(body: Body, story: seq<Spot>, x: nat, k: nat)
    requires body.Valid() && InBody(body, story)
    ensures Untouched(EventsOf(body, story), x, k) <==> Unrestored(body, story, x, k)
    ensures Unmoved(EventsOf(body, story), x, k) <==> Retained(body, story, x, k)
  {
    forall m: nat | m < |story|
      ensures var ev := EventsOf(body, story)[m];
              && (x in ev.moves <==> HandsOver(body, story[m].block, story[m].index, x))
              && (x in ev.assigns <==> Assigns(body, story[m].block, story[m].index, x))
              && (x in ev.writes <==> MayWrite(body, story[m].block, story[m].index, x))
    {
      EventsSaid(body, story, x, m);
    }
  }

  // ---- the stories of paths ----

  /** A way through the body from its entry block. */
  ghost predicate IsRoute(body: Body, route: seq<nat>) {
    PointsTo.IsWalk(body, route) && route[0] == 0
  }

  function BlockSpots(b: nat, n: nat): seq<Spot> {
    seq(n, i requires 0 <= i < n => Spot(b, i))
  }

  /** All points of the blocks before the last. */
  ghost function Before(body: Body, route: seq<nat>): (story: seq<Spot>)
    requires PointsTo.IsWalk(body, route)
    ensures InBody(body, story)
    decreases |route|
  {
    if |route| == 1 then []
    else
      var b := route[|route| - 2];
      Before(body, route[..|route| - 1]) + BlockSpots(b, |body.blocks[b].statements| + 1)
  }

  /** Everything on the way to the `i`-th point of the last block. */
  ghost function Story(body: Body, route: seq<nat>, i: nat): (story: seq<Spot>)
    requires PointsTo.IsWalk(body, route) && i <= |body.blocks[route[|route| - 1]].statements| + 1
    ensures InBody(body, story)
  {
    Before(body, route) + BlockSpots(route[|route| - 1], i)
  }

  lemma {:induction false} RunJoined(a: seq<Events>, b: seq<Events>, x: nat, s: LocalState)
    ensures Run(a + b, x, s) == Run(b, x, Run(a, x, s))
    decreases |b|
  {
    if b == [] {
      assert a + b == a;
    } else {
      RunJoined(a, b[..|b| - 1], x, s);
      assert (a + b)[..|a + b| - 1] == a + b[..|b| - 1];
    }
  }

  lemma RoutesArePaths(body: Body, route: seq<nat>)
    requires body.Valid()
    ensures IsRoute(body, route) <==> IsPath(GraphOf(body), route)
  {
  }

  lemma BlockEvents(body: Body, b: nat, n: nat)
    requires body.Valid() && b < |body.blocks| && n <= |body.blocks[b].statements| + 1
    ensures InBody(body, BlockSpots(b, n))
    ensures EventsOf(body, BlockSpots(b, n)) == GraphOf(body).events[b][..n]
  {
    var evs := GraphOf(body).events[b];
    forall i: nat | i < n
      ensures EventsOf(body, BlockSpots(b, n))[i] == evs[i]
    {
      assert IsLocation(body, b, i);
    }
  }

  lemma EventsJoined(body: Body, a: seq<Spot>, b: seq<Spot>)
    requires body.Valid() && InBody(body, a) && InBody(body, b)
    ensures InBody(body, a + b) && EventsOf(body, a + b) == EventsOf(body, a) + EventsOf(body, b)
  {
  }

  /** A story continued by the first `n` points of a block runs on through their events. */
  lemma RunContinued(body: Body, a: seq<Spot>, b: nat, n: nat, x: nat, s: LocalState)
    requires body.Valid() && InBody(body, a) && b < |body.blocks| && n <= |body.blocks[b].statements| + 1
    ensures InBody(body, a + BlockSpots(b, n))
    ensures Run(EventsOf(body, a + BlockSpots(b, n)), x, s)
            == Run(GraphOf(body).events[b][..n], x, Run(EventsOf(body, a), x, s))
  {
    BlockEvents(body, b, n);
    EventsJoined(body, a, BlockSpots(b, n));
    RunJoined(EventsOf(body, a), EventsOf(body, BlockSpots(b, n)), x, s);
  }

  lemma RouteShorter(body: Body, route: seq<nat>)
    requires body.Valid() && IsRoute(body, route) && |route| > 1
    ensures IsRoute(body, Front(route))
    ensures var b := Last(Front(route));
            Before(body, route) == Before(body, Front(route)) + BlockSpots(b, |body.blocks[b].statements| + 1)
  {
  }

  lemma EntryContinued(g: Graph, path: seq<nat>, x: nat)
    requires IsPath(g, path) && |path| > 1
    ensures IsPath(g, Front(path))
    ensures AtEntry(g, path, x) == Run(g.events[Last(Front(path))], x, AtEntry(g, Front(path), x))
  {
  }

  lemma RunThrough(body: Body, a: seq<Spot>, b: nat, x: nat, s: LocalState)
    requires body.Valid() && InBody(body, a) && b < |body.blocks|
    ensures InBody(body, a + BlockSpots(b, |body.blocks[b].statements| + 1))
    ensures Run(EventsOf(body, a + BlockSpots(b, |body.blocks[b].statements| + 1)), x, s)
            == Run(GraphOf(body).events[b], x, Run(EventsOf(body, a), x, s))
  {
    var evs, n := GraphOf(body).events[b], |body.blocks[b].statements| + 1;
    assert evs[..n] == evs;
    RunContinued(body, a, b, n, x, s);
  }

  lemma {:induction false} EntryTold(body: Body, route: seq<nat>, x: nat)
    requires body.Valid() && IsRoute(body, route)
    ensures IsPath(GraphOf(body), route)
    ensures AtEntry(GraphOf(body), route, x) == Run(EventsOf(body, Before(body, route)), x, Initial(GraphOf(body), x))
    decreases |route|
  {
    RoutesArePaths(body, route);
    if |route| > 1 {
      RouteShorter(body, route);
      EntryContinued(GraphOf(body), route, x);
      EntryTold(body, Front(route), x);
      RunThrough(body, Before(body, Front(route)), Last(Front(route)), x, Initial(GraphOf(body), x));
    }
  }

  /** The state a path brings to a point is the one its story tells. */
  lemma PointTold(body: Body, route: seq<nat>, i: nat, x: nat)
    requires body.Valid() && IsRoute(body, route) && i <= |body.blocks[route[|route| - 1]].statements| + 1
    ensures IsPath(GraphOf(body), route)
    ensures var s, story := BeforePoint(GraphOf(body), route, i, x), Story(body, route, i);
            && (s.moved <==> GoneAfter(body, story, x))
            && (s.uninit <==> EmptyAfter(body, story, x))
            && (s.owned <==> OwnsAfter(body, story, x))
  {
    var g, b := GraphOf(body), route[|route| - 1];
    EntryTold(body, route, x);
    RunContinued(body, Before(body, route), b, i, x, Initial(g, x));
    StoryMeaning(body, Story(body, route, i), x);
  }

  // ---- what may have happened on the way to a point ----

  /** Some route from the entry block ends at `b`. */
  ghost predicate HasRoute(body: Body, b: nat) {
    exists route :: IsRoute(body, route) && route[|route| - 1] == b
  }

  /** The bit the analysis would keep for `x`, as the story tells it. */
  ghost predicate Tells(body: Body, story: seq<Spot>, x: nat, bit: Bit)
    requires body.Valid() && InBody(body, story)
  {
    match bit
    case MovedBit => GoneAfter(body, story, x)
    case UninitBit => EmptyAfter(body, story, x)
    case OwnedBit => OwnsAfter(body, story, x)
  }

  /** Some route to point `i` of block `b` has a story that tells `bit` of `x`. */
  ghost predicate MayBe(body: Body, b: nat, i: nat, x: nat, bit: Bit)
    requires body.Valid() && b < |body.blocks| && i <= |body.blocks[b].statements| + 1
  {
    exists route :: IsRoute(body, route) && route[|route| - 1] == b && Tells(body, Story(body, route, i), x, bit)
  }

  /** Some path of events arrives with a bit exactly when some route's story tells it. */
  lemma ArrivesTold(body: Body, b: nat, i: nat, x: nat, bit: Bit)
    requires body.Valid() && b < |body.blocks| && i <= |body.blocks[b].statements| + 1
    ensures ArrivesAny(GraphOf(body), b, i, x, bit) <==> MayBe(body, b, i, x, bit)
  {
    var g := GraphOf(body);
    if path: seq<nat> :| IsPath(g, path) && Last(path) == b && BeforePoint(g, path, i, x).Has(bit) {
      RoutesArePaths(body, path);
      PointTold(body, path, i, x);
    }
    if route: seq<nat> :| IsRoute(body, route) && route[|route| - 1] == b && Tells(body, Story(body, route, i), x, bit) {
      PointTold(body, route, i, x);
      assert BeforePoint(g, route, i, x).Has(bit);
    }
  }

  lemma RoutesReach(body: Body, b: nat)
    requires body.Valid()
    ensures Reachable(GraphOf(body), b) <==> HasRoute(body, b)
  {
    forall route ensures IsRoute(body, route) <==> IsPath(GraphOf(body), route) { RoutesArePaths(body, route); }
  }

  /** A block replayed with nothing known owns what it assigns and keeps. */
  lemma ReplayTold(body: Body, b: nat, x: nat)
    requires body.Valid() && b < |body.blocks|
    ensures InBody(body, BlockSpots(b, |body.blocks[b].statements| + 1))
    ensures Run(GraphOf(body).events[b], x, NOTHING).owned
            <==> FilledAfter(body, BlockSpots(b, |body.blocks[b].statements| + 1), x)
  {
    var n, evs := |body.blocks[b].statements| + 1, GraphOf(body).events[b];
    BlockEvents(body, b, n);
    assert evs[..n] == evs;
    RunMeaning(evs, x, NOTHING);
    Told(body, BlockSpots(b, n), x);
  }
}
