/** Grouping the emitted facts by point, as the analysis does before it starts. */
module Collect {
  import opened Flow
  import opened Emit

  datatype Kind = Assigned | MovedOut | Accessed | Borrowed | Written

  datatype PointEvents = PointEvents(
    assigns: seq<nat>, moves: seq<nat>, accesses: seq<nat>, borrows: seq<nat>, writes: seq<nat>)
  {
    function Get(kind: Kind): seq<nat> {
      match kind
      case Assigned => assigns
      case MovedOut => moves
      case Accessed => accesses
      case Borrowed => borrows
      case Written => writes
    }

    /** Appends `x` to one of the five lists. */
    function Push(kind: Kind, x: nat): (r: PointEvents)
      ensures forall k :: r.Get(k) == if k == kind then Get(k) + [x] else Get(k)
    {
      match kind
      case Assigned => this.(assigns := assigns + [x])
      case MovedOut => this.(moves := moves + [x])
      case Accessed => this.(accesses := accesses + [x])
      case Borrowed => this.(borrows := borrows + [x])
      case Written => this.(writes := writes + [x])
    }
  }

  function FactsOf(lists: FactLists, kind: Kind): seq<Fact> {
    match kind
    case Assigned => lists.assigns
    case MovedOut => lists.moves
    case Accessed => lists.accesses
    case Borrowed => lists.borrows
    case Written => lists.writes
  }

  type EventMap = map<nat, PointEvents>

  function At(events: EventMap, point: nat): PointEvents {
    if point in events then events[point] else PointEvents([], [], [], [], [])
  }

  /** The map lists, under each point, exactly the locals the facts of this kind name there. */
  ghost predicate Indexes(events: EventMap, kind: Kind, facts: seq<Fact>) {
    forall point: nat, x: nat :: x in At(events, point).Get(kind) <==> (x, point) in facts
  }

  /** The listed events of a point are the set `ev`. */
  ghost predicate Lists(pe: PointEvents, ev: Events) {
    && (forall x: nat :: x in pe.assigns <==> x in ev.assigns)
    && (forall x: nat :: x in pe.moves <==> x in ev.moves)
    && (forall x: nat :: x in pe.accesses <==> x in ev.accesses)
    && (forall x: nat :: x in pe.borrows <==> x in ev.borrows)
    && (forall x: nat :: x in pe.writes <==> x in ev.writes)
  }

  lemma IndexedRecords(events: EventMap, lists: FactLists, ev: Events, point: nat)
    requires forall kind :: Indexes(events, kind, FactsOf(lists, kind))
    requires Records(lists, ev, point)
    ensures Lists(At(events, point), ev)
  {
    var pe := At(events, point);
    assert Indexes(events, Assigned, lists.assigns) && pe.Get(Assigned) == pe.assigns by { assert FactsOf(lists, Assigned) == lists.assigns; }
    assert Indexes(events, MovedOut, lists.moves) && pe.Get(MovedOut) == pe.moves by { assert FactsOf(lists, MovedOut) == lists.moves; }
    assert Indexes(events, Accessed, lists.accesses) && pe.Get(Accessed) == pe.accesses by { assert FactsOf(lists, Accessed) == lists.accesses; }
    assert Indexes(events, Borrowed, lists.borrows) && pe.Get(Borrowed) == pe.borrows by { assert FactsOf(lists, Borrowed) == lists.borrows; }
    assert Indexes(events, Written, lists.writes) && pe.Get(Written) == pe.writes by { assert FactsOf(lists, Written) == lists.writes; }
  }

  lemma PushAt(events: EventMap, kind: Kind, path: nat, point: nat, p: nat)
    ensures var next := events[point := At(events, point).Push(kind, path)];
            forall k :: At(next, p).Get(k) == if k == kind && p == point then At(events, p).Get(k) + [path] else At(events, p).Get(k)
  {
  }

  lemma GroupStep(events: EventMap, kind: Kind, facts: seq<Fact>, path: nat, point: nat, p: nat, x: nat)
    requires x in At(events, p).Get(kind) <==> (x, p) in facts
    ensures var next := events[point := At(events, point).Push(kind, path)];
            x in At(next, p).Get(kind) <==> (x, p) in facts + [(path, point)]
  {
    PushAt(events, kind, path, point, p);
  }

  /** Files the facts of one kind under their points. */
  method Group(kind: Kind, facts: seq<Fact>, before: EventMap) returns (events: EventMap)
    requires Indexes(before, kind, [])
    ensures Indexes(events, kind, facts)
    ensures forall other, point: nat :: other != kind ==> At(events, point).Get(other) == At(before, point).Get(other)
  {
    events := before;
    for k := 0 to |facts|
      invariant Indexes(events, kind, facts[..k])
      invariant forall other, point: nat :: other != kind ==> At(events, point).Get(other) == At(before, point).Get(other)
    {
      var (path, point) := facts[k];
      var next := events[point := At(events, point).Push(kind, path)];
      assert facts[..k + 1] == facts[..k] + [(path, point)];
      forall p: nat, x: nat
        ensures x in At(next, p).Get(kind) <==> (x, p) in facts[..k + 1]
      {
        GroupStep(events, kind, facts[..k], path, point, p, x);
      }
      forall other, p: nat | other != kind
        ensures At(next, p).Get(other) == At(events, p).Get(other)
      {
        PushAt(events, kind, path, point, p);
      }
      events := next;
    }
    assert facts[..|facts|] == facts;
  }

  method CollectEvents(lists: FactLists) returns (events: EventMap)
    ensures forall kind :: Indexes(events, kind, FactsOf(lists, kind))
  {
    events := map[];
    events := Group(Assigned, lists.assigns, events);
    events := Group(MovedOut, lists.moves, events);
    events := Group(Accessed, lists.accesses, events);
    events := Group(Borrowed, lists.borrows, events);
    events := Group(Written, lists.writes, events);
  }
}
