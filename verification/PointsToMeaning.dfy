/** What a points-to set holds, read off the statements alone: an address taken, then handed on from local to
    local, with no link of the chain overwritten on the way. */
module PointsToMeaning {
  import opened Mir
  import opened PointsTo

  // ---- what one statement does to a pointer ----

  /** `p = &q` or `p = &raw q`, for `q` or a part of it that is not behind a pointer. */
  ghost predicate Takes(body: Body, stmt: Statement, p: nat, q: nat)
    requires p < |body.pointerDepth|
  {
    && body.pointerDepth[p] > 0
    && exists pl: Place :: pl.local == q && (pl.projection == [] || pl.projection[0] != Deref)
                           && (stmt == Assign(Place(p, []), AddressOf(pl)) || stmt == Assign(Place(p, []), Ref(pl)))
  }

  /** `p` gets its value from the whole local `r`: a copy, a move, a cast, or the address of what `r` points at. */
  ghost predicate HandsOn(body: Body, stmt: Statement, p: nat, r: nat)
    requires p < |body.pointerDepth|
  {
    && body.pointerDepth[p] > 0
    && (|| (exists op: Operand :: (op == Copy(Place(r, [])) || op == Move(Place(r, [])))
                                  && (stmt == Assign(Place(p, []), Use(op)) || stmt == Assign(Place(p, []), Cast(op))))
        || (exists pl: Place :: pl.local == r && pl.projection != [] && pl.projection[0] == Deref
                                && (stmt == Assign(Place(p, []), AddressOf(pl)) || stmt == Assign(Place(p, []), Ref(pl)))))
  }

  /** The statement assigns the whole local `p`. */
  ghost predicate Overwrites(stmt: Statement, p: nat) {
    stmt.Assign? && stmt.place == Place(p, [])
  }

  // ---- chains ----

  /** At statement `at`, `local` comes to point at the target. */
  datatype Link = Link(at: nat, local: nat)

  /** From statement `k` on, up to statement `n`, `p` is not assigned. */
  ghost predicate Kept(stmts: seq<Statement>, p: nat, k: nat, n: nat)
    requires n <= |stmts|
  {
    forall m :: k <= m < n ==> !Overwrites(stmts[m], p)
  }

  ghost predicate ValidLink(body: Body, stmts: seq<Statement>, link: Link) {
    link.at < |stmts| && link.local < |body.pointerDepth|
  }

  /** `link` is handed the target by the link `from` before it, which still has it. */
  ghost predicate Joins(body: Body, stmts: seq<Statement>, from: Link, link: Link)
    requires ValidLink(body, stmts, from) && ValidLink(body, stmts, link)
  {
    && from.at < link.at && HandsOn(body, stmts[link.at], link.local, from.local)
    && Kept(stmts, from.local, from.at + 1, link.at)
  }

  /** The first link takes the address of `q`; every later one is handed it by the one before;
      `p` is the last and still has it at the end. */
  ghost predicate IsChain(body: Body, stmts: seq<Statement>, chain: seq<Link>, p: nat, q: nat) {
    && chain != [] && (forall c :: 0 <= c < |chain| ==> ValidLink(body, stmts, chain[c]))
    && Takes(body, stmts[chain[0].at], chain[0].local, q)
    && (forall c :: 0 < c < |chain| ==> Joins(body, stmts, chain[c - 1], chain[c]))
    && chain[|chain| - 1].local == p && Kept(stmts, p, chain[|chain| - 1].at + 1, |stmts|)
  }

  ghost predicate ByChain(body: Body, stmts: seq<Statement>, p: nat, q: nat) {
    exists chain :: IsChain(body, stmts, chain, p, q)
  }

  // ---- one statement and its transfer ----

  /** The transfer, pointer by pointer, in terms of what the statement looks like. */
  lemma TransferMeaning(body: Body, s: State, stmt: Statement, p: nat, q: nat)
    requires body.Valid() && body.ValidStatement(stmt) && Fits(body, s) && p < body.localCount
    ensures q in Transfer(body, s, stmt)[p]
            <==> Takes(body, stmt, p, q)
                 || (exists r: nat :: r < body.localCount && HandsOn(body, stmt, p, r) && q in s[r])
                 || (q in s[p] && (!Overwrites(stmt, p) || body.pointerDepth[p] == 0))
  {
    if stmt.Assign? && stmt.place == Place(p, []) && body.pointerDepth[p] > 0 {
      match stmt.rvalue {
        case AddressOf(pl) => AddressMeaning(body, s, stmt, pl, p, q);
        case Ref(pl) => AddressMeaning(body, s, stmt, pl, p, q);
        case Use(op) => CopyMeaning(body, s, stmt, op, p, q);
        case Cast(op) => CopyMeaning(body, s, stmt, op, p, q);
        case _ =>
      }
    }
  }

  /** What the statement leaves in `p`'s set, as a predicate on the state before. */
  ghost predicate LeavesIn(body: Body, s: State, stmt: Statement, p: nat, q: nat)
    requires p < |body.pointerDepth| && p < |s|
  {
    || Takes(body, stmt, p, q)
    || (exists r: nat :: r < |s| && HandsOn(body, stmt, p, r) && q in s[r])
    || (q in s[p] && (!Overwrites(stmt, p) || body.pointerDepth[p] == 0))
  }

  lemma TransferMeans(body: Body, s: State, stmt: Statement)
    requires body.Valid() && body.ValidStatement(stmt) && Fits(body, s)
    ensures forall p: nat, q: nat :: p < body.localCount ==> (q in Transfer(body, s, stmt)[p] <==> LeavesIn(body, s, stmt, p, q))
  {
    forall p: nat, q: nat | p < body.localCount
      ensures q in Transfer(body, s, stmt)[p] <==> LeavesIn(body, s, stmt, p, q)
    {
      TransferMeaning(body, s, stmt, p, q);
    }
  }

  lemma AddressMeaning(body: Body, s: State, stmt: Statement, pl: Place, p: nat, q: nat)
    requires body.Valid() && body.ValidStatement(stmt) && Fits(body, s) && p < body.localCount && body.pointerDepth[p] > 0
    requires stmt == Assign(Place(p, []), AddressOf(pl)) || stmt == Assign(Place(p, []), Ref(pl))
    ensures q in Transfer(body, s, stmt)[p]
            <==> Takes(body, stmt, p, q) || (exists r: nat :: r < body.localCount && HandsOn(body, stmt, p, r) && q in s[r])
  {
    if pl.projection != [] && pl.projection[0] == Deref {
      assert HandsOn(body, stmt, p, pl.local);
    } else if q == pl.local {
      assert Takes(body, stmt, p, q);
    }
  }

  lemma CopyMeaning(body: Body, s: State, stmt: Statement, op: Operand, p: nat, q: nat)
    requires body.Valid() && body.ValidStatement(stmt) && Fits(body, s) && p < body.localCount && body.pointerDepth[p] > 0
    requires stmt == Assign(Place(p, []), Use(op)) || stmt == Assign(Place(p, []), Cast(op))
    ensures q in Transfer(body, s, stmt)[p]
            <==> Takes(body, stmt, p, q) || (exists r: nat :: r < body.localCount && HandsOn(body, stmt, p, r) && q in s[r])
  {
    if (op.Copy? || op.Move?) && op.place.projection == [] {
      assert op.place == Place(op.place.local, []);
      assert HandsOn(body, stmt, p, op.place.local);
    }
  }

  // ---- statement lists ----

  lemma ChainExtended(body: Body, init: seq<Statement>, last: Statement, chain: seq<Link>, r: nat, p: nat, q: nat)
    requires IsChain(body, init, chain, r, q) && p < |body.pointerDepth| && HandsOn(body, last, p, r)
    ensures IsChain(body, init + [last], chain + [Link(|init|, p)], p, q)
  {
    var stmts, longer, n := init + [last], chain + [Link(|init|, p)], |chain|;
    assert forall m :: 0 <= m < |init| ==> stmts[m] == init[m];
    forall c | 0 < c < |longer|
      ensures Joins(body, stmts, longer[c - 1], longer[c])
    {
      if c < n { JoinsBefore(body, init, last, chain[c - 1], chain[c]); }
    }
  }

  lemma ChainKept(body: Body, init: seq<Statement>, last: Statement, chain: seq<Link>, p: nat, q: nat)
    requires IsChain(body, init, chain, p, q) && !Overwrites(last, p)
    ensures IsChain(body, init + [last], chain, p, q)
  {
    var stmts := init + [last];
    assert forall m :: 0 <= m < |init| ==> stmts[m] == init[m];
    forall c | 0 < c < |chain|
      ensures Joins(body, stmts, chain[c - 1], chain[c])
    {
      JoinsBefore(body, init, last, chain[c - 1], chain[c]);
    }
  }

  /** A chain that ends before the last statement is a chain without it. */
  lemma ChainEarlier(body: Body, init: seq<Statement>, last: Statement, chain: seq<Link>, p: nat, q: nat)
    requires IsChain(body, init + [last], chain, p, q) && chain[|chain| - 1].at < |init|
    ensures IsChain(body, init, chain, p, q) && !Overwrites(last, p)
  {
    var stmts, end := init + [last], |chain| - 1;
    assert forall m :: 0 <= m < |init| ==> stmts[m] == init[m];
    forall c | 0 <= c < |chain|
      ensures ValidLink(body, init, chain[c])
    {
      if c < end { LinksRise(body, stmts, chain, c, end); }
    }
    forall c | 0 < c < |chain|
      ensures Joins(body, init, chain[c - 1], chain[c])
    {
      JoinsBefore(body, init, last, chain[c - 1], chain[c]);
    }
    assert !Overwrites(stmts[|init|], p);
  }

  /** A longer chain that ends at the last statement is handed on by a chain without it. */
  lemma ChainShortened(body: Body, init: seq<Statement>, last: Statement, chain: seq<Link>, p: nat, q: nat)
    requires IsChain(body, init + [last], chain, p, q) && chain[|chain| - 1].at == |init| && |chain| > 1
    ensures p < |body.pointerDepth| && chain[|chain| - 2].local < |body.pointerDepth|
    ensures HandsOn(body, last, p, chain[|chain| - 2].local)
    ensures IsChain(body, init, chain[..|chain| - 1], chain[|chain| - 2].local, q)
  {
    var stmts, front, end := init + [last], chain[..|chain| - 1], |chain| - 1;
    assert forall m :: 0 <= m < |init| ==> stmts[m] == init[m];
    assert Joins(body, stmts, chain[end - 1], chain[end]);
    forall c | 0 <= c < |front|
      ensures ValidLink(body, init, front[c])
    {
      LinksRise(body, stmts, chain, c, end);
    }
    forall c | 0 < c < |front|
      ensures Joins(body, init, front[c - 1], front[c])
    {
      assert Joins(body, stmts, chain[c - 1], chain[c]);
      JoinsBefore(body, init, last, front[c - 1], front[c]);
    }
  }

  /** Links are in program order. */
  lemma {:induction false} LinksRise(body: Body, stmts: seq<Statement>, chain: seq<Link>, c: nat, d: nat)
    requires forall k :: 0 <= k < |chain| ==> ValidLink(body, stmts, chain[k])
    requires forall k :: 0 < k < |chain| ==> Joins(body, stmts, chain[k - 1], chain[k])
    requires c < d < |chain|
    ensures chain[c].at < chain[d].at
  {
    assert Joins(body, stmts, chain[d - 1], chain[d]);
    if c < d - 1 { LinksRise(body, stmts, chain, c, d - 1); }
  }

  lemma JoinsBefore(body: Body, init: seq<Statement>, last: Statement, from: Link, link: Link)
    requires ValidLink(body, init, from) && ValidLink(body, init, link)
    ensures Joins(body, init, from, link) <==> Joins(body, init + [last], from, link)
  {
    assert forall m :: 0 <= m < |init| ==> (init + [last])[m] == init[m];
  }

  /** Starting with nothing known, `p` points at `q` after the statements exactly when some chain leads there. */
  lemma {:induction false} ChainsExact(body: Body, stmts: seq<Statement>, p: nat, q: nat)
    requires body.Valid() && (forall st :: st in stmts ==> body.ValidStatement(st)) && p < body.localCount
    ensures q in RunAll(body, Nowhere(body), stmts)[p] <==> ByChain(body, stmts, p, q)
    decreases |stmts|
  {
    if stmts != [] {
      var init, last := stmts[..|stmts| - 1], stmts[|stmts| - 1];
      assert stmts == init + [last] && last in stmts;
      var before := RunAll(body, Nowhere(body), init);
      forall r: nat | r < body.localCount
        ensures q in before[r] <==> ByChain(body, init, r, q)
      {
        ChainsExact(body, init, r, q);
      }
      TransferMeaning(body, before, last, p, q);
      if q in RunAll(body, Nowhere(body), stmts)[p] { ChainFound(body, before, init, last, p, q); }
      if ByChain(body, stmts, p, q) { ChainUsed(body, before, init, last, p, q); }
    }
  }

  lemma ChainFound(body: Body, before: State, init: seq<Statement>, last: Statement, p: nat, q: nat)
    requires body.Valid() && Fits(body, before) && p < body.localCount
    requires forall r: nat :: r < body.localCount ==> (q in before[r] <==> ByChain(body, init, r, q))
    requires || Takes(body, last, p, q)
             || (exists r: nat :: r < body.localCount && HandsOn(body, last, p, r) && q in before[r])
             || (q in before[p] && (!Overwrites(last, p) || body.pointerDepth[p] == 0))
    ensures ByChain(body, init + [last], p, q)
  {
    if Takes(body, last, p, q) {
      assert IsChain(body, init + [last], [Link(|init|, p)], p, q);
    } else if r: nat :| r < body.localCount && HandsOn(body, last, p, r) && q in before[r] {
      var chain :| IsChain(body, init, chain, r, q);
      ChainExtended(body, init, last, chain, r, p, q);
    } else {
      var chain :| IsChain(body, init, chain, p, q);
      OnlyPointers(body, init, chain, p, q);
      ChainKept(body, init, last, chain, p, q);
    }
  }

  lemma ChainUsed(body: Body, before: State, init: seq<Statement>, last: Statement, p: nat, q: nat)
    requires body.Valid() && Fits(body, before) && p < body.localCount
    requires forall r: nat :: r < body.localCount ==> (q in before[r] <==> ByChain(body, init, r, q))
    requires ByChain(body, init + [last], p, q)
    ensures || Takes(body, last, p, q)
            || (exists r: nat :: r < body.localCount && HandsOn(body, last, p, r) && q in before[r])
            || (q in before[p] && !Overwrites(last, p))
  {
    var chain: seq<Link> :| IsChain(body, init + [last], chain, p, q);
    if chain[|chain| - 1].at < |init| {
      ChainEarlier(body, init, last, chain, p, q);
    } else if |chain| > 1 {
      ChainShortened(body, init, last, chain, p, q);
      assert ByChain(body, init, chain[|chain| - 2].local, q);
    }
  }

  lemma OnlyPointers(body: Body, stmts: seq<Statement>, chain: seq<Link>, p: nat, q: nat)
    requires IsChain(body, stmts, chain, p, q)
    ensures p < |body.pointerDepth| && body.pointerDepth[p] > 0
  {
    var end := |chain| - 1;
    assert ValidLink(body, stmts, chain[end]);
    if end > 0 { assert Joins(body, stmts, chain[end - 1], chain[end]); }
  }

  // ---- walks ----

  /** The statements a walk runs on its way to its last block. */
  ghost function Passed(body: Body, walk: seq<nat>): (stmts: seq<Statement>)
    requires body.Valid() && IsWalk(body, walk)
    ensures forall st :: st in stmts ==> body.ValidStatement(st)
    decreases |walk|
  {
    if |walk| == 1 then []
    else
      var front := walk[..|walk| - 1];
      assert body.ValidBlock(body.blocks[front[|front| - 1]]);
      Passed(body, front) + body.blocks[front[|front| - 1]].statements
  }

  lemma {:induction false} RunJoined(body: Body, s: State, a: seq<Statement>, b: seq<Statement>)
    requires body.Valid() && Fits(body, s)
    requires (forall st :: st in a ==> body.ValidStatement(st)) && (forall st :: st in b ==> body.ValidStatement(st))
    ensures forall st :: st in a + b ==> body.ValidStatement(st)
    ensures RunAll(body, s, a + b) == RunAll(body, RunAll(body, s, a), b)
    decreases |b|
  {
    if b == [] {
      assert a + b == a;
    } else {
      var init, last := b[..|b| - 1], b[|b| - 1];
      RunJoined(body, s, a, init);
      assert (a + b)[..|a + b| - 1] == a + init && (a + b)[|a + b| - 1] == last;
    }
  }

  lemma {:induction false} AlongPassed(body: Body, walk: seq<nat>)
    requires body.Valid() && IsWalk(body, walk)
    ensures Along(body, walk) == RunAll(body, Nowhere(body), Passed(body, walk))
    decreases |walk|
  {
    if |walk| > 1 {
      var front := walk[..|walk| - 1];
      AlongPassed(body, front);
      assert body.ValidBlock(body.blocks[front[|front| - 1]]);
      RunJoined(body, Nowhere(body), Passed(body, front), body.blocks[front[|front| - 1]].statements);
    }
  }

  /** Some walk to `b`, from anywhere, has a chain to `q` ending in `p` just before statement `i` of `b`. */
  ghost predicate Points(body: Body, b: nat, i: nat, p: nat, q: nat)
    requires body.Valid() && b < |body.blocks| && i <= |body.blocks[b].statements|
  {
    exists walk :: IsWalk(body, walk) && walk[|walk| - 1] == b
                   && ByChain(body, Passed(body, walk) + body.blocks[b].statements[..i], p, q)
  }

  lemma WalkMeaning(body: Body, walk: seq<nat>, i: nat, p: nat, q: nat)
    requires body.Valid() && IsWalk(body, walk) && i <= |body.blocks[walk[|walk| - 1]].statements| && p < body.localCount
    ensures forall st :: st in body.blocks[walk[|walk| - 1]].statements[..i] ==> body.ValidStatement(st)
    ensures q in RunAll(body, Along(body, walk), body.blocks[walk[|walk| - 1]].statements[..i])[p]
            <==> ByChain(body, Passed(body, walk) + body.blocks[walk[|walk| - 1]].statements[..i], p, q)
  {
    var b := walk[|walk| - 1];
    assert body.ValidBlock(body.blocks[b]);
    AlongPassed(body, walk);
    RunJoined(body, Nowhere(body), Passed(body, walk), body.blocks[b].statements[..i]);
    ChainsExact(body, Passed(body, walk) + body.blocks[b].statements[..i], p, q);
  }

  lemma {:induction false} RunMonotone(body: Body, s: State, t: State, stmts: seq<Statement>, p: nat)
    requires body.Valid() && Fits(body, s) && Fits(body, t) && p < body.localCount
    requires forall st :: st in stmts ==> body.ValidStatement(st)
    requires forall r :: 0 <= r < body.localCount ==> s[r] <= t[r]
    ensures RunAll(body, s, stmts)[p] <= RunAll(body, t, stmts)[p]
    decreases |stmts|
  {
    if stmts != [] {
      var init, last := stmts[..|stmts| - 1], stmts[|stmts| - 1];
      assert last in stmts;
      forall r | 0 <= r < body.localCount
        ensures RunAll(body, s, init)[r] <= RunAll(body, t, init)[r]
      {
        RunMonotone(body, s, t, init, r);
      }
    }
  }

  /** The targets known before statement `i` of a block are exactly those that chains lead to. */
  lemma TargetsMeaning(body: Body, b: nat, i: nat, p: nat, q: nat)
    requires body.Valid() && b < |body.blocks| && i <= |body.blocks[b].statements| && p < body.localCount
    ensures forall st :: st in body.blocks[b].statements[..i] ==> body.ValidStatement(st)
    ensures q in RunAll(body, EntryTargets(body, b), body.blocks[b].statements[..i])[p] <==> Points(body, b, i, p, q)
  {
    assert body.ValidBlock(body.blocks[b]);
    var stmts, entry := body.blocks[b].statements[..i], EntryTargets(body, b);
    if q in RunAll(body, entry, stmts)[p] {
      var from := Origin(body, entry, stmts, p, q);
      var walk := WalkFor(body, b, entry, from, q);
      CarriedAlong(body, stmts, p, q, from, Along(body, walk));
      WalkMeaning(body, walk, i, p, q);
    }
    if walk: seq<nat> :| IsWalk(body, walk) && walk[|walk| - 1] == b && ByChain(body, Passed(body, walk) + stmts, p, q) {
      WalkMeaning(body, walk, i, p, q);
      WalkCovered(body, walk);
      RunMonotone(body, Along(body, walk), entry, stmts, p);
    }
  }

  lemma WalkCovered(body: Body, walk: seq<nat>)
    requires body.Valid() && IsWalk(body, walk)
    ensures forall r :: 0 <= r < body.localCount ==> Along(body, walk)[r] <= EntryTargets(body, walk[|walk| - 1])[r]
  {
    forall r, t | 0 <= r < body.localCount && t in Along(body, walk)[r]
      ensures t in EntryTargets(body, walk[|walk| - 1])[r]
    {
      assert MayPoint(body, walk[|walk| - 1], r, t);
    }
  }

  /** At a block's entry: the sets `ComputePointsTo` returns. */
  lemma EntryMeaning(body: Body, b: nat, p: nat, q: nat)
    requires body.Valid() && b < |body.blocks| && p < body.localCount
    ensures q in EntryTargets(body, b)[p] <==> Points(body, b, 0, p, q)
  {
    assert body.blocks[b].statements[..0] == [];
    TargetsMeaning(body, b, 0, p, q);
  }

  /** After `p = &q`, `p` points at `q` and at nothing else. */
  lemma AddressTaken(body: Body, s: State, p: nat, pl: Place, rvalue: Rvalue)
    requires body.Valid() && Fits(body, s) && p < body.localCount && body.pointerDepth[p] > 0
    requires rvalue == AddressOf(pl) || rvalue == Ref(pl)
    requires pl.projection == [] || pl.projection[0] != Deref
    requires body.ValidStatement(Assign(Place(p, []), rvalue))
    ensures Transfer(body, s, Assign(Place(p, []), rvalue))[p] == {pl.local}
    ensures forall r :: 0 <= r < body.localCount && r != p ==> Transfer(body, s, Assign(Place(p, []), rvalue))[r] == s[r]
  {
  }
}
