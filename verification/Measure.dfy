/** Termination measures of the two worklists: how many facts the entry states could still gain. */
module Measure {
  function Sum(s: seq<nat>): nat {
    if s == [] then 0 else s[0] + Sum(s[1..])
  }

  lemma {:induction false} SumMonotone(s: seq<nat>, t: seq<nat>)
    requires |s| == |t| && forall k :: 0 <= k < |s| ==> s[k] <= t[k]
    ensures Sum(s) <= Sum(t)
    ensures (exists k :: 0 <= k < |s| && s[k] < t[k]) ==> Sum(s) < Sum(t)
  {
    if s != [] {
      SumMonotone(s[1..], t[1..]);
      if k :| 0 <= k < |s| && s[k] < t[k] {
        if k > 0 { assert s[1..][k - 1] < t[1..][k - 1]; }
      }
    }
  }

  function Below(n: nat): (s: set<nat>)
    ensures forall x: nat :: x in s <==> x < n
  {
    if n == 0 then {} else Below(n - 1) + {n - 1}
  }

  /** Growing a set inside `Below(n)` leaves less room. */
  lemma RoomShrinks(n: nat, a: set<nat>, b: set<nat>)
    requires a <= b
    ensures |Below(n) - b| <= |Below(n) - a|
    ensures a < b && b <= Below(n) ==> |Below(n) - b| < |Below(n) - a|
  {
    SubsetCard(Below(n) - b, Below(n) - a);
    if a < b && b <= Below(n) {
      var x :| x in b && x !in a;
      assert x in Below(n) - a && x !in Below(n) - b;
      SubsetCard(Below(n) - b, Below(n) - a - {x});
    }
  }

  lemma {:induction false} SubsetCard<T>(a: set<T>, b: set<T>)
    requires a <= b
    ensures |a| <= |b|
    decreases a
  {
    if a != {} {
      var x :| x in a;
      SubsetCard(a - {x}, b - {x});
    }
  }

  // ---- rows of sets ----

  ghost predicate Leq(s: seq<set<nat>>, t: seq<set<nat>>) {
    |s| == |t| && forall p :: 0 <= p < |s| ==> s[p] <= t[p]
  }

  ghost predicate Within(n: nat, s: seq<set<nat>>) {
    forall p, q :: 0 <= p < |s| && q in s[p] ==> q < n
  }

  /** How many more elements below `n` the sets could take. */
  ghost function Room(n: nat, s: seq<set<nat>>): nat {
    Sum(seq(|s|, p requires 0 <= p < |s| => |Below(n) - s[p]|))
  }

  ghost function TotalRoom(n: nat, entry: seq<seq<set<nat>>>): nat {
    Sum(seq(|entry|, b requires 0 <= b < |entry| => Room(n, entry[b])))
  }

  lemma RoomLess(n: nat, s: seq<set<nat>>, t: seq<set<nat>>)
    requires Within(n, s) && Within(n, t) && Leq(s, t)
    ensures Room(n, t) <= Room(n, s)
    ensures s != t ==> Room(n, t) < Room(n, s)
  {
    var rs := seq(|s|, p requires 0 <= p < |s| => |Below(n) - s[p]|);
    var rt := seq(|t|, p requires 0 <= p < |t| => |Below(n) - t[p]|);
    forall p | 0 <= p < |s|
      ensures rt[p] <= rs[p] && (s[p] != t[p] ==> rt[p] < rs[p])
    {
      RoomShrinks(n, s[p], t[p]);
      assert t[p] <= Below(n);
    }
    SumMonotone(rt, rs);
    if s != t {
      var p :| 0 <= p < |s| && s[p] != t[p];
      assert rt[p] < rs[p];
    }
  }

  lemma TotalRoomLess(n: nat, entry: seq<seq<set<nat>>>, b: nat, t: seq<set<nat>>)
    requires b < |entry| && Within(n, entry[b]) && Within(n, t)
    requires Leq(entry[b], t) && entry[b] != t
    ensures TotalRoom(n, entry[b := t]) < TotalRoom(n, entry)
  {
    RoomLess(n, entry[b], t);
    var after := entry[b := t];
    var re := seq(|entry|, k requires 0 <= k < |entry| => Room(n, entry[k]));
    var ra := seq(|after|, k requires 0 <= k < |after| => Room(n, after[k]));
    assert ra[b] < re[b];
    SumMonotone(ra, re);
  }
}
