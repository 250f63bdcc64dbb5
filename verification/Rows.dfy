/** A block's in-state as the analysis stores it: three rows of words. */
module Rows {
  import opened Bits
  import opened Flow
  import opened Measure

  datatype Rows = Rows(uninit: seq<nat>, moved: seq<nat>, owned: seq<nat>) {
    ghost predicate Wide(words: nat) {
      && |uninit| == |moved| == |owned| == words
      && Row(uninit) && Row(moved) && Row(owned)
    }
  }

  /** What the rows say about local `x`. */
  function View(r: Rows, words: nat, x: nat): LocalState
    requires |r.uninit| == |r.moved| == |r.owned| == words && x < WORD_BITS * words
  {
    LocalState(IsSet(r.uninit, x), IsSet(r.moved, x), IsSet(r.owned, x))
  }

  /** The number of words that hold one bit per local. */
  function WordsFor(locals: nat): (words: nat)
    ensures locals <= WORD_BITS * words < locals + WORD_BITS
  {
    (locals + WORD_BITS - 1) / WORD_BITS
  }

  lemma {:induction false} ZeroRow(row: seq<nat>, x: nat)
    requires forall k :: 0 <= k < |row| ==> row[k] == 0
    requires x < WORD_BITS * |row|
    ensures !IsSet(row, x)
  {
    ZeroDigits(x % WORD_BITS);
  }

  method MarkMoved(r: Rows, ghost words: nat, path: nat) returns (s: Rows)
    requires r.Wide(words) && path < WORD_BITS * words
    ensures s.Wide(words)
    ensures forall x: nat :: x < WORD_BITS * words
                             ==> View(s, words, x) == if x == path then LocalState(true, true, false) else View(r, words, x)
  {
    s := Rows(SetBit(r.uninit, path), SetBit(r.moved, path), ClearBit(r.owned, path));
  }

  method MarkWritten(r: Rows, ghost words: nat, path: nat) returns (s: Rows)
    requires r.Wide(words) && path < WORD_BITS * words
    ensures s.Wide(words)
    ensures forall x: nat :: x < WORD_BITS * words
                             ==> View(s, words, x) == if x == path then LocalState(false, false, View(r, words, x).owned)
                                                      else View(r, words, x)
  {
    s := Rows(ClearBit(r.uninit, path), ClearBit(r.moved, path), r.owned);
  }

  method MarkAssigned(r: Rows, ghost words: nat, path: nat) returns (s: Rows)
    requires r.Wide(words) && path < WORD_BITS * words
    ensures s.Wide(words)
    ensures forall x: nat :: x < WORD_BITS * words
                             ==> View(s, words, x) == if x == path then LocalState(false, false, true) else View(r, words, x)
  {
    s := Rows(ClearBit(r.uninit, path), ClearBit(r.moved, path), SetBit(r.owned, path));
  }

  /** `r` is `t` and `s` joined word by word. */
  ghost predicate Joined(t: seq<nat>, s: seq<nat>, r: seq<nat>) {
    |t| == |s| == |r| && forall j :: 0 <= j < |t| ==> r[j] == Or(t[j], s[j])
  }

  lemma JoinedBits(t: seq<nat>, s: seq<nat>, r: seq<nat>)
    requires Row(t) && Row(s) && Joined(t, s, r)
    ensures Row(r)
    ensures forall x: nat :: x < WORD_BITS * |t| ==> IsSet(r, x) == (IsSet(t, x) || IsSet(s, x))
  {
    forall k | 0 <= k < |r|
      ensures r[k] < Pow2(WORD_BITS)
    {
      OrFits(t[k], s[k], WORD_BITS);
    }
    forall x: nat | x < WORD_BITS * |t|
      ensures IsSet(r, x) == (IsSet(t, x) || IsSet(s, x))
    {
      OrDigits(t[x / WORD_BITS], s[x / WORD_BITS], x % WORD_BITS);
    }
  }

  /** A word changes exactly when it gains a bit. */
  lemma JoinedRow(t: seq<nat>, s: seq<nat>, r: seq<nat>)
    requires Row(t) && Row(s) && Joined(t, s, r)
    ensures Row(r)
    ensures forall x: nat :: x < WORD_BITS * |t| ==> IsSet(r, x) == (IsSet(t, x) || IsSet(s, x))
    ensures (exists j :: 0 <= j < |r| && r[j] != t[j]) <==> exists x: nat :: x < WORD_BITS * |t| && IsSet(s, x) && !IsSet(t, x)
  {
    JoinedBits(t, s, r);
    if j :| 0 <= j < |r| && r[j] != t[j] {
      var i := DifferingDigit(r[j], t[j], WORD_BITS);
      var x := WORD_BITS * j + i;
      assert x / WORD_BITS == j && x % WORD_BITS == i;
      assert IsSet(r, x) != IsSet(t, x);
      assert IsSet(s, x) && !IsSet(t, x);
    }
    if x: nat :| x < WORD_BITS * |t| && IsSet(s, x) && !IsSet(t, x) {
      assert IsSet(r, x);
      assert r[x / WORD_BITS] != t[x / WORD_BITS];
    }
  }

  /** `t |= s`, word by word, noting whether any word of `t` changed. */
  method JoinRow(t: seq<nat>, s: seq<nat>) returns (r: seq<nat>, changed: bool)
    requires Row(t) && Row(s) && |t| == |s|
    ensures Row(r) && |r| == |t|
    ensures forall x: nat :: x < WORD_BITS * |t| ==> IsSet(r, x) == (IsSet(t, x) || IsSet(s, x))
    ensures changed <==> exists x: nat :: x < WORD_BITS * |t| && IsSet(s, x) && !IsSet(t, x)
    ensures !changed ==> r == t
  {
    r, changed := t, false;
    for k := 0 to |t|
      invariant |r| == |t| && (forall j :: 0 <= j < k ==> r[j] == Or(t[j], s[j])) && (forall j :: k <= j < |t| ==> r[j] == t[j])
      invariant changed <==> exists j :: 0 <= j < k && r[j] != t[j]
    {
      var joined := Or(r[k], s[k]);
      changed := changed || joined != r[k];
      r := r[k := joined];
    }
    JoinedRow(t, s, r);
    if !changed { assert r == t; }
  }

  /** Joins all three rows. */
  method Join(t: Rows, s: Rows, ghost words: nat) returns (r: Rows, changed: bool)
    requires t.Wide(words) && s.Wide(words)
    ensures r.Wide(words)
    ensures forall x: nat, bit :: x < WORD_BITS * words
                                  ==> View(r, words, x).Has(bit) == (View(t, words, x).Has(bit) || View(s, words, x).Has(bit))
    ensures changed <==> exists x: nat, bit :: x < WORD_BITS * words && View(s, words, x).Has(bit) && !View(t, words, x).Has(bit)
    ensures !changed ==> r == t
  {
    var uninit, c1 := JoinRow(t.uninit, s.uninit);
    var moved, c2 := JoinRow(t.moved, s.moved);
    var owned, c3 := JoinRow(t.owned, s.owned);
    r, changed := Rows(uninit, moved, owned), c1 || c2 || c3;
    if c1 {
      ghost var x: nat :| x < WORD_BITS * words && IsSet(s.uninit, x) && !IsSet(t.uninit, x);
      assert View(s, words, x).Has(UninitBit) && !View(t, words, x).Has(UninitBit);
    } else if c2 {
      ghost var x: nat :| x < WORD_BITS * words && IsSet(s.moved, x) && !IsSet(t.moved, x);
      assert View(s, words, x).Has(MovedBit) && !View(t, words, x).Has(MovedBit);
    } else if c3 {
      ghost var x: nat :| x < WORD_BITS * words && IsSet(s.owned, x) && !IsSet(t.owned, x);
      assert View(s, words, x).Has(OwnedBit) && !View(t, words, x).Has(OwnedBit);
    }
    if x: nat, bit :| x < WORD_BITS * words && View(s, words, x).Has(bit) && !View(t, words, x).Has(bit) {
      assert c1 || c2 || c3 by {
        match bit case UninitBit => case MovedBit => case OwnedBit =>
      }
    }
  }

  // ---- the rows as sets, for the termination measure ----

  ghost function Members(row: seq<nat>, n: nat): set<nat>
    requires n <= WORD_BITS * |row|
  {
    set x: nat | x in Below(n) && IsSet(row, x)
  }

  ghost function AsSets(r: Rows, words: nat, n: nat): (s: seq<set<nat>>)
    requires |r.uninit| == |r.moved| == |r.owned| == words && n <= WORD_BITS * words
    ensures Within(n, s)
  {
    [Members(r.uninit, n), Members(r.moved, n), Members(r.owned, n)]
  }

  /** Gaining a bit makes the sets strictly larger. */
  lemma SetsGrow(t: Rows, r: Rows, words: nat, n: nat, x: nat, bit: Bit)
    requires t.Wide(words) && r.Wide(words) && n <= WORD_BITS * words
    requires forall y: nat, b :: y < n && View(t, words, y).Has(b) ==> View(r, words, y).Has(b)
    requires x < n && View(r, words, x).Has(bit) && !View(t, words, x).Has(bit)
    ensures Leq(AsSets(t, words, n), AsSets(r, words, n)) && AsSets(t, words, n) != AsSets(r, words, n)
  {
    var a, b := AsSets(t, words, n), AsSets(r, words, n);
    forall y: nat | y < n
      ensures IsSet(t.uninit, y) ==> IsSet(r.uninit, y)
      ensures IsSet(t.moved, y) ==> IsSet(r.moved, y)
      ensures IsSet(t.owned, y) ==> IsSet(r.owned, y)
    {
      assert View(t, words, y).Has(UninitBit) ==> View(r, words, y).Has(UninitBit);
      assert View(t, words, y).Has(MovedBit) ==> View(r, words, y).Has(MovedBit);
      assert View(t, words, y).Has(OwnedBit) ==> View(r, words, y).Has(OwnedBit);
    }
    match bit {
      case UninitBit => assert x in b[0] && x !in a[0];
      case MovedBit => assert x in b[1] && x !in a[1];
      case OwnedBit => assert x in b[2] && x !in a[2];
    }
  }
}
