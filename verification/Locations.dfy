/** Numbering of program points: `LocationTable`. */
module Locations {
  import opened Mir

  /** Points of the blocks before `b`: two for every statement and two for every terminator. */
  function Base(body: Body, b: nat): nat
    requires b <= |body.blocks|
  {
    if b == 0 then 0 else Base(body, b - 1) + (|body.blocks[b - 1].statements| + 1) * 2
  }

  predicate IsLocation(body: Body, b: nat, i: nat) {
    b < |body.blocks| && i <= |body.blocks[b].statements|
  }

  function Start(body: Body, b: nat, i: nat): nat
    requires IsLocation(body, b, i)
  {
    Base(body, b) + i * 2
  }

  function Mid(body: Body, b: nat, i: nat): nat
    requires IsLocation(body, b, i)
  {
    Base(body, b) + i * 2 + 1
  }

  lemma {:induction false} BaseMonotone(body: Body, b: nat, c: nat)
    requires b < c <= |body.blocks|
    ensures Base(body, b) + (|body.blocks[b].statements| + 1) * 2 <= Base(body, c)
  {
    if b + 1 < c { BaseMonotone(body, b, c - 1); }
  }

  lemma {:induction false} BaseEven(body: Body, b: nat)
    requires b <= |body.blocks|
    ensures Base(body, b) % 2 == 0
  {
    if b > 0 { BaseEven(body, b - 1); }
  }

  /** Locations are numbered in order, and no start point is a mid point. */
  lemma PointsDistinct(body: Body, b: nat, i: nat, c: nat, j: nat)
    requires IsLocation(body, b, i) && IsLocation(body, c, j)
    ensures Mid(body, b, i) < Mid(body, c, j) <==> b < c || (b == c && i < j)
    ensures Mid(body, b, i) == Mid(body, c, j) <==> b == c && i == j
    ensures Start(body, b, i) == Start(body, c, j) <==> b == c && i == j
    ensures Start(body, b, i) != Mid(body, c, j)
  {
    BaseEven(body, b);
    BaseEven(body, c);
    if b < c { BaseMonotone(body, b, c); }
    if c < b { BaseMonotone(body, c, b); }
  }

  /** Points are numbered without gaps from 0: a location's start, then its middle, then the next location's start. */
  lemma PointsDense(body: Body, b: nat, i: nat)
    requires IsLocation(body, b, i)
    ensures |body.blocks| > 0 && Start(body, 0, 0) == 0 && Mid(body, b, i) == Start(body, b, i) + 1
    ensures i < |body.blocks[b].statements| ==> Start(body, b, i + 1) == Mid(body, b, i) + 1
    ensures i == |body.blocks[b].statements| && b + 1 < |body.blocks| ==> Start(body, b + 1, 0) == Mid(body, b, i) + 1
  {
  }

  /** `bases` holds the number of points before each of its blocks. */
  ghost predicate Numbers(body: Body, bases: seq<nat>) {
    |bases| <= |body.blocks| && forall k :: 0 <= k < |bases| ==> bases[k] == Base(body, k)
  }

  lemma NumbersMore(body: Body, bases: seq<nat>)
    requires Numbers(body, bases) && |bases| < |body.blocks|
    ensures Numbers(body, bases + [Base(body, |bases|)])
  {
    var more := bases + [Base(body, |bases|)];
    forall k | 0 <= k < |more|
      ensures more[k] == Base(body, k)
    {
      if k < |bases| { assert more[k] == bases[k]; }
    }
  }

  class LocationTable {
    var statementsBeforeBlock: seq<nat>

    ghost predicate Describes(body: Body)
      reads this
    {
      |statementsBeforeBlock| == |body.blocks| && Numbers(body, statementsBeforeBlock)
    }

    constructor (body: Body)
      ensures Describes(body)
    {
      var numPoints: nat := 0;
      var bases: seq<nat> := [];
      for b := 0 to |body.blocks|
        invariant numPoints == Base(body, b) && |bases| == b && Numbers(body, bases)
      {
        NumbersMore(body, bases);
        bases := bases + [numPoints];
        numPoints := numPoints + (|body.blocks[b].statements| + 1) * 2;
      }
      statementsBeforeBlock := bases;
    }

    function StartIndex(ghost body: Body, b: nat, i: nat): (point: nat)
      requires Describes(body) && IsLocation(body, b, i)
      reads this
      ensures point == Start(body, b, i)
    {
      statementsBeforeBlock[b] + i * 2
    }

    function MidIndex(ghost body: Body, b: nat, i: nat): (point: nat)
      requires Describes(body) && IsLocation(body, b, i)
      reads this
      ensures point == Mid(body, b, i)
    {
      statementsBeforeBlock[b] + i * 2 + 1
    }

    /** Finds the block by scanning the bases from the back; inverts both numberings. */
    method ToLocation(point: nat, ghost body: Body) returns (block: nat, i: nat)
      requires Describes(body) && |body.blocks| > 0
      ensures block < |body.blocks|
      ensures forall b: nat, k: nat :: IsLocation(body, b, k) && (point == Start(body, b, k) || point == Mid(body, b, k))
                             ==> block == b && i == k
    {
      block := |statementsBeforeBlock| - 1;
      while statementsBeforeBlock[block] > point
        invariant block < |body.blocks|
        invariant forall c :: block < c < |body.blocks| ==> Base(body, c) > point
      {
        block := block - 1;
      }
      i := (point - statementsBeforeBlock[block]) / 2;
      forall b: nat, k: nat | IsLocation(body, b, k) && (point == Start(body, b, k) || point == Mid(body, b, k))
        ensures block == b && i == k
      {
        if b < block { BaseMonotone(body, b, block); }
      }
    }
  }
}
