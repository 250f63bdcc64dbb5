/** `infer_unsized_array_len`: the length of an array that its initializer list determines. */
module ArrayLength {
  import opened CTypes

  datatype Designator = NoDesignator | Subscript(index: int) | FieldDesignator | RangeDesignator

  /** One initializer and the scalar slots it fills. */
  datatype Item = Item(designator: Designator, slots: nat)

  predicate Accepted(item: Item) {
    item.designator.NoDesignator? || (item.designator.Subscript? && item.designator.index >= 0)
  }

  /** An initializer for no slot still takes one. */
  function Advance(item: Item): nat {
    if item.slots == 0 then 1 else item.slots
  }

  /** The slot an item starts at, when `cursor` is the next free one. A subscript that names the element the
      cursor is in does not move the cursor. */
  function StartSlot(item: Item, cursor: nat, per: nat): nat
    requires per > 0 && Accepted(item)
  {
    if item.designator.Subscript? && item.designator.index != cursor / per then item.designator.index * per else cursor
  }

  /** The slot after the last one of the last item. */
  function Cursor(items: seq<Item>, per: nat): nat
    requires per > 0 && forall i :: i in items ==> Accepted(i)
  {
    if items == [] then 0
    else
      var last := items[|items| - 1];
      StartSlot(last, Cursor(items[..|items| - 1], per), per) + Advance(last)
  }

  /** An item fills its slots, and at least one, from the cursor on; or from the start of the element its subscript
      names, as section 6.7.9 of ISO C11 has it, unless the cursor is inside that very element. */
  lemma ItemFills(items: seq<Item>, item: Item, per: nat)
    requires per > 0 && (forall i :: i in items ==> Accepted(i)) && Accepted(item)
    ensures forall i :: i in items + [item] ==> Accepted(i)
    ensures var before, after := Cursor(items, per), Cursor(items + [item], per);
            after - Max(1, item.slots)
            == if item.designator.Subscript?
                  && !(item.designator.index * per <= before < item.designator.index * per + per)
               then item.designator.index * per else before
  {
    assert (items + [item])[..|items|] == items;
    if item.designator.Subscript? { InsideElement(Cursor(items, per), item.designator.index, per); }
  }

  lemma InsideElement(cursor: nat, index: nat, per: nat)
    requires per > 0
    ensures index == cursor / per <==> index * per <= cursor < index * per + per
  {
    if index * per <= cursor < index * per + per { Quotient(index, cursor - index * per, per); }
  }

  /** After an item with a subscript the cursor is past that element's start by the slots filled, unless the items before
      ended inside that very element. */
  lemma SubscriptStarts(items: seq<Item>, item: Item, per: nat)
    requires per > 0 && (forall i :: i in items ==> Accepted(i)) && Accepted(item) && item.designator.Subscript?
    ensures forall i :: i in items + [item] ==> Accepted(i)
    ensures Cursor(items + [item], per) == item.designator.index * per + Max(1, item.slots)
            <==> item.designator.index != Cursor(items, per) / per || Cursor(items, per) % per == 0
  {
    assert (items + [item])[..|items|] == items;
    StartOfElement(Cursor(items, per), item.designator.index, per);
  }

  lemma StartOfElement(cursor: nat, index: nat, per: nat)
    requires per > 0
    ensures cursor == index * per <==> index == cursor / per && cursor % per == 0
  {
    if cursor == index * per { Quotient(index, 0, per); }
  }

  /** An array of `n` elements has room for every item. */
  ghost predicate Covers(items: seq<Item>, per: nat, n: nat)
    requires per > 0 && forall i :: i in items ==> Accepted(i)
  {
    forall k :: 0 < k <= |items| ==> Cursor(items[..k], per) <= n * per
  }

  lemma Difference(a: int, b: int, per: int)
    ensures (a - b) * per == a * per - b * per
  {
  }

  lemma Together(a: nat, b: nat, per: nat)
    ensures (a + b) * per == a * per + b * per
  {
  }

  lemma Scaled(a: nat, b: nat, per: nat)
    requires per > 0
    ensures a <= b <==> a * per <= b * per
  {
    Difference(a, b, per);
    Difference(b, a, per);
    if a > b { AtLeastOnce(a - b, per); }
    if b > a { AtLeastOnce(b - a, per); }
  }

  /** `total` slots as whole elements and a rest, and the elements it takes to hold them. */
  method Split(total: nat, per: nat) returns (whole: nat, rest: nat, needed: nat)
    requires per > 0
    ensures total == whole * per + rest && rest < per && needed == if rest == 0 then whole else whole + 1
  {
    whole, rest, needed := total / per, total % per, (total + per - 1) / per;
    Ceiling(total / per, total % per, per);
  }

  lemma Ceiling(whole: nat, rest: nat, per: nat)
    requires rest < per
    ensures (whole * per + rest + per - 1) / per == if rest == 0 then whole else whole + 1
  {
    if rest == 0 {
      Quotient(whole, per - 1, per);
    } else {
      Quotient(whole + 1, rest - 1, per);
    }
  }

  /** How many elements the slots up to `index * per + total` need. */
  lemma JustEnough(index: nat, whole: nat, rest: nat, per: nat, n: nat)
    requires rest < per
    ensures index * per + (whole * per + rest) <= n * per <==> index + (if rest == 0 then whole else whole + 1) <= n
  {
    var low := index + whole;
    Together(index, whole, per);
    if low < n {
      Scaled(low + 1, n, per);
      Together(low, 1, per);
    } else {
      Scaled(n, low, per);
      Scaled(low, n, per);
    }
  }

  lemma CoversMore(items: seq<Item>, item: Item, per: nat, n: nat)
    requires per > 0 && (forall i :: i in items ==> Accepted(i)) && Accepted(item)
    ensures forall i :: i in items + [item] ==> Accepted(i)
    ensures Covers(items + [item], per, n) <==> Covers(items, per, n) && Cursor(items + [item], per) <= n * per
  {
    var more := items + [item];
    assert more[..|more|] == more;
    forall k | 0 < k <= |items|
      ensures more[..k] == items[..k]
    {
    }
  }

  /** The state of the loop after `items`: the cursor as an element and a slot in it, and the least length. */
  ghost predicate Measured(items: seq<Item>, per: nat, nextIndex: nat, used: nat, maxLen: nat) {
    && per > 0 && used < per && (forall i :: i in items ==> Accepted(i))
    && Cursor(items, per) == nextIndex * per + used
    && forall n: nat :: Covers(items, per, n) <==> maxLen <= n
  }

  lemma CursorMore(items: seq<Item>, per: nat, nextIndex: nat, used: nat, item: Item, index: nat)
    requires used < per && (forall i :: i in items ==> Accepted(i)) && Accepted(item)
    requires Cursor(items, per) == nextIndex * per + used
    requires index == if item.designator.Subscript? then item.designator.index else nextIndex
    ensures forall i :: i in items + [item] ==> Accepted(i)
    ensures Cursor(items + [item], per) == index * per + ((if index != nextIndex then 0 else used) + Advance(item))
  {
    Quotient(nextIndex, used, per);
    assert (items + [item])[..|items|] == items;
  }

  lemma MeasuredMore(items: seq<Item>, per: nat, nextIndex: nat, used: nat, maxLen: nat, item: Item,
                     index: nat, whole: nat, rest: nat, needed: nat)
    requires Measured(items, per, nextIndex, used, maxLen) && Accepted(item)
    requires index == if item.designator.Subscript? then item.designator.index else nextIndex
    requires whole * per + rest == (if index != nextIndex then 0 else used) + Advance(item)
    requires rest < per && needed == if rest == 0 then whole else whole + 1
    ensures Measured(items + [item], per, index + whole, rest, Max(maxLen, index + needed))
  {
    var more := items + [item];
    assert forall i :: i in more ==> i in items || i == item;
    CursorMore(items, per, nextIndex, used, item, index);
    Together(index, whole, per);
    forall n: nat
      ensures Covers(more, per, n) <==> maxLen <= n && index + needed <= n
    {
      CoversMore(items, item, per, n);
      JustEnough(index, whole, rest, per, n);
    }
  }

  /** One turn of the loop. */
  method Take(ghost items: seq<Item>, item: Item, per: nat, nextIndex: nat, used: nat, maxLen: nat)
    returns (nextIndex': nat, used': nat, maxLen': nat)
    requires Measured(items, per, nextIndex, used, maxLen) && Accepted(item)
    ensures Measured(items + [item], per, nextIndex', used', maxLen')
  {
    var index := if item.designator.Subscript? then item.designator.index else nextIndex;
    var whole, rest, needed := Split((if index != nextIndex then 0 else used) + Advance(item), per);
    MeasuredMore(items, per, nextIndex, used, maxLen, item, index, whole, rest, needed);
    return index + whole, rest, Max(maxLen, index + needed);
  }

  /** The least length that covers every item, or nothing if some designator is not a non-negative subscript. */
  method InferUnsizedArrayLen(items: seq<Item>, per: nat) returns (r: Option<nat>)
    requires per > 0
    ensures r.Some? <==> forall i :: i in items ==> Accepted(i)
    ensures r.Some? <==> forall i :: i in items ==> i.designator.NoDesignator? || (i.designator.Subscript? && i.designator.index >= 0)
    ensures r.Some? ==> forall n: nat :: Covers(items, per, n) <==> r.value <= n
  {
    var nextIndex: nat, maxLen: nat, used: nat := 0, 0, 0;
    for k := 0 to |items|
      invariant Measured(items[..k], per, nextIndex, used, maxLen)
    {
      if !Accepted(items[k]) { return None; }
      nextIndex, used, maxLen := Take(items[..k], items[k], per, nextIndex, used, maxLen);
      assert items[..k + 1] == items[..k] + [items[k]];
    }
    assert items[..|items|] == items;
    r := Some(maxLen);
  }
}
