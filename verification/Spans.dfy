/** Source spans packed into eight bytes, with a table for those that do not fit. */
module Spans {
  datatype SpanData = SpanData(start: nat, end: nat, context: nat)

  /** A `u16`, a `u32` and a `u16`. */
  datatype Span = Span(fileIdOrTag: nat, startOrKey: nat, length: nat)

  const U16: nat := 0x1_0000
  const U32: nat := 0x1_0000_0000
  const INTERNED_TAG: nat := 0xFFFF

  /** The span with its ends in order. */
  function Ordered(d: SpanData): (r: SpanData)
    ensures r.start <= r.end
  {
    if d.start > d.end then SpanData(d.end, d.start, d.context) else d
  }

  /** Whether ordered data fits in the span itself. */
  predicate FitsInline(d: SpanData) {
    d.start <= d.end && d.context < U16 && d.context != INTERNED_TAG && d.end - d.start < U16 && d.start < U32
  }

  class InternTable {
    var data: seq<SpanData>
    var dedup: map<SpanData, nat>

    /** The map inverts the list, which has no duplicates and nothing that fits inline. */
    ghost predicate Valid()
      reads this
    {
      && (forall d :: d in dedup ==> dedup[d] < |data| && data[dedup[d]] == d)
      && (forall k :: 0 <= k < |data| ==> data[k] in dedup && dedup[data[k]] == k)
      && (forall k :: 0 <= k < |data| ==> data[k].start <= data[k].end && !FitsInline(data[k]))
    }

    /** The spans this table can have handed out. */
    ghost predicate Issued(s: Span)
      reads this
    {
      if s.fileIdOrTag == INTERNED_TAG then s.startOrKey < |data| && s.length == 0
      else s.fileIdOrTag < U16 && s.startOrKey < U32 && s.length < U16
    }

    constructor ()
      ensures Valid() && data == []
    {
      data, dedup := [], map[];
    }

    /** `Span::new`. Fewer than 2^32 spans have been interned so far. */
    method New(d: SpanData) returns (s: Span)
      requires Valid() && |data| < U32
      modifies this
      ensures Valid() && Issued(s) && Decode(s) == Ordered(d)
      ensures old(data) <= data && |data| <= |old(data)| + 1
      ensures forall t :: old(Issued(t)) ==> Issued(t) && Decode(t) == old(Decode(t))
    {
      var d := Ordered(d);
      if d.context < U16 && d.context != INTERNED_TAG && d.end - d.start < U16 && d.start < U32 {
        return Span(d.context, d.start, d.end - d.start);
      }
      var key;
      if d in dedup {
        key := dedup[d];
      } else {
        key := |data| % U32;
        data := data + [d];
        dedup := dedup[d := key];
      }
      s := Span(INTERNED_TAG, key, 0);
    }

    /** `Span::data`. */
    function Decode(s: Span): SpanData
      requires Issued(s)
      reads this
    {
      if s.fileIdOrTag == INTERNED_TAG then data[s.startOrKey]
      else SpanData(s.startOrKey, s.startOrKey + s.length, s.fileIdOrTag)
    }

    /** Two spans are equal exactly when they stand for the same data. */
    lemma EqualIffSameData(s: Span, t: Span)
      requires Valid() && Issued(s) && Issued(t)
      ensures s == t <==> Decode(s) == Decode(t)
    {
      if Decode(s) == Decode(t) {
        if s.fileIdOrTag == INTERNED_TAG {
          assert dedup[data[s.startOrKey]] == s.startOrKey;
        }
        if t.fileIdOrTag == INTERNED_TAG {
          assert dedup[data[t.startOrKey]] == t.startOrKey;
        }
      }
    }
  }

  /** Any sequence of `new` calls: every span decodes to its ordered data for good, and two spans are equal
      exactly when their ordered data are. */
  method NewAll(table: InternTable, inputs: seq<SpanData>) returns (spans: seq<Span>)
    requires table.Valid() && |table.data| + |inputs| < U32
    modifies table
    ensures table.Valid() && |spans| == |inputs|
    ensures forall k :: 0 <= k < |inputs| ==> table.Issued(spans[k]) && table.Decode(spans[k]) == Ordered(inputs[k])
    ensures forall j, k :: 0 <= j < |inputs| && 0 <= k < |inputs| ==> (spans[j] == spans[k] <==> Ordered(inputs[j]) == Ordered(inputs[k]))
  {
    spans := [];
    for n := 0 to |inputs|
      invariant table.Valid() && |spans| == n && |table.data| + |inputs| - n < U32
      invariant forall k :: 0 <= k < n ==> table.Issued(spans[k]) && table.Decode(spans[k]) == Ordered(inputs[k])
    {
      var s := table.New(inputs[n]);
      spans := spans + [s];
    }
    forall j, k | 0 <= j < |inputs| && 0 <= k < |inputs|
      ensures spans[j] == spans[k] <==> Ordered(inputs[j]) == Ordered(inputs[k])
    {
      table.EqualIffSameData(spans[j], spans[k]);
    }
  }
}
