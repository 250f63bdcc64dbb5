/** Test symbols: every path segment is written with its length, so the symbol can be read back. */
module Mangling {
  /** Characters stand for bytes. */
  type Text = string

  datatype Option<+T> = None | Some(value: T)

  function DigitChar(d: nat): (c: char)
    requires d < 10
    ensures c != '_'
  {
    (d + '0' as int) as char
  }

  /** `usize::to_string`. */
  function Decimal(n: nat): (s: Text)
    ensures s != []
  {
    if n < 10 then [DigitChar(n)] else Decimal(n / 10) + [DigitChar(n % 10)]
  }

  function Piece(segment: Text): Text {
    "_" + Decimal(|segment|) + "_" + segment
  }

  function Pieces(segments: seq<Text>): Text {
    if segments == [] then "" else Piece(segments[0]) + Pieces(segments[1..])
  }

  const PREFIX := "__co2_test"

  /** `co2_test_symbol_suffix`. */
  method SymbolSuffix(modulePath: seq<Text>, name: Text) returns (suffix: Text)
    ensures suffix == Pieces(modulePath + [name])
  {
    suffix := "";
    var segments := modulePath + [name];
    for k := 0 to |segments|
      invariant suffix + Pieces(segments[k..]) == Pieces(segments)
    {
      assert segments[k..][1..] == segments[k + 1..];
      ghost var before := suffix;
      suffix := suffix + "_";
      suffix := suffix + Decimal(|segments[k]|);
      suffix := suffix + "_";
      suffix := suffix + segments[k];
      assert suffix == before + Piece(segments[k]);
      assert (before + Piece(segments[k])) + Pieces(segments[k + 1..]) == before + Pieces(segments[k..]);
    }
  }

  method SymbolName(modulePath: seq<Text>, name: Text) returns (symbol: Text)
    ensures symbol == PREFIX + Pieces(modulePath + [name])
  {
    var suffix := SymbolSuffix(modulePath, name);
    symbol := PREFIX + suffix;
  }

  // ---- reading a symbol back ----

  predicate IsDigit(c: char) {
    '0' <= c <= '9'
  }

  /** Digits up to the next underscore, added to what has been read so far. */
  function ReadNumber(s: Text, sofar: nat): (r: Option<(nat, Text)>)
    ensures r.Some? ==> |r.value.1| < |s|
    decreases |s|
  {
    if s == "" then None
    else if s[0] == '_' then Some((sofar, s[1..]))
    else if IsDigit(s[0]) then ReadNumber(s[1..], 10 * sofar + (s[0] as int - '0' as int))
    else None
  }

  function Decode(s: Text): Option<seq<Text>>
    decreases |s|
  {
    if s == "" then Some([])
    else if s[0] != '_' then None
    else
      var n := ReadNumber(s[1..], 0);
      if n.None? || n.value.0 > |n.value.1| then None
      else
        var (length, rest) := n.value;
        var more := Decode(rest[length..]);
        if more.None? then None else Some([rest[..length]] + more.value)
  }

  function Pow10(k: nat): nat {
    if k == 0 then 1 else 10 * Pow10(k - 1)
  }

  lemma ReadDigit(d: nat, rest: Text, sofar: nat)
    requires d < 10
    ensures ReadNumber([DigitChar(d)] + rest, sofar) == ReadNumber(rest, 10 * sofar + d)
  {
    var s := [DigitChar(d)] + rest;
    assert s[1..] == rest;
    assert IsDigit(s[0]) && s[0] as int - '0' as int == d;
  }

  lemma Shifted(sofar: nat, high: nat, n: nat)
    ensures 10 * (sofar * high + n / 10) + n % 10 == sofar * (10 * high) + n
  {
    assert sofar * (10 * high) == 10 * (sofar * high);
  }

  /** Reading a printed number continues the number before it. */
  lemma {:induction false} ReadDecimal(n: nat, rest: Text, sofar: nat)
    ensures ReadNumber(Decimal(n) + rest, sofar) == ReadNumber(rest, sofar * Pow10(|Decimal(n)|) + n)
    decreases n
  {
    if n < 10 {
      ReadDigit(n, rest, sofar);
      assert Pow10(1) == 10 * Pow10(0) == 10;
    } else {
      var tail := [DigitChar(n % 10)] + rest;
      var high := Pow10(|Decimal(n / 10)|);
      assert Decimal(n) + rest == Decimal(n / 10) + tail by {
        assert Decimal(n) == Decimal(n / 10) + [DigitChar(n % 10)];
      }
      ReadDecimal(n / 10, tail, sofar);
      ReadDigit(n % 10, rest, sofar * high + n / 10);
      assert Pow10(|Decimal(n)|) == 10 * high;
      Shifted(sofar, high, n);
    }
  }

  /** A suffix reads back as the segments it was made of. */
  lemma {:induction false} DecodePieces(segments: seq<Text>)
    ensures Decode(Pieces(segments)) == Some(segments)
    decreases |segments|
  {
    if segments != [] {
      var first, more := segments[0], segments[1..];
      DecodeFirst(first, Pieces(more));
      DecodePieces(more);
      assert [first] + more == segments;
    }
  }

  lemma DecodeFirst(first: Text, more: Text)
    ensures Decode(Piece(first) + more) == if Decode(more).None? then None else Some([first] + Decode(more).value)
  {
    var s, rest := Piece(first) + more, first + more;
    var body := "_" + rest;
    assert s[0] == '_' && s[1..] == Decimal(|first|) + body;
    ReadDecimal(|first|, body, 0);
    assert body[1..] == rest;
    assert ReadNumber(s[1..], 0) == Some((|first|, rest));
    assert rest[..|first|] == first && rest[|first|..] == more;
  }

  /** Distinct tests get distinct symbols. */
  lemma SymbolsDistinct(pathA: seq<Text>, nameA: Text, pathB: seq<Text>, nameB: Text)
    requires PREFIX + Pieces(pathA + [nameA]) == PREFIX + Pieces(pathB + [nameB])
    ensures pathA == pathB && nameA == nameB
  {
    var a, b := Pieces(pathA + [nameA]), Pieces(pathB + [nameB]);
    assert (PREFIX + a)[|PREFIX|..] == a && (PREFIX + b)[|PREFIX|..] == b;
    DecodePieces(pathA + [nameA]);
    DecodePieces(pathB + [nameB]);
    var whole := pathA + [nameA];
    assert whole == pathB + [nameB];
    assert whole[|whole| - 1] == nameA && whole[..|whole| - 1] == pathA;
    assert whole[|whole| - 1] == nameB && whole[..|whole| - 1] == pathB;
  }
}
