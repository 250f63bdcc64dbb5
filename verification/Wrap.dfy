/** Reducing an integer to a machine width, as an `as` cast does. */
module Wrap {
  import opened Bits

  /** The signed reading of the `width`-bit pattern `value`. */
  function ToSigned(value: nat, width: nat): int
    requires width > 0
  {
    if value < Pow2(width - 1) then value else value - Pow2(width)
  }

  function Reduce(value: int, width: nat, signed: bool): int
    requires width > 0
  {
    var low := value % Pow2(width);
    if signed then ToSigned(low, width) else low
  }

  predicate InRange(value: int, width: nat, signed: bool)
    requires width > 0
  {
    if signed then -(Pow2(width - 1) as int) <= value < Pow2(width - 1) else 0 <= value < Pow2(width)
  }

  /** `a` and `b` differ by a multiple of `m`. */
  ghost predicate Congruent(a: int, b: int, m: int) {
    exists k: int :: Differ(a, b, m, k)
  }

  ghost predicate Differ(a: int, b: int, m: int, k: int) {
    a == b + k * m
  }

  lemma SplitAt(value: int, m: int)
    requires m > 0
    ensures Congruent(value, value % m, m) && Congruent(value, value % m - m, m)
  {
    var q, low := value / m, value % m;
    assert Differ(value, low, m, q);
    assert Differ(value, low - m, m, q + 1) by { assert (q + 1) * m == q * m + m; }
  }

  lemma ReduceCongruent(value: int, width: nat, signed: bool)
    requires width > 0
    ensures InRange(Reduce(value, width, signed), width, signed)
    ensures Congruent(value, Reduce(value, width, signed), Pow2(width))
  {
    SplitAt(value, Pow2(width));
  }

  lemma CloseCongruent(a: int, b: int, m: int)
    requires Congruent(a, b, m) && m > 0 && -m < a - b < m
    ensures a == b
  {
    var k :| Differ(a, b, m, k);
    if k > 0 { AtLeastDivisor(k, m); }
    if k < 0 {
      assert (-k) * m == -(k * m);
      AtLeastDivisor(-k, m);
    }
  }

  /** Congruent values in range are equal. */
  lemma OneInRange(a: int, b: int, width: nat, signed: bool)
    requires width > 0 && InRange(a, width, signed) && InRange(b, width, signed)
    requires Congruent(a, b, Pow2(width))
    ensures a == b
  {
    CloseCongruent(a, b, Pow2(width));
  }

  /** Reduction forgets exactly the multiples of the modulus. */
  lemma ReduceEqual(a: int, b: int, width: nat, signed: bool)
    requires width > 0
    ensures Congruent(a, b, Pow2(width)) <==> Reduce(a, width, signed) == Reduce(b, width, signed)
  {
    var m, ra, rb := Pow2(width), Reduce(a, width, signed), Reduce(b, width, signed);
    ReduceCongruent(a, width, signed);
    ReduceCongruent(b, width, signed);
    if Congruent(a, b, m) {
      Chain(ra, a, b, m) by { Flip(a, ra, m); }
      Chain(ra, b, rb, m);
      OneInRange(ra, rb, width, signed);
    }
    if ra == rb {
      Flip(b, rb, m);
      Chain(a, ra, b, m);
    }
  }

  lemma InRangeKept(a: int, width: nat, signed: bool)
    requires width > 0 && InRange(a, width, signed)
    ensures Reduce(a, width, signed) == a
  {
    ReduceCongruent(a, width, signed);
    OneInRange(a, Reduce(a, width, signed), width, signed);
  }

  lemma Refl(a: int, m: int)
    ensures Congruent(a, a, m)
  {
    assert Differ(a, a, m, 0);
  }

  lemma Flip(a: int, b: int, m: int)
    requires Congruent(a, b, m)
    ensures Congruent(b, a, m)
  {
    var k :| Differ(a, b, m, k);
    assert Differ(b, a, m, -k) by { assert (-k) * m == -(k * m); }
  }

  lemma Chain(a: int, b: int, c: int, m: int)
    requires Congruent(a, b, m) && Congruent(b, c, m)
    ensures Congruent(a, c, m)
  {
    var k :| Differ(a, b, m, k);
    var l :| Differ(b, c, m, l);
    assert Differ(a, c, m, k + l) by { assert (k + l) * m == k * m + l * m; }
  }

  lemma CongruentAdd(a: int, b: int, c: int, d: int, m: int)
    requires Congruent(a, b, m) && Congruent(c, d, m)
    ensures Congruent(a + c, b + d, m)
  {
    var k :| Differ(a, b, m, k);
    var l :| Differ(c, d, m, l);
    assert Differ(a + c, b + d, m, k + l) by { assert (k + l) * m == k * m + l * m; }
  }

  lemma CongruentNeg(a: int, b: int, m: int)
    requires Congruent(a, b, m)
    ensures Congruent(-a, -b, m)
  {
    var k :| Differ(a, b, m, k);
    assert Differ(-a, -b, m, -k) by { assert (-k) * m == -(k * m); }
  }

  lemma CongruentMul(a: int, b: int, c: int, d: int, m: int)
    requires Congruent(a, b, m) && Congruent(c, d, m)
    ensures Congruent(a * c, b * d, m)
  {
    var k :| Differ(a, b, m, k);
    var l :| Differ(c, d, m, l);
    Product(b, k, d, l, m);
    assert Differ(a * c, b * d, m, b * l + k * d + k * l * m);
  }

  lemma Product(b: int, k: int, d: int, l: int, m: int)
    ensures (b + k * m) * (d + l * m) == b * d + (b * l + k * d + k * l * m) * m
  {
    var x, y := k * m, l * m;
    assert (b + x) * (d + y) == b * d + b * y + x * d + x * y;
    assert b * y == (b * l) * m;
    assert x * d == (k * d) * m;
    assert x * y == (k * l * m) * m;
  }
}
