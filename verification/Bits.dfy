/** `u64` bit words as the borrow checker keeps them, and the sets of locals they stand for.

    A word is a natural number below 2^64. The bitwise operators are defined digit by
    digit; `is_set`, `set_bit`, `clear_bit` and the word-wise `|=` of the join are then
    shown to act on single bits only. */
module Bits {
  const WORD_BITS: nat := 64

  function Pow2(n: nat): (p: nat)
    ensures p >= 1
  {
    if n == 0 then 1 else 2 * Pow2(n - 1)
  }

  /** Binary digit `i` of `w`. */
  predicate Digit(w: nat, i: nat) {
    if i == 0 then w % 2 == 1 else Digit(w / 2, i - 1)
  }

  function Or(a: nat, b: nat): nat
    decreases a + b
  {
    if a == 0 && b == 0 then 0
    else 2 * Or(a / 2, b / 2) + (if a % 2 == 1 || b % 2 == 1 then 1 else 0)
  }

  function AndNot(a: nat, b: nat): nat {
    if a == 0 then 0
    else 2 * AndNot(a / 2, b / 2) + (if a % 2 == 1 && b % 2 == 0 then 1 else 0)
  }

  lemma ZeroDigits(i: nat)
    ensures !Digit(0, i)
  {
  }

  lemma {:induction false} Pow2Digits(k: nat, i: nat)
    ensures Digit(Pow2(k), i) == (i == k)
  {
    if k == 0 {
      if i > 0 { ZeroDigits(i - 1); }
    } else if i > 0 {
      assert Pow2(k) / 2 == Pow2(k - 1);
      Pow2Digits(k - 1, i - 1);
    }
  }

  lemma Halves(h: nat, low: nat)
    requires low < 2
    ensures (2 * h + low) / 2 == h && (2 * h + low) % 2 == low
  {
  }

  lemma {:induction false} OrDigits(a: nat, b: nat, i: nat)
    ensures Digit(Or(a, b), i) == (Digit(a, i) || Digit(b, i))
    decreases a + b
  {
    if a == 0 && b == 0 {
      ZeroDigits(i);
    } else {
      var low := if a % 2 == 1 || b % 2 == 1 then 1 else 0;
      Halves(Or(a / 2, b / 2), low);
      if i > 0 { OrDigits(a / 2, b / 2, i - 1); }
    }
  }

  lemma {:induction false} AndNotDigits(a: nat, b: nat, i: nat)
    ensures Digit(AndNot(a, b), i) == (Digit(a, i) && !Digit(b, i))
  {
    if a == 0 {
      ZeroDigits(i);
    } else if i > 0 {
      assert AndNot(a, b) / 2 == AndNot(a / 2, b / 2);
      AndNotDigits(a / 2, b / 2, i - 1);
    }
  }

  lemma {:induction false} OrFits(a: nat, b: nat, n: nat)
    requires a < Pow2(n) && b < Pow2(n)
    ensures Or(a, b) < Pow2(n)
  {
    if n > 0 && (a != 0 || b != 0) {
      OrFits(a / 2, b / 2, n - 1);
    }
  }

  lemma {:induction false} AndNotFits(a: nat, b: nat)
    ensures AndNot(a, b) <= a
  {
    if a != 0 { AndNotFits(a / 2, b / 2); }
  }

  lemma {:induction false} Pow2Monotone(i: nat, n: nat)
    requires i < n
    ensures 2 * Pow2(i) <= Pow2(n)
  {
    if i + 1 < n { Pow2Monotone(i, n - 1); }
  }

  /** Words with the same digits are equal; otherwise some digit below the width tells them apart. */
  lemma {:induction false} DifferingDigit(a: nat, b: nat, n: nat) returns (i: nat)
    requires a < Pow2(n) && b < Pow2(n) && a != b
    ensures i < n && Digit(a, i) != Digit(b, i)
  {
    if a % 2 != b % 2 {
      i := 0;
    } else {
      var j := DifferingDigit(a / 2, b / 2, n - 1);
      i := j + 1;
    }
  }

  // ---- shifts, masks and truncation ----

  function And(a: nat, b: nat): nat {
    if a == 0 then 0
    else 2 * And(a / 2, b / 2) + (if a % 2 == 1 && b % 2 == 1 then 1 else 0)
  }

  function Shl(a: nat, k: nat): nat {
    if k == 0 then a else 2 * Shl(a, k - 1)
  }

  function Shr(a: nat, k: nat): nat {
    if k == 0 then a else Shr(a / 2, k - 1)
  }

  /** The low `n` digits of `a`. */
  function Low(a: nat, n: nat): (r: nat)
    ensures r < Pow2(n)
  {
    if n == 0 then 0 else 2 * Low(a / 2, n - 1) + a % 2
  }

  lemma {:induction false} AndDigits(a: nat, b: nat, i: nat)
    ensures Digit(And(a, b), i) == (Digit(a, i) && Digit(b, i))
  {
    if a == 0 {
      ZeroDigits(i);
    } else if i > 0 {
      assert And(a, b) / 2 == And(a / 2, b / 2);
      AndDigits(a / 2, b / 2, i - 1);
    }
  }

  lemma {:induction false} ShlDigits(a: nat, k: nat, i: nat)
    ensures Digit(Shl(a, k), i) == (i >= k && Digit(a, i - k))
  {
    if k > 0 && i > 0 {
      assert Shl(a, k) / 2 == Shl(a, k - 1);
      ShlDigits(a, k - 1, i - 1);
    }
  }

  lemma {:induction false} ShrDigits(a: nat, k: nat, i: nat)
    ensures Digit(Shr(a, k), i) == Digit(a, i + k)
  {
    if k > 0 { ShrDigits(a / 2, k - 1, i); }
  }

  lemma {:induction false} LowDigits(a: nat, n: nat, i: nat)
    ensures Digit(Low(a, n), i) == (i < n && Digit(a, i))
  {
    if n == 0 {
      ZeroDigits(i);
    } else if i > 0 {
      assert Low(a, n) / 2 == Low(a / 2, n - 1);
      LowDigits(a / 2, n - 1, i - 1);
    }
  }

  lemma {:induction false} MaskDigits(w: nat, i: nat)
    ensures Digit(Pow2(w) - 1, i) == (i < w)
  {
    if w == 0 {
      ZeroDigits(i);
    } else if i > 0 {
      assert (Pow2(w) - 1) / 2 == Pow2(w - 1) - 1;
      MaskDigits(w - 1, i - 1);
    }
  }

  lemma {:induction false} AndFits(a: nat, b: nat)
    ensures And(a, b) <= a && And(a, b) <= b
  {
    if a != 0 { AndFits(a / 2, b / 2); }
  }

  lemma HalfMod(a: nat, p: nat)
    requires p > 0
    ensures a % (2 * p) == 2 * (a / 2 % p) + a % 2
  {
    var q, r := a / 2 / p, a / 2 % p;
    assert a / 2 == q * p + r;
    assert q * (2 * p) == 2 * (q * p);
    UniqueRemainder(a, q, 2 * p, 2 * r + a % 2);
  }

  lemma {:induction false} LowIsMod(a: nat, n: nat)
    ensures Low(a, n) == a % Pow2(n)
  {
    if n > 0 {
      LowIsMod(a / 2, n - 1);
      HalfMod(a, Pow2(n - 1));
    }
  }

  lemma UniqueRemainder(a: int, q: int, d: int, r: int)
    requires d > 0 && 0 <= r < d && a == q * d + r
    ensures a % d == r && a / d == q
  {
    var q', r' := a / d, a % d;
    assert a == q' * d + r';
    assert (q - q') * d == r' - r;
    assert (q' - q) * d == r - r';
    if q > q' { AtLeastDivisor(q - q', d); }
    if q < q' { AtLeastDivisor(q' - q, d); }
  }

  lemma AtLeastDivisor(k: int, d: int)
    requires k > 0 && d > 0
    ensures k * d >= d
  {
  }

  lemma {:induction false} Pow2Add(a: nat, b: nat)
    ensures Pow2(a + b) == Pow2(a) * Pow2(b)
  {
    if a > 0 { Pow2Add(a - 1, b); }
  }

  lemma {:induction false} ShlIsTimes(a: nat, k: nat)
    ensures Shl(a, k) == a * Pow2(k)
  {
    if k > 0 { ShlIsTimes(a, k - 1); }
  }

  /** `word` with its low `width` digits replaced by those of `value`. */
  function Overlay(word: nat, value: int, width: nat): nat {
    LowPart(word, Pow2(width));
    word - word % Pow2(width) + value % Pow2(width)
  }

  lemma LowPart(word: nat, p: nat)
    requires p > 0
    ensures word % p <= word
  {
    assert word == word / p * p + word % p;
  }

  lemma {:induction false} OverlayDigits(word: nat, value: nat, width: nat, i: nat)
    ensures Digit(Overlay(word, value, width), i) == if i < width then Digit(value, i) else Digit(word, i)
  {
    if width > 0 {
      var p := Pow2(width - 1);
      HalfMod(word, p);
      HalfMod(value, p);
      var half := Overlay(word / 2, value / 2, width - 1);
      assert Overlay(word, value, width) == 2 * half + value % 2;
      Halves(half, value % 2);
      if i > 0 { OverlayDigits(word / 2, value / 2, width - 1, i - 1); }
    }
  }

  // ---- rows of words: one bit for each local ----

  predicate Row(bits: seq<nat>) {
    forall k :: 0 <= k < |bits| ==> bits[k] < Pow2(WORD_BITS)
  }

  predicate IsSet(bits: seq<nat>, local: nat)
    requires local < WORD_BITS * |bits|
  {
    Digit(bits[local / WORD_BITS], local % WORD_BITS)
  }

  function SetBit(bits: seq<nat>, local: nat): (r: seq<nat>)
    requires Row(bits) && local < WORD_BITS * |bits|
    ensures Row(r) && |r| == |bits|
    ensures forall x: nat :: x < WORD_BITS * |bits| ==> IsSet(r, x) == (x == local || IsSet(bits, x))
  {
    var k, i := local / WORD_BITS, local % WORD_BITS;
    var r := bits[k := Or(bits[k], Pow2(i))];
    Pow2Monotone(i, WORD_BITS);
    OrFits(bits[k], Pow2(i), WORD_BITS);
    assert forall x: nat :: x < WORD_BITS * |bits| ==> IsSet(r, x) == (x == local || IsSet(bits, x)) by {
      forall x: nat | x < WORD_BITS * |bits|
        ensures IsSet(r, x) == (x == local || IsSet(bits, x))
      {
        OrDigits(bits[k], Pow2(i), x % WORD_BITS);
        Pow2Digits(i, x % WORD_BITS);
      }
    }
    r
  }

  function ClearBit(bits: seq<nat>, local: nat): (r: seq<nat>)
    requires Row(bits) && local < WORD_BITS * |bits|
    ensures Row(r) && |r| == |bits|
    ensures forall x: nat :: x < WORD_BITS * |bits| ==> IsSet(r, x) == (x != local && IsSet(bits, x))
  {
    var k, i := local / WORD_BITS, local % WORD_BITS;
    var r := bits[k := AndNot(bits[k], Pow2(i))];
    AndNotFits(bits[k], Pow2(i));
    assert forall x: nat :: x < WORD_BITS * |bits| ==> IsSet(r, x) == (x != local && IsSet(bits, x)) by {
      forall x: nat | x < WORD_BITS * |bits|
        ensures IsSet(r, x) == (x != local && IsSet(bits, x))
      {
        AndNotDigits(bits[k], Pow2(i), x % WORD_BITS);
        Pow2Digits(i, x % WORD_BITS);
      }
    }
    r
  }
}
