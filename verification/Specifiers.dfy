/** `CompressedTypeSpecifier::build`: the multiset of specifiers decides, in whatever order they are written. */
module Specifiers {
  import opened CTypes

  /** Specifiers that must stand alone carry what they stand for. */
  datatype Spec =
    | SComplex | SFloat | SFloat16 | SFloat32 | SFloat64 | SFloat128
    | SInt | SInt128 | SChar | SDouble | SShort | SLong | SSigned | SUnsigned
    | SAlone(what: nat)

  datatype Prim = PInt(w: IntWidth) | PUint(w: IntWidth) | PFloat(f: FloatWidth)

  datatype Outcome = Primitive(p: Prim) | ComplexOf(p: Prim) | Alone(what: nat) | Auto | Rejected

  datatype Base = BInt | BInt128 | BDouble | BChar

  predicate IsFloat(s: Spec) {
    s.SFloat? || s.SFloat16? || s.SFloat32? || s.SFloat64? || s.SFloat128?
  }

  predicate IsBase(s: Spec) {
    s.SInt? || s.SInt128? || s.SChar? || s.SDouble?
  }

  function FloatOf(s: Spec): FloatWidth
    requires IsFloat(s)
  {
    match s
    case SFloat16 => F16
    case SFloat64 => F64
    case SFloat128 => F128
    case _ => F32
  }

  function BaseOf(s: Spec): Base
    requires IsBase(s)
  {
    match s
    case SInt => BInt
    case SInt128 => BInt128
    case SChar => BChar
    case SDouble => BDouble
  }

  // ---- the decision, read off how often each specifier occurs ----

  function FloatCount(m: multiset<Spec>): nat {
    m[SFloat] + m[SFloat16] + m[SFloat32] + m[SFloat64] + m[SFloat128]
  }

  function BaseCount(m: multiset<Spec>): nat {
    m[SInt] + m[SInt128] + m[SChar] + m[SDouble]
  }

  /** No repetition or mixture that `build` refuses while it counts. */
  ghost predicate Countable(m: multiset<Spec>) {
    && (forall what :: m[SAlone(what)] == 0)
    && m[SComplex] <= 1 && FloatCount(m) <= 1 && BaseCount(m) <= 1
    && !(m[SSigned] > 0 && m[SUnsigned] > 0)
  }

  function FloatIn(m: multiset<Spec>): Option<FloatWidth> {
    if m[SFloat] > 0 || m[SFloat32] > 0 then Some(F32)
    else if m[SFloat16] > 0 then Some(F16)
    else if m[SFloat64] > 0 then Some(F64)
    else if m[SFloat128] > 0 then Some(F128)
    else None
  }

  function BaseIn(m: multiset<Spec>): Option<Base> {
    if m[SInt] > 0 then Some(BInt)
    else if m[SInt128] > 0 then Some(BInt128)
    else if m[SChar] > 0 then Some(BChar)
    else if m[SDouble] > 0 then Some(BDouble)
    else None
  }

  function SignIn(m: multiset<Spec>): Option<bool> {
    if m[SSigned] > 0 then Some(true) else if m[SUnsigned] > 0 then Some(false) else None
  }

  /** The part after the counting loop. */
  function Decide(base: Option<Base>, sign: Option<bool>, long: nat, short: nat, complex: bool, float: Option<FloatWidth>): Outcome {
    if float.Some? then
      if base.Some? || long > 0 || short > 0 || sign.Some? then Rejected
      else Finish(PFloat(float.value), complex)
    else if complex && base.None? && long == 0 && short == 0 && sign.None? then ComplexOf(PFloat(F64))
    else
      var signed := sign != Some(false);
      match if base.Some? then base.value else BInt
      case BInt =>
        if (long >= 1 && short >= 1) || long >= 3 || short >= 2 then Rejected
        else
          var w := if long > 0 then W64 else if short > 0 then W16 else W32;
          Finish(if signed then PInt(w) else PUint(w), complex)
      case BDouble =>
        if short > 0 || sign.Some? then Rejected else Finish(PFloat(if long > 0 then F128 else F64), complex)
      case BChar =>
        if short > 0 || long > 0 then Rejected else Finish(if signed then PInt(W8) else PUint(W8), complex)
      case BInt128 =>
        if short > 0 || long > 0 then Rejected else Finish(if signed then PInt(W128) else PUint(W128), complex)
  }

  function Finish(p: Prim, complex: bool): Outcome {
    if complex then ComplexOf(p) else Primitive(p)
  }

  /** What a declaration's type specifiers mean, whatever their order. */
  ghost predicate Means(m: multiset<Spec>, hasAuto: bool, r: Outcome) {
    if m == multiset{} then r == if hasAuto then Auto else Rejected
    else if exists what :: m == multiset{SAlone(what)} then exists what :: m == multiset{SAlone(what)} && r == Alone(what)
    else if !Countable(m) then r == Rejected
    else r == Decide(BaseIn(m), SignIn(m), m[SLong], m[SShort], m[SComplex] > 0, FloatIn(m))
  }

  /** The meaning is unique, so two orders of the same specifiers cannot differ. */
  lemma OneMeaning(m: multiset<Spec>, hasAuto: bool, r: Outcome, s: Outcome)
    requires Means(m, hasAuto, r) && Means(m, hasAuto, s)
    ensures r == s
  {
    if what :| m == multiset{SAlone(what)} {
      var a :| m == multiset{SAlone(a)} && r == Alone(a);
      var b :| m == multiset{SAlone(b)} && s == Alone(b);
      assert SAlone(a) in m && SAlone(b) in multiset{SAlone(a)};
    }
  }

  lemma MoreUncountable(m: multiset<Spec>, n: multiset<Spec>)
    requires m <= n && !Countable(m)
    ensures !Countable(n)
  {
    if what :| m[SAlone(what)] > 0 { assert n[SAlone(what)] > 0; }
  }

  /** What the counting loop keeps. */
  datatype Seen = Seen(base: Option<Base>, sign: Option<bool>, float: Option<FloatWidth>, long: nat, short: nat, complex: bool)

  function Tally(m: multiset<Spec>): Seen {
    Seen(BaseIn(m), SignIn(m), FloatIn(m), m[SLong], m[SShort], m[SComplex] > 0)
  }

  lemma AloneUncountable(m: multiset<Spec>, what: nat)
    ensures !Countable(m + multiset{SAlone(what)})
  {
    assert (m + multiset{SAlone(what)})[SAlone(what)] > 0;
  }

  lemma FloatTaken(m: multiset<Spec>, s: Spec)
    requires Countable(m) && IsFloat(s)
    ensures Countable(m + multiset{s}) <==> FloatIn(m).None?
    ensures FloatIn(m).None? ==> Tally(m + multiset{s}) == Tally(m).(float := Some(FloatOf(s)))
  {
  }

  lemma BaseTaken(m: multiset<Spec>, s: Spec)
    requires Countable(m) && IsBase(s)
    ensures Countable(m + multiset{s}) <==> BaseIn(m).None?
    ensures BaseIn(m).None? ==> Tally(m + multiset{s}) == Tally(m).(base := Some(BaseOf(s)))
  {
  }

  lemma SignTaken(m: multiset<Spec>, s: Spec)
    requires Countable(m) && (s.SSigned? || s.SUnsigned?)
    ensures Countable(m + multiset{s}) <==> SignIn(m) != Some(!s.SSigned?)
    ensures SignIn(m) != Some(!s.SSigned?) ==> Tally(m + multiset{s}) == Tally(m).(sign := Some(s.SSigned?))
  {
  }

  lemma LengthTaken(m: multiset<Spec>, s: Spec)
    requires Countable(m) && (s.SShort? || s.SLong?)
    ensures Countable(m + multiset{s})
    ensures Tally(m + multiset{s}) == if s.SShort? then Tally(m).(short := m[SShort] + 1) else Tally(m).(long := m[SLong] + 1)
  {
  }

  lemma ComplexTaken(m: multiset<Spec>)
    requires Countable(m)
    ensures Countable(m + multiset{SComplex}) <==> m[SComplex] == 0
    ensures Tally(m + multiset{SComplex}) == Tally(m).(complex := true)
  {
  }

  /** One turn of the counting loop. */
  method Take(ghost m: multiset<Spec>, seen: Seen, s: Spec) returns (next: Seen, refused: bool)
    requires Countable(m) && seen == Tally(m)
    ensures refused <==> !Countable(m + multiset{s})
    ensures !refused ==> next == Tally(m + multiset{s})
  {
    next, refused := seen, false;
    if s.SComplex? {
      ComplexTaken(m);
      refused := seen.complex;
      next := seen.(complex := true);
    } else if IsFloat(s) {
      FloatTaken(m, s);
      refused := seen.float.Some?;
      next := seen.(float := Some(FloatOf(s)));
    } else if IsBase(s) {
      BaseTaken(m, s);
      refused := seen.base.Some?;
      next := seen.(base := Some(BaseOf(s)));
    } else if s.SShort? {
      LengthTaken(m, s);
      next := seen.(short := seen.short + 1);
    } else if s.SLong? {
      LengthTaken(m, s);
      next := seen.(long := seen.long + 1);
    } else if s.SSigned? || s.SUnsigned? {
      SignTaken(m, s);
      refused := seen.sign == Some(!s.SSigned?);
      next := seen.(sign := Some(s.SSigned?));
    } else {
      AloneUncountable(m, s.what);
      refused := true;
    }
  }

  lemma AloneIsSingle(specs: seq<Spec>)
    requires specs != []
    ensures (exists what :: multiset(specs) == multiset{SAlone(what)}) <==> |specs| == 1 && specs[0].SAlone?
    ensures |specs| == 1 && specs[0].SAlone? ==> multiset(specs) == multiset{SAlone(specs[0].what)}
  {
    if what :| multiset(specs) == multiset{SAlone(what)} {
      assert |specs| == |multiset(specs)| == 1;
      assert specs[0] in multiset(specs);
    }
    if |specs| == 1 { assert specs == [specs[0]]; }
  }

  /** The loop of `build`: what each specifier adds to what has been seen, until one is refused. */
  method TakeAll(specs: seq<Spec>) returns (seen: Seen, refused: bool)
    ensures refused <==> !Countable(multiset(specs))
    ensures !refused ==> seen == Tally(multiset(specs))
  {
    seen := Seen(None, None, None, 0, 0, false);
    for k := 0 to |specs|
      invariant Countable(multiset(specs[..k])) && seen == Tally(multiset(specs[..k]))
    {
      assert specs[..k + 1] == specs[..k] + [specs[k]];
      seen, refused := Take(multiset(specs[..k]), seen, specs[k]);
      if refused {
        assert specs == specs[..k + 1] + specs[k + 1..];
        MoreUncountable(multiset(specs[..k + 1]), multiset(specs));
        return seen, true;
      }
    }
    assert specs[..|specs|] == specs;
    refused := false;
  }

  /** `build`. */
  method Build(specs: seq<Spec>, hasAuto: bool) returns (r: Outcome)
    ensures Means(multiset(specs), hasAuto, r)
  {
    if specs == [] {
      return if hasAuto then Auto else Rejected;
    }
    AloneIsSingle(specs);
    assert specs[0] in multiset(specs);
    if |specs| == 1 && specs[0].SAlone? {
      return Alone(specs[0].what);
    }
    var seen, refused := TakeAll(specs);
    if refused {
      return Rejected;
    }
    r := Decide(seen.base, seen.sign, seen.long, seen.short, seen.complex, seen.float);
  }
}
