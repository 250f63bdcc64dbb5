/** The combinations of type specifiers that are accepted, and the type each of them names (section 6.7.2 of ISO C11). */
module SpecifierRules {
  import opened CTypes
  import opened Specifiers

  /** Nothing but these specifiers occurs. */
  ghost predicate Only(m: multiset<Spec>, allowed: set<Spec>) {
    m != multiset{} && forall s :: s in m ==> s in allowed
  }

  lemma NotAlone(m: multiset<Spec>, s: Spec)
    requires s in m && !s.SAlone?
    ensures !exists what :: m == multiset{SAlone(what)}
  {
  }

  /** The specifiers that need not stand alone, with the counts the decision looks at. */
  lemma Counts(m: multiset<Spec>)
    ensures Countable(m) <==>
            && (forall s :: s in m ==> !s.SAlone?) && m[SComplex] <= 1 && !(m[SSigned] > 0 && m[SUnsigned] > 0)
            && m[SFloat] + m[SFloat16] + m[SFloat32] + m[SFloat64] + m[SFloat128] <= 1
            && m[SInt] + m[SInt128] + m[SChar] + m[SDouble] <= 1
    ensures Countable(m) ==>
              forall s :: s in m ==> || m[SFloat] + m[SFloat16] + m[SFloat32] + m[SFloat64] + m[SFloat128] > 0
                                     || s in {SComplex, SInt, SInt128, SChar, SDouble, SShort, SLong, SSigned, SUnsigned}
  {
    if forall s :: s in m ==> !s.SAlone? {
      forall what ensures m[SAlone(what)] == 0 { assert SAlone(what) !in m; }
    }
    forall s: Spec | s in m && s.SAlone?
      ensures !Countable(m)
    {
      assert m[SAlone(s.what)] > 0;
    }
  }

  predicate IsSigned(m: multiset<Spec>) {
    m[SUnsigned] == 0
  }

  /** `int`, `short`, `long`, `long long`, and their unsigned versions: 32, 16 and 64 bits. */
  lemma IntegerRule(m: multiset<Spec>, hasAuto: bool, r: Outcome)
    requires Means(m, hasAuto, r) && Only(m, {SInt, SShort, SLong, SSigned, SUnsigned})
    ensures r != Rejected <==> m[SInt] <= 1 && m[SShort] <= 1 && m[SLong] <= 2 && (m[SShort] == 0 || m[SLong] == 0)
                               && (m[SSigned] == 0 || m[SUnsigned] == 0)
    ensures r != Rejected ==>
              var w := if m[SLong] > 0 then W64 else if m[SShort] > 0 then W16 else W32;
              r == Primitive(if IsSigned(m) then PInt(w) else PUint(w))
  {
    var s :| s in m;
    NotAlone(m, s);
    OnlyIntegers(m);
    IntegerDecided(Tally(m));
  }

  lemma OnlyIntegers(m: multiset<Spec>)
    requires Only(m, {SInt, SShort, SLong, SSigned, SUnsigned})
    ensures Countable(m) <==> m[SInt] <= 1 && (m[SSigned] == 0 || m[SUnsigned] == 0)
    ensures var t := Tally(m);
            && t.float.None? && !t.complex && (t.base.None? || t.base == Some(BInt))
            && (Countable(m) ==> (t.sign == Some(false) <==> m[SUnsigned] > 0))
  {
    forall s: Spec | s !in {SInt, SShort, SLong, SSigned, SUnsigned}
      ensures m[s] == 0
    {
      assert s !in m;
    }
  }

  lemma IntegerDecided(t: Seen)
    requires t.float.None? && !t.complex && (t.base.None? || t.base == Some(BInt))
    ensures var r := Decide(t.base, t.sign, t.long, t.short, t.complex, t.float);
            && (r != Rejected <==> t.short <= 1 && t.long <= 2 && (t.short == 0 || t.long == 0))
            && (r != Rejected ==>
                  var w := if t.long > 0 then W64 else if t.short > 0 then W16 else W32;
                  r == Primitive(if t.sign == Some(false) then PUint(w) else PInt(w)))
  {
  }

  /** `char` and `__int128` take a sign and nothing else; without one they are signed. */
  lemma SignedBaseRule(m: multiset<Spec>, base: Spec, hasAuto: bool, r: Outcome)
    requires Means(m, hasAuto, r) && (base == SChar || base == SInt128) && base in m && m[SComplex] == 0
    ensures r != Rejected <==> Only(m, {base, SSigned, SUnsigned}) && m[base] == 1 && (m[SSigned] == 0 || m[SUnsigned] == 0)
    ensures r != Rejected ==>
              var w := if base == SChar then W8 else W128;
              r == Primitive(if IsSigned(m) then PInt(w) else PUint(w))
  {
    NotAlone(m, base);
    Counts(m);
  }

  /** `double` takes `long` and nothing else. */
  lemma DoubleRule(m: multiset<Spec>, hasAuto: bool, r: Outcome)
    requires Means(m, hasAuto, r) && SDouble in m && m[SComplex] == 0
    ensures r != Rejected <==> Only(m, {SDouble, SLong}) && m[SDouble] == 1
    ensures r != Rejected ==> r == Primitive(PFloat(if m[SLong] > 0 then F128 else F64))
  {
    NotAlone(m, SDouble);
    Counts(m);
  }

  /** The other floating types stand alone. */
  lemma FloatRule(m: multiset<Spec>, f: Spec, hasAuto: bool, r: Outcome)
    requires Means(m, hasAuto, r) && IsFloat(f) && f in m && m[SComplex] == 0
    ensures r != Rejected <==> m == multiset{f}
    ensures r != Rejected ==> r == Primitive(PFloat(if f.SFloat16? then F16 else if f.SFloat64? then F64 else if f.SFloat128? then F128 else F32))
  {
    NotAlone(m, f);
    Counts(m);
    if r != Rejected {
      forall s | s in m
        ensures s == f && m[s] == 1
      {
      }
      assert m == multiset{f};
    }
  }

  predicate Nothing(t: Seen) {
    t.base.None? && t.sign.None? && t.float.None? && t.long == 0 && t.short == 0
  }

  lemma ComplexDecided(t: Seen)
    ensures var plain := Decide(t.base, t.sign, t.long, t.short, false, t.float);
            Decide(t.base, t.sign, t.long, t.short, true, t.float)
            == if Nothing(t) then ComplexOf(PFloat(F64)) else if plain.Primitive? then ComplexOf(plain.p) else Rejected
  {
  }

  lemma SomethingSeen(m: multiset<Spec>)
    requires Countable(m) && m[SComplex] == 0
    ensures Nothing(Tally(m)) <==> m == multiset{}
  {
    Counts(m);
    if Nothing(Tally(m)) {
      forall s | s in m
        ensures false
      {
      }
    }
  }

  /** `_Complex` makes a pair of whatever the rest names, if that is a primitive type, and of `double` if there is none. */
  lemma ComplexRule(m: multiset<Spec>, hasAuto: bool, r: Outcome, s: Outcome)
    requires m[SComplex] == 0 && Means(m, hasAuto, r) && Means(m + multiset{SComplex}, hasAuto, s)
    ensures s == if m == multiset{} then ComplexOf(PFloat(F64)) else if r.Primitive? then ComplexOf(r.p) else Rejected
  {
    var more := m + multiset{SComplex};
    NotAlone(more, SComplex);
    if !Countable(m) {
      MoreUncountable(m, more);
    } else {
      ComplexTaken(m);
      ComplexDecided(Tally(m));
      SomethingSeen(m);
    }
    if what :| m == multiset{SAlone(what)} { assert m[SAlone(what)] > 0; }
  }

  /** A specifier that has to stand alone is refused in any company, and nothing at all is `auto` or refused. */
  lemma AloneRule(m: multiset<Spec>, what: nat, hasAuto: bool, r: Outcome)
    requires Means(m, hasAuto, r) && SAlone(what) in m
    ensures r == if m == multiset{SAlone(what)} then Alone(what) else Rejected
  {
  }
}
