/**
 What a recalculation reads back after sym_set_tristate_value of package/config/symbol.c, and what the
 cache is worth when there is none.
 */
module SymbolReadBack {
  import opened Expressions
  import opened SymbolGraph
  import opened SymbolValues
  import opened SymbolChoice
  import opened SymbolSetting

  /** A range check against the bounds accepts exactly the values that clamping keeps. */
  lemma ClampReadBack(vis: Tri, rev: Tri, user: Option<Tri>, dflt: Tri, isBoolean: bool, v: Tri)
    requires isBoolean ==> vis != MOD && rev != MOD
    ensures Clamp(vis, rev, user, dflt, isBoolean) == v
            || (vis > rev && !(isBoolean && v == MOD) && rev <= v <= vis)
       <==> Clamp(vis, rev, Some(v), dflt, isBoolean) == v
  {
  }

  lemma BooleanBounds(u: Setup, s: Sym)
    requires Valid(u) && EffectiveType(s, u.modules) == BooleanType
    ensures Visibility(u, s) != MOD && SelectBound(u, s) != MOD
  {
    OwnPromptsBelow(u.g, s);
  }

  /** The symbols whose settings change. */
  function Touched(u: Setup, s: Sym, v: Tri): set<Sym> {
    {s} + if IsMember(u.g, s) && v == YES then {Def(u.g, s).memberOf.value} else {}
  }

  /** Setting a symbol that is not a member to y touches nothing but the symbol itself. */
  lemma TriReadBack(u: Setup, s: Sym, v: Tri)
    requires Valid(u) && IsTristateLike(s) && Touched(u, s, v) == {s}
    requires IsMember(u.g, s) ==> Visibility(u, s) != YES
    ensures Valid(WithUser(u, s, v))
    ensures TriValue(u, s) == v || WithinRange(u, s, v) <==> TriValue(WithUser(u, s, v), s) == v
  {
    var u' := WithUser(u, s, v);
    WithUserValid(u, s, v);
    SameBounds(u, u', {s}, s);
    if EffectiveType(s, u.modules) == BooleanType {
      BooleanBounds(u, s);
    }
    ClampReadBack(Visibility(u, s), SelectBound(u, s), UserTri(u, s), DefaultTri(u, s),
                  EffectiveType(s, u.modules) == BooleanType, v);
    assert UserTri(u', s) == Some(v);
  }

  // ---- Setting a choice ----

  /** The value of a choice and its pick, from what it is at first. */
  lemma ChoiceFromFirst(u: Setup, c: Sym)
    requires Valid(u) && IsChoice(u.g, c)
    ensures SymValue(u, c) == if TriValue(u, c) == YES then Value(if Pick(u, c).None? then NO else YES, "n", Pick(u, c))
                              else Value(TriValue(u, c), "n", None)
  {
    ChoiceTyped(u, c);
  }

  lemma ChoiceUnnoticed(u: Setup, c: Sym, v: Tri)
    requires Valid(u) && IsChoice(u.g, c)
    ensures Touched(u, c, v) == {c}
    ensures Valid(WithUser(u, c, v)) && Pick(WithUser(u, c, v), c) == Pick(u, c)
    ensures TriValue(u, c) == v || WithinRange(u, c, v) <==> TriValue(WithUser(u, c, v), c) == v
  {
    ChoiceTyped(u, c);
    assert Fits(u.g, c);
    TriReadBack(u, c, v);
    SamePick(u, WithUser(u, c, v), {c}, c);
  }

  /** A choice without a visible member to be set to v, not y, reads v back unless v is n and its
      select bound m. */
  predicate LastingWithoutPick(rev: Tri, v: Tri) {
    v != YES && (v == NO ==> rev != MOD)
  }

  /** What is set for a choice. */
  lemma ChoiceReadBack(u: Setup, c: Sym, v: Tri)
    requires Valid(u) && IsChoice(u.g, c)
    ensures Valid(WithUser(u, c, v))
    ensures Accepts(u, c, v) && (Pick(u, c).None? ==> LastingWithoutPick(SelectBound(u, c), v))
       <==> SymValue(WithUser(u, c, v), c).tri == v
  {
    var u' := WithUser(u, c, v);
    ChoiceUnnoticed(u, c, v);
    ChoiceFromFirst(u, c);
    ChoiceFromFirst(u', c);
    if Pick(u, c).None? {
      WithoutPick(u, c, v);
    }
  }

  lemma WithoutPick(u: Setup, c: Sym, v: Tri)
    requires Valid(u) && IsChoice(u.g, c) && Pick(u, c).None?
    ensures Valid(WithUser(u, c, v))
    ensures Accepts(u, c, v) && LastingWithoutPick(SelectBound(u, c), v) <==> SymValue(WithUser(u, c, v), c).tri == v
  {
    var u' := WithUser(u, c, v);
    ChoiceUnnoticed(u, c, v);
    ChoiceFromFirst(u, c);
    ChoiceFromFirst(u', c);
    FirstValue(u, c);
    FirstValue(u', c);
    SameBounds(u, u', {c}, c);
    assert UserTri(u', c) == Some(v);
  }

  /** A choice at first, without its default. */
  lemma FirstValue(u: Setup, c: Sym)
    requires Valid(u) && IsChoice(u.g, c)
    ensures TriValue(u, c) == Clamp(Visibility(u, c), SelectBound(u, c), UserTri(u, c), NO,
            EffectiveType(c, u.modules) == BooleanType)
    ensures EffectiveType(c, u.modules) == BooleanType ==> Visibility(u, c) != MOD && SelectBound(u, c) != MOD
    ensures EffectiveType(c, u.modules) == BooleanType || EffectiveType(c, u.modules) == TristateType
  {
    ChoiceTyped(u, c);
    assert Fits(u.g, c);
    if EffectiveType(c, u.modules) == BooleanType {
      BooleanBounds(u, c);
    }
  }

  // ---- Setting a member ----

  /** Below the choice, nobody notices what is set for a member and preferred for the choice. */
  lemma MemberUnnoticed(u: Setup, c: Sym, m: Sym, v: Tri)
    requires Valid(u) && m in Def(u.g, c).members
    ensures Valid(WithUser(u, m, v)) && Unnoticed(u, WithUser(u, m, v), {m, c}, Rank(u.g, c))
    ensures v != YES ==> Unnoticed(u, WithUser(u, m, v), {m}, Rank(u.g, m))
  {
    WithUserValid(u, m, v);
    MemberFacts(u, c, m);
  }

  /** A fully visible member. */
  lemma FullyVisibleValue(u: Setup, c: Sym, m: Sym)
    requires Valid(u) && m in Def(u.g, c).members && Visibility(u, m) == YES
    ensures SymValue(u, m) == Value(if SymValue(u, c).pick == Some(m) then YES else NO, "n", None)
  {
    MemberFacts(u, c, m);
    PlainValue(u, m);
  }

  /** The user's preference does not change whether a choice is y at first ... */
  lemma SameFirstValue(u: Setup, c: Sym, m: Sym)
    requires Valid(u) && m in Def(u.g, c).members
    ensures Valid(WithUser(u, m, YES)) && TriValue(WithUser(u, m, YES), c) == TriValue(u, c)
  {
    var u' := WithUser(u, m, YES);
    MemberUnnoticed(u, c, m, YES);
    MemberFacts(u, c, m);
    assert UserTri(u, c) == UserTri(u', c);
    SameTriValue(u, u', {m, c}, c);
  }

  /** ... nor what it then sees. */
  lemma SameFirstShown(u: Setup, c: Sym, m: Sym)
    requires Valid(u) && m in Def(u.g, c).members
    ensures Valid(WithUser(u, m, YES)) && MemberShown(WithUser(u, m, YES), c, m) == MemberShown(u, c, m)
  {
    MemberUnnoticed(u, c, m, YES);
    SameShown(u, WithUser(u, m, YES), {m, c}, c, m);
  }

  /** A fully visible member has a choice that is y. */
  lemma FullyVisibleChoice(u: Setup, c: Sym, m: Sym)
    requires Valid(u) && m in Def(u.g, c).members && Visibility(u, m) == YES
    ensures SymValue(u, c).tri == YES && TriValue(u, c) == YES && MemberShown(u, c, m) == YES
  {
    MemberFacts(u, c, m);
    MemberBelowChoice(u, c, m);
    TriValueBounds(u, c);
    ShownIsVisible(u, c, m);
  }

  lemma Preferred(u: Setup, c: Sym, m: Sym)
    requires Valid(u) && m in Def(u.g, c).members && c in u.picks && u.picks[c] == m
    requires TriValue(u, c) == YES && MemberShown(u, c, m) == YES
    ensures SymValue(u, c) == Value(YES, "n", Some(m)) && SymValue(u, m) == Value(YES, "n", None)
  {
    MemberFacts(u, c, m);
    ChoiceTyped(u, c);
    assert ByUser(u, c) && Pick(u, c) == Some(m);
    ShownIsVisible(u, c, m);
    FullyVisibleValue(u, c, m);
  }

  /** Setting a fully visible member to y: the choice takes it. */
  lemma MemberTaken(u: Setup, c: Sym, m: Sym)
    requires Valid(u) && m in Def(u.g, c).members && Visibility(u, m) == YES
    ensures Valid(WithUser(u, m, YES))
    ensures SymValue(u, c).tri == YES && SymValue(WithUser(u, m, YES), c) == Value(YES, "n", Some(m))
    ensures SymValue(WithUser(u, m, YES), m) == Value(YES, "n", None)
  {
    MemberFacts(u, c, m);
    FullyVisibleChoice(u, c, m);
    SameFirstValue(u, c, m);
    SameFirstShown(u, c, m);
    Preferred(WithUser(u, m, YES), c, m);
  }

  /** Setting a member to another value leaves the choice alone. */
  lemma MemberLeft(u: Setup, c: Sym, m: Sym, v: Tri)
    requires Valid(u) && m in Def(u.g, c).members && Visibility(u, m) == YES && v != YES
    ensures Valid(WithUser(u, m, v)) && SymValue(WithUser(u, m, v), m) == SymValue(u, m)
    ensures SymValue(u, m).tri != MOD
  {
    var u' := WithUser(u, m, v);
    MemberUnnoticed(u, c, m, v);
    MemberFacts(u, c, m);
    SameBounds(u, u', {m}, m);
    SameValueAt(u, u', {m}, Rank(u.g, m), c, None);
    FullyVisibleValue(u, c, m);
    FullyVisibleValue(u', c, m);
  }

  /** What a choice takes when the user's member is not visible. */
  ghost function Fallback(u: Setup, c: Sym): Option<Sym>
    requires Valid(u) && IsChoice(u.g, c)
  {
    if PickDefault(u, c, 0).Some? then PickDefault(u, c, 0) else PickFirst(u, c, 0)
  }

  /** The pick, after m has been set to y. */
  lemma PickAfter(u: Setup, c: Sym, m: Sym)
    requires Valid(u) && m in Def(u.g, c).members && IsChoice(u.g, c)
    ensures Valid(WithUser(u, m, YES))
    ensures Pick(WithUser(u, m, YES), c) == if MemberShown(u, c, m) != NO then Some(m) else Fallback(u, c)
  {
    var u' := WithUser(u, m, YES);
    MemberFacts(u, c, m);
    MemberUnnoticed(u, c, m, YES);
    SameFirstShown(u, c, m);
    assert u'.picks[c] == m;
    SamePickDefault(u, u', {m, c}, c, 0);
    SamePickFirst(u, u', {m, c}, c, 0);
  }

  /** Setting a hidden member to y costs a choice that is y the visible member the user has picked, unless
      its defaults or the order of its members lead back to it. */
  ghost predicate LosesPick(u: Setup, c: Sym, m: Sym)
    requires Valid(u) && m in Def(u.g, c).members && IsChoice(u.g, c)
  {
    && SymValue(u, c).tri == YES && MemberShown(u, c, m) == NO
    && ByUser(u, c) && Fallback(u, c) != Some(u.picks[c])
  }

  /** A member that is y, or hidden, can be set to y without effect on the choice, except in that case. */
  lemma ChoiceKeptIff(u: Setup, c: Sym, m: Sym)
    requires Valid(u) && m in Def(u.g, c).members && IsChoice(u.g, c)
    requires SymValue(u, m).tri == YES || Visibility(u, m) == NO
    ensures Valid(WithUser(u, m, YES))
    ensures SymValue(WithUser(u, m, YES), c) == SymValue(u, c) <==> !LosesPick(u, c, m)
  {
    var u' := WithUser(u, m, YES);
    SameFirstValue(u, c, m);
    PickAfter(u, c, m);
    ChoiceFromFirst(u, c);
    ChoiceFromFirst(u', c);
    PickShown(u, c);
    if TriValue(u, c) == YES {
      ShownIsVisible(u, c, m);
      MemberYesIff(u, c, m);
      if Pick(u, c).None? {
        PickShown(u', c);
        FallbackShown(u, c);
      }
    }
  }

  lemma FallbackShown(u: Setup, c: Sym)
    requires Valid(u) && IsChoice(u.g, c) && Pick(u, c).None?
    ensures Fallback(u, c).None? && !ByUser(u, c)
  {
  }

  /** The visibility of a member does not depend on what the user prefers. */
  lemma SameVisibility(u: Setup, c: Sym, m: Sym)
    requires Valid(u) && m in Def(u.g, c).members
    ensures Valid(WithUser(u, m, YES)) && Visibility(WithUser(u, m, YES), m) == Visibility(u, m)
  {
    var u' := WithUser(u, m, YES);
    SameFirstValue(u, c, m);
    SameFirstShown(u, c, m);
    if TriValue(u, c) == YES {
      ShownIsVisible(u, c, m);
      ShownIsVisible(u', c, m);
    } else {
      MemberFacts(u, c, m);
      ChoiceFromFirst(u, c);
      ChoiceFromFirst(u', c);
      MemberUnnoticed(u, c, m, YES);
      SameBounds(u, u', {m, c}, m);
    }
  }

  /** A hidden member that is set to y without costing the choice its pick keeps its value. */
  lemma HiddenKept(u: Setup, c: Sym, m: Sym)
    requires Valid(u) && m in Def(u.g, c).members && IsChoice(u.g, c) && Visibility(u, m) == NO && !LosesPick(u, c, m)
    ensures Valid(WithUser(u, m, YES)) && SymValue(WithUser(u, m, YES), m) == SymValue(u, m)
  {
    var u' := WithUser(u, m, YES);
    MemberFacts(u, c, m);
    MemberUnnoticed(u, c, m, YES);
    ChoiceKeptIff(u, c, m);
    SameBounds(u, u', {m, c}, m);
    PlainValue(u, m);
    PlainValue(u', m);
  }

  lemma PlainValue(u: Setup, s: Sym)
    requires Valid(u) && IsTristateLike(s) && !IsChoice(u.g, s)
    ensures SymValue(u, s) == Value(TriValue(u, s), "n", None)
  {
  }

  lemma MemberReadBack(u: Setup, c: Sym, m: Sym, v: Tri)
    requires Valid(u) && m in Def(u.g, c).members && IsChoice(u.g, c) && !(v == YES && LosesPick(u, c, m))
    ensures Valid(WithUser(u, m, v))
    ensures Accepts(u, m, v) <==> SymValue(WithUser(u, m, v), m).tri == v
  {
    var u' := WithUser(u, m, v);
    WithUserValid(u, m, v);
    MemberFacts(u, c, m);
    PlainValue(u, m);
    PlainValue(u', m);
    if v != YES && Visibility(u, m) == YES {
      MemberLeft(u, c, m, v);
    } else if v != YES {
      TriReadBack(u, m, v);
    } else if Visibility(u, m) == YES {
      MemberTaken(u, c, m);
    } else if Visibility(u, m) == NO {
      HiddenKept(u, c, m);
    } else {
      SameVisibility(u, c, m);
      MemberYesIff(u, c, m);
      MemberYesIff(u', c, m);
    }
  }

  // ---- Setting any symbol ----

  /** A choice without a visible member may not read back what was set. */
  ghost predicate Lasting(u: Setup, s: Sym, v: Tri)
    requires Valid(u)
  {
    IsChoice(u.g, s) && Pick(u, s).None? ==> LastingWithoutPick(SelectBound(u, s), v)
  }

  /** Setting a hidden member to y may cost its choice the pick. */
  ghost predicate Disturbs(u: Setup, s: Sym, v: Tri)
    requires Valid(u)
  {
    && IsMember(u.g, s) && v == YES
    && (ChoiceOf(u, s); MemberFacts(u, Def(u.g, s).memberOf.value, s); LosesPick(u, Def(u.g, s).memberOf.value, s))
  }

  ghost predicate Harmless(u: Setup, s: Sym, v: Tri)
    requires Valid(u)
  {
    Lasting(u, s, v) && !Disturbs(u, s, v)
  }

  /** A recalculation reads back exactly what sym_set_tristate_value accepts, but for a choice without a
      visible member; nothing is said of the one kind of setting that disturbs a choice. */
  lemma AcceptsIffReadBack(u: Setup, s: Sym, v: Tri)
    requires Valid(u) && IsTristateLike(s) && !Disturbs(u, s, v)
    ensures Accepts(u, s, v) && Lasting(u, s, v) <==> ValueAfter(u, s, v, s) == v
  {
    WithUserValid(u, s, v);
    if IsChoice(u.g, s) {
      ChoiceReadBack(u, s, v);
    } else {
      PlainValue(u, s);
      PlainValue(WithUser(u, s, v), s);
      if IsMember(u.g, s) {
        ChoiceOf(u, s);
        MemberFacts(u, Def(u.g, s).memberOf.value, s);
        MemberReadBack(u, Def(u.g, s).memberOf.value, s, v);
      } else {
        TriReadBack(u, s, v);
      }
    }
  }

  // ---- Setting a symbol to the value it has ----

  lemma DiffersAtTouched(u: Setup, s: Sym, v: Tri)
    ensures DifferAt(u, WithUser(u, s, v), Touched(u, s, v))
  {
  }

  /** The symbols whose settings change keep their values. */
  ghost predicate TouchedKept(u: Setup, s: Sym, v: Tri)
    requires Valid(u)
  {
    WithUserValid(u, s, v);
    forall t :: t in Touched(u, s, v) ==> SymValue(WithUser(u, s, v), t) == SymValue(u, t)
  }

  /** This changes no value at all exactly if what was set lasts and disturbs no choice. */
  lemma KeptIff(u: Setup, s: Sym, v: Tri)
    requires Valid(u) && IsTristateLike(s) && SymValue(u, s).tri == v
    ensures TouchedKept(u, s, v) <==> Harmless(u, s, v)
  {
    WithUserValid(u, s, v);
    var u' := WithUser(u, s, v);
    if IsMember(u.g, s) && v == YES {
      MemberKept(u, Def(u.g, s).memberOf.value, s);
    } else {
      assert Touched(u, s, v) == {s};
      AcceptsIffReadBack(u, s, v);
      if IsChoice(u.g, s) {
        ChoiceKept(u, s, v);
      } else {
        PlainValue(u, s);
        PlainValue(u', s);
      }
    }
  }

  lemma ChoiceKept(u: Setup, c: Sym, v: Tri)
    requires Valid(u) && IsChoice(u.g, c) && SymValue(u, c).tri == v
    ensures Valid(WithUser(u, c, v))
    ensures SymValue(WithUser(u, c, v), c) == SymValue(u, c) <==> Lasting(u, c, v)
  {
    var u' := WithUser(u, c, v);
    ChoiceReadBack(u, c, v);
    ChoiceUnnoticed(u, c, v);
    ChoiceFromFirst(u, c);
    ChoiceFromFirst(u', c);
  }

  lemma MemberKept(u: Setup, c: Sym, m: Sym)
    requires Valid(u) && Def(u.g, m).memberOf == Some(c) && SymValue(u, m).tri == YES
    ensures TouchedKept(u, m, YES) <==> !Disturbs(u, m, YES)
    ensures !IsChoice(u.g, m)
  {
    ChoiceOf(u, m);
    MemberFacts(u, c, m);
    WithUserValid(u, m, YES);
    ChoiceKeptIff(u, c, m);
    if !LosesPick(u, c, m) {
      MemberReadBack(u, c, m, YES);
      PlainValue(u, m);
      PlainValue(WithUser(u, m, YES), m);
    }
  }

  /** Then nobody notices. */
  lemma NothingNoticed(u: Setup, s: Sym, v: Tri, h: nat)
    requires Valid(u) && IsTristateLike(s) && SymValue(u, s).tri == v && Harmless(u, s, v)
    ensures Valid(WithUser(u, s, v)) && Unnoticed(u, WithUser(u, s, v), Touched(u, s, v), h)
  {
    WithUserValid(u, s, v);
    DiffersAtTouched(u, s, v);
    KeptIff(u, s, v);
  }
}
