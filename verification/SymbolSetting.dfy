/**
 Setting a value: what sym_set_tristate_value of package/config/symbol.c changes, and what a
 recalculation then reads back.
 */
module SymbolSetting {
  import opened Expressions
  import opened SymbolGraph
  import opened SymbolValues

  /** sym_tristate_within_range */
  ghost predicate WithinRange(u: Setup, s: Sym, v: Tri)
    requires Valid(u)
  {
    var vis, rev, typ := Visibility(u, s), SelectBound(u, s), EffectiveType(s, u.modules);
    && vis != NO
    && (typ == BooleanType || typ == TristateType)
    && !((typ == BooleanType || (IsMember(u.g, s) && vis == YES)) && v == MOD)
    && !(vis <= rev)
    && if IsMember(u.g, s) && vis == YES then v == YES else rev <= v <= vis
  }

  /** sym_set_tristate_value accepts the current value and what is within range. */
  ghost predicate Accepts(u: Setup, s: Sym, v: Tri)
    requires Valid(u)
  {
    SymValue(u, s).tri == v || WithinRange(u, s, v)
  }

  /** sym->user.tri = v, and SYMBOL_NEW cleared; a member that is set to y becomes the one its choice
      prefers. */
  function WithUser(u: Setup, s: Sym, v: Tri): Setup {
    u.(user := u.user[s := Value(v, if s in u.user then u.user[s].str else "", None)],
       picks := if IsMember(u.g, s) && v == YES then u.picks[Def(u.g, s).memberOf.value := s] else u.picks)
  }

  lemma WithUserValid(u: Setup, s: Sym, v: Tri)
    requires Valid(u)
    ensures Valid(WithUser(u, s, v))
  {
    var u' := WithUser(u, s, v);
    forall c ensures PickFits(u', c) {
      assert PickFits(u, c);
      if IsMember(u.g, s) {
        ChoiceOf(u, s);
      }
    }
  }

  /** The tristate value of t after s has been set to v. */
  ghost function ValueAfter(u: Setup, s: Sym, v: Tri, t: Sym): Tri
    requires Valid(u)
  {
    WithUserValid(u, s, v);
    SymValue(WithUser(u, s, v), t).tri
  }

  // ---- What a change does not affect ----

  /** Only the settings of the symbols in ss differ. */
  ghost predicate DifferAt(u: Setup, u': Setup, ss: set<Sym>) {
    && u'.g == u.g && u'.names == u.names && u'.modules == u.modules
    && (forall s :: s !in ss ==> (s in u.user <==> s in u'.user) && (s in u.picks <==> s in u'.picks))
    && (forall s :: s !in ss && s in u.user ==> u.user[s] == u'.user[s])
    && (forall s :: s !in ss && s in u.picks ==> u.picks[s] == u'.picks[s])
  }

  /** What ranks below h does not notice: a symbol of ss ranks too high, or has the same value as
      before. */
  ghost predicate Unnoticed(u: Setup, u': Setup, ss: set<Sym>, h: nat)
    requires Valid(u) && Valid(u')
  {
    DifferAt(u, u', ss) && forall s :: s in ss ==> h <= Rank(u.g, s) || SymValue(u, s) == SymValue(u', s)
  }

  lemma {:induction false} SameExprValue(u: Setup, u': Setup, ss: set<Sym>, h: nat, e: Expr, at: Option<Sym>)
    requires Valid(u) && Valid(u') && Unnoticed(u, u', ss, h) && Below(u.g, h, e, at)
    ensures ExprValue(u', h, e, at) == ExprValue(u, h, e, at)
    decreases h, 1, e
  {
    match e
    case Symbol(t) =>
      assert t in ExprSyms(e);
      SameValueAt(u, u', ss, h, t, at);
    case Not(x) =>
      assert ExprSyms(e) == ExprSyms(x);
      SameExprValue(u, u', ss, h, x, at);
    case Bin(op, a, b) =>
      BelowParts(u.g, h, op, a, b, at);
      SameExprValue(u, u', ss, h, a, at);
      SameExprValue(u, u', ss, h, b, at);
    case Comp(_, a, b) =>
      assert a in ExprSyms(e) && b in ExprSyms(e);
      SameValueAt(u, u', ss, h, a, at);
      SameValueAt(u, u', ss, h, b, at);
  }

  lemma SameValueAt(u: Setup, u': Setup, ss: set<Sym>, h: nat, t: Sym, at: Option<Sym>)
    requires Valid(u) && Valid(u') && Unnoticed(u, u', ss, h) && (at != Some(t) ==> Rank(u.g, t) < h)
    ensures ValueAt(u', h, t, at) == ValueAt(u, h, t, at)
    decreases h, 0
  {
    if at != Some(t) && t !in ss {
      SameSymValue(u, u', ss, t);
    }
  }

  lemma SameCondition(u: Setup, u': Setup, ss: set<Sym>, t: Sym, e: Option<Expr>)
    requires Valid(u) && Valid(u') && Unnoticed(u, u', ss, Rank(u.g, t)) && OptionDependsOn(u.g, t, e)
    ensures Condition(u', t, e) == Condition(u, t, e)
    decreases Rank(u.g, t), 2
  {
    DependsBelow(u.g, t, e);
    if e.Some? {
      SameExprValue(u, u', ss, Rank(u.g, t), e.value, None);
    }
  }

  lemma {:induction false} SamePromptBound(u: Setup, u': Setup, ss: set<Sym>, t: Sym, n: nat, h: nat, at: Option<Sym>)
    requires Valid(u) && Valid(u') && Unnoticed(u, u', ss, h)
    requires n <= |Def(u.g, t).props| && PromptsBelow(u.g, t, h, at)
    ensures PromptBound(u', t, n, h, at) == PromptBound(u, t, n, h, at)
    decreases h, 3, n
  {
    if n > 0 {
      SamePromptBound(u, u', ss, t, n - 1, h, at);
      SamePromptValue(u, u', ss, t, n - 1, h, at);
    }
  }

  lemma SamePromptValue(u: Setup, u': Setup, ss: set<Sym>, t: Sym, i: nat, h: nat, at: Option<Sym>)
    requires Valid(u) && Valid(u') && Unnoticed(u, u', ss, h)
    requires i < |Def(u.g, t).props| && PromptsBelow(u.g, t, h, at)
    ensures PromptValue(u', t, i, h, at) == PromptValue(u, t, i, h, at)
    decreases h, 2, 0
  {
    var p := Def(u.g, t).props[i];
    if p.Prompt? && p.visible.Some? {
      SameExprValue(u, u', ss, h, p.visible.value, at);
    }
  }

  lemma {:induction false} SameDefault(u: Setup, u': Setup, ss: set<Sym>, t: Sym, i: nat)
    requires Valid(u) && Valid(u') && Unnoticed(u, u', ss, Rank(u.g, t))
    requires i <= |Def(u.g, t).props| && !IsChoice(u.g, t)
    ensures DefaultFrom(u', t, i) == DefaultFrom(u, t, i)
    decreases Rank(u.g, t), 3, |Def(u.g, t).props| - i
  {
    if i < |Def(u.g, t).props| {
      PropertyDepends(u.g, t, i);
      if Def(u.g, t).props[i].Default? {
        SameCondition(u, u', ss, t, Def(u.g, t).props[i].visible);
      }
      SameDefault(u, u', ss, t, i + 1);
    }
  }

  /** The bounds and the default of a symbol. */
  lemma SameBounds(u: Setup, u': Setup, ss: set<Sym>, t: Sym)
    requires Valid(u) && Valid(u') && Unnoticed(u, u', ss, Rank(u.g, t))
    ensures Visibility(u', t) == Visibility(u, t) && SelectBound(u', t) == SelectBound(u, t)
    ensures DefaultTri(u', t) == DefaultTri(u, t)
    ensures !IsChoice(u.g, t) ==> DefaultFrom(u', t, 0) == DefaultFrom(u, t, 0)
    decreases Rank(u.g, t), 5
  {
    OwnPromptsBelow(u.g, t);
    SamePromptBound(u, u', ss, t, |Def(u.g, t).props|, Rank(u.g, t), None);
    RevDepDepends(u.g, t);
    if Def(u.g, t).revDep.Some? {
      SameCondition(u, u', ss, t, Def(u.g, t).revDep);
    }
    if !IsChoice(u.g, t) {
      SameDefault(u, u', ss, t, 0);
      SameCondition(u, u', ss, t, DefaultFrom(u, t, 0));
    }
  }

  lemma SameShown(u: Setup, u': Setup, ss: set<Sym>, c: Sym, m: Sym)
    requires Valid(u) && Valid(u') && Unnoticed(u, u', ss, Rank(u.g, c)) && m in Def(u.g, c).members
    ensures MemberShown(u', c, m) == MemberShown(u, c, m)
    decreases Rank(u.g, c), 4
  {
    MemberPromptsBelow(u.g, c, m);
    SamePromptBound(u, u', ss, m, |Def(u.g, m).props|, Rank(u.g, c), Some(c));
  }

  lemma SameDefaultApplies(u: Setup, u': Setup, ss: set<Sym>, c: Sym, i: nat)
    requires Valid(u) && Valid(u') && Unnoticed(u, u', ss, Rank(u.g, c))
    requires IsChoice(u.g, c) && i < |Def(u.g, c).props|
    ensures DefaultApplies(u', c, i) == DefaultApplies(u, c, i)
    decreases Rank(u.g, c), 5
  {
    var p := Def(u.g, c).props[i];
    if p.Default? {
      DefaultIsMember(u, c, i);
      PropertyDepends(u.g, c, i);
      SameCondition(u, u', ss, c, p.visible);
      SameShown(u, u', ss, c, p.value.sym);
    }
  }

  lemma {:induction false} SamePickDefault(u: Setup, u': Setup, ss: set<Sym>, c: Sym, i: nat)
    requires Valid(u) && Valid(u') && Unnoticed(u, u', ss, Rank(u.g, c))
    requires IsChoice(u.g, c) && i <= |Def(u.g, c).props|
    ensures PickDefault(u', c, i) == PickDefault(u, c, i)
    decreases Rank(u.g, c), 6, |Def(u.g, c).props| - i
  {
    if i < |Def(u.g, c).props| {
      SameDefaultApplies(u, u', ss, c, i);
      SamePickDefault(u, u', ss, c, i + 1);
    }
  }

  lemma {:induction false} SamePickFirst(u: Setup, u': Setup, ss: set<Sym>, c: Sym, i: nat)
    requires Valid(u) && Valid(u') && Unnoticed(u, u', ss, Rank(u.g, c)) && i <= |Def(u.g, c).members|
    ensures PickFirst(u', c, i) == PickFirst(u, c, i)
    decreases Rank(u.g, c), 6, |Def(u.g, c).members| - i
  {
    if i < |Def(u.g, c).members| {
      SameShown(u, u', ss, c, Def(u.g, c).members[i]);
      SamePickFirst(u, u', ss, c, i + 1);
    }
  }

  /** The pick of a choice for which the user prefers the same member. */
  lemma SamePick(u: Setup, u': Setup, ss: set<Sym>, c: Sym)
    requires Valid(u) && Valid(u') && Unnoticed(u, u', ss, Rank(u.g, c)) && IsChoice(u.g, c)
    requires (c in u.picks <==> c in u'.picks) && (c in u.picks ==> u.picks[c] == u'.picks[c])
    ensures Pick(u', c) == Pick(u, c)
    decreases Rank(u.g, c), 7
  {
    if c in u.picks {
      PickedIsMember(u, c);
      SameShown(u, u', ss, c, u.picks[c]);
    }
    SamePickDefault(u, u', ss, c, 0);
    SamePickFirst(u, u', ss, c, 0);
  }

  lemma SameTriValue(u: Setup, u': Setup, ss: set<Sym>, t: Sym)
    requires Valid(u) && Valid(u') && Unnoticed(u, u', ss, Rank(u.g, t)) && UserTri(u, t) == UserTri(u', t)
    ensures TriValue(u', t) == TriValue(u, t)
    decreases Rank(u.g, t), 7
  {
    SameBounds(u, u', ss, t);
    if IsMember(u.g, t) {
      ChoiceOf(u, t);
      var c := Def(u.g, t).memberOf.value;
      MemberFacts(u, c, t);
      SameValueAt(u, u', ss, Rank(u.g, t), c, None);
    }
  }

  lemma SameSymValue(u: Setup, u': Setup, ss: set<Sym>, t: Sym)
    requires Valid(u) && Valid(u') && Unnoticed(u, u', ss, Rank(u.g, t)) && t !in ss
    ensures SymValue(u', t) == SymValue(u, t)
    decreases Rank(u.g, t), 8
  {
    SameTriValue(u, u', ss, t);
    if IsChoice(u.g, t) {
      SamePick(u, u', ss, t);
    } else {
      SameBounds(u, u', ss, t);
      var d := DefaultFrom(u, t, 0);
      if d.Some? && d.value.Symbol? {
        assert d.value.sym in ExprSyms(d.value);
        RankDecreases(u.g, t, d.value.sym);
        SameValueAt(u, u', ss, Rank(u.g, t), d.value.sym, None);
      }
    }
  }
}
