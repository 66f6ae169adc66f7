/**
 The value of a symbol, by plain recursion over its properties: what sym_calc_value computes, for
 choices and their members as well as for other symbols, if nothing were cached.
 */
module SymbolValues {
  import opened Expressions
  import opened ExprTransform
  import opened Graphs
  import opened SymbolGraph

  /** struct symbol_value; what val points to is a string or, for a choice that is y, the chosen member. */
  datatype Value = Value(tri: Tri, str: string, pick: Option<Sym>)

  /** What the values depend on: the table, the values set by the user (for symbols without
      SYMBOL_NEW) and the members picked for choices, the names of symbols, and modules_val. */
  datatype Setup = Setup(g: Table, user: map<Sym, Value>, picks: map<Sym, Sym>, names: Sym -> string, modules: Tri)

  /** No symbol needs its own value to be calculated. */
  ghost predicate Ordered(g: Table) {
    Acyclic(EvalGraph(g))
  }

  ghost function Rank(g: Table, s: Sym): nat
    requires Ordered(g)
  {
    Height(EvalGraph(g), s)
  }

  lemma RankDecreases(g: Table, s: Sym, t: Sym)
    requires Ordered(g) && t in EvalDeps(g, s)
    ensures Rank(g, t) < Rank(g, s)
  {
    EvalGraphNext(g, s);
    HeightDecreases(EvalGraph(g), s, t);
  }

  predicate IsChoice(g: Table, s: Sym) {
    Def(g, s).isChoice
  }

  predicate IsMember(g: Table, m: Sym) {
    Def(g, m).memberOf.Some?
  }

  /** c, or c=y, or n */
  predicate Binds(e: Expr, c: Sym) {
    e == Symbol(c) || e == Comp(true, c, SymYes) || e == NoExpr
  }

  /** e is a conjunction with one of these. */
  predicate BoundBy(e: Expr, c: Sym) {
    Binds(e, c) || (e.Bin? && e.op == AND && (BoundBy(e.left, c) || BoundBy(e.right, c)))
  }

  /** A choice has members, which know it, and its defaults are among them. */
  predicate ChoiceFits(g: Table, c: Sym) {
    if IsChoice(g, c) then
      && IsTristateLike(c) && !IsMember(g, c)
      && (forall m :: m in Def(g, c).members ==> m in g && Def(g, m).memberOf == Some(c))
      && (forall i :: 0 <= i < |Def(g, c).props| && Def(g, c).props[i].Default? ==>
            Def(g, c).props[i].value.Symbol? && Def(g, c).props[i].value.sym in Def(g, c).members)
    else Def(g, c).members == []
  }

  /** What menu_finalize has done to a member: its prompts depend on the choice, whose type it has. */
  predicate MemberFits(g: Table, m: Sym) {
    IsMember(g, m) ==>
      var c := Def(g, m).memberOf.value;
      && c in g && IsChoice(g, c) && m in Def(g, c).members && !IsChoice(g, m) && m.Type() == c.Type()
      && forall i :: 0 <= i < |Def(g, m).props| && Def(g, m).props[i].Prompt? ==>
           Def(g, m).props[i].visible.Some? && BoundBy(Def(g, m).props[i].visible.value, c)
  }

  predicate Fits(g: Table, s: Sym) {
    s in g ==> s.Config? && ChoiceFits(g, s) && MemberFits(g, s)
  }

  predicate PickFits(u: Setup, c: Sym) {
    c in u.picks ==> u.picks[c] in Def(u.g, c).members
  }

  ghost predicate Valid(u: Setup) {
    Ordered(u.g) && (forall s :: Fits(u.g, s)) && (forall c :: PickFits(u, c))
  }

  lemma PickedIsMember(u: Setup, c: Sym)
    requires Valid(u) && c in u.picks
    ensures u.picks[c] in Def(u.g, c).members
  {
    assert PickFits(u, c);
  }

  /** What is known of a choice and a member of it. */
  lemma MemberFacts(u: Setup, c: Sym, m: Sym)
    requires Valid(u) && m in Def(u.g, c).members
    ensures c in u.g && m in u.g && IsChoice(u.g, c) && !IsChoice(u.g, m) && !IsMember(u.g, c) && c != m
    ensures Def(u.g, m).memberOf == Some(c) && m.Type() == c.Type() && IsTristateLike(c) && IsTristateLike(m)
    ensures Rank(u.g, c) < Rank(u.g, m)
  {
    assert c in u.g;
    assert Fits(u.g, c) && Fits(u.g, m);
    RankDecreases(u.g, m, c);
  }

  lemma ChoiceOf(u: Setup, m: Sym)
    requires Valid(u) && IsMember(u.g, m)
    ensures m in Def(u.g, Def(u.g, m).memberOf.value).members
  {
    assert Fits(u.g, m);
  }

  lemma DefaultIsMember(u: Setup, c: Sym, i: nat)
    requires Valid(u) && IsChoice(u.g, c) && i < |Def(u.g, c).props| && Def(u.g, c).props[i].Default?
    ensures Def(u.g, c).props[i].value.Symbol? && Def(u.g, c).props[i].value.sym in Def(u.g, c).members
  {
    assert Fits(u.g, c);
  }

  /** sym_get_type, but for a member that is fully visible, whose value is y or n in any case */
  function EffectiveType(s: Sym, modules: Tri): SymType {
    if s.Type() == TristateType && modules == NO then BooleanType else s.Type()
  }

  // ---- Which symbols a condition needs ----

  /** All symbols of e are dependencies of s. */
  predicate DependsOn(g: Table, s: Sym, e: Expr) {
    forall t :: t in ExprSyms(e) ==> t in Deps(g, s)
  }

  predicate OptionDependsOn(g: Table, s: Sym, e: Option<Expr>) {
    e.Some? ==> DependsOn(g, s, e.value)
  }

  /** The conditions and values of the properties of s are made of dependencies of s. */
  lemma PropertyDepends(g: Table, s: Sym, i: nat)
    requires i < |Def(g, s).props|
    ensures var p := Def(g, s).props[i];
      && (p.Prompt? || p.Default? ==> OptionDependsOn(g, s, p.visible))
      && (p.Default? && !IsChoice(g, s) ==> DependsOn(g, s, p.value))
  {
    PropsSymsSplit(Def(g, s).props, i, Def(g, s).isChoice);
  }

  lemma RevDepDepends(g: Table, s: Sym)
    ensures OptionDependsOn(g, s, Def(g, s).revDep)
  {
  }

  /** All symbols of e, but for the choice at, rank below h. */
  ghost predicate Below(g: Table, h: nat, e: Expr, at: Option<Sym>)
    requires Ordered(g)
  {
    forall t :: t in ExprSyms(e) && at != Some(t) ==> Rank(g, t) < h
  }

  ghost predicate OptionBelow(g: Table, h: nat, e: Option<Expr>, at: Option<Sym>)
    requires Ordered(g)
  {
    e.Some? ==> Below(g, h, e.value, at)
  }

  ghost predicate PromptsBelow(g: Table, s: Sym, h: nat, at: Option<Sym>)
    requires Ordered(g)
  {
    forall i :: 0 <= i < |Def(g, s).props| && Def(g, s).props[i].Prompt?
      ==> OptionBelow(g, h, Def(g, s).props[i].visible, at)
  }

  lemma DependsBelow(g: Table, s: Sym, e: Option<Expr>)
    requires Ordered(g) && OptionDependsOn(g, s, e)
    ensures OptionBelow(g, Rank(g, s), e, None)
  {
    if e.Some? {
      forall t | t in ExprSyms(e.value) ensures Rank(g, t) < Rank(g, s) {
        RankDecreases(g, s, t);
      }
    }
  }

  lemma OwnPromptsBelow(g: Table, s: Sym)
    requires Ordered(g)
    ensures PromptsBelow(g, s, Rank(g, s), None)
  {
    forall i | 0 <= i < |Def(g, s).props| && Def(g, s).props[i].Prompt?
      ensures OptionBelow(g, Rank(g, s), Def(g, s).props[i].visible, None)
    {
      PropertyDepends(g, s, i);
      DependsBelow(g, s, Def(g, s).props[i].visible);
    }
  }

  /** A choice can look at the prompts of its members before it has its value. */
  lemma MemberPromptsBelow(g: Table, c: Sym, m: Sym)
    requires Ordered(g) && m in Def(g, c).members
    ensures PromptsBelow(g, m, Rank(g, c), Some(c))
  {
    forall i | 0 <= i < |Def(g, m).props| && Def(g, m).props[i].Prompt?
      ensures OptionBelow(g, Rank(g, c), Def(g, m).props[i].visible, Some(c))
    {
      forall t | t in OptionSyms(Def(g, m).props[i].visible) && t != c ensures Rank(g, t) < Rank(g, c) {
        MemberPromptDep(g, c, m, i, t);
        RankDecreases(g, c, t);
      }
    }
  }

  lemma BelowParts(g: Table, h: nat, op: Conn, a: Expr, b: Expr, at: Option<Sym>)
    requires Ordered(g) && Below(g, h, Bin(op, a, b), at)
    ensures Below(g, h, a, at) && Below(g, h, b, at)
  {
    assert forall t :: t in ExprSyms(a) || t in ExprSyms(b) ==> t in ExprSyms(Bin(op, a, b));
  }

  // ---- Values ----

  /** sym_get_string_value, for a symbol with the given value */
  function StringOf(s: Sym, v: Value): string {
    if IsTristateLike(s) then TriName(v.tri) else v.str
  }

  /** The value of s, where the choice at is taken to be y. */
  ghost function ValueAt(u: Setup, h: nat, s: Sym, at: Option<Sym>): Value
    requires Valid(u) && (at != Some(s) ==> Rank(u.g, s) < h)
    decreases h, 0
  {
    if at == Some(s) then Value(YES, "n", None) else SymValue(u, s)
  }

  /** expr_calc_value */
  ghost function ExprValue(u: Setup, h: nat, e: Expr, at: Option<Sym>): Tri
    requires Valid(u) && Below(u.g, h, e, at)
    decreases h, 1, e
  {
    match e
    case Symbol(s) => assert s in ExprSyms(e); ValueAt(u, h, s, at).tri
    case Not(x) => assert ExprSyms(e) == ExprSyms(x); Negate(ExprValue(u, h, x, at))
    case Bin(op, a, b) =>
      BelowParts(u.g, h, op, a, b, at);
      Apply(op, ExprValue(u, h, a, at), ExprValue(u, h, b, at))
    case Comp(eq, a, b) =>
      assert a in ExprSyms(e) && b in ExprSyms(e);
      if (StringOf(a, ValueAt(u, h, a, at)) == StringOf(b, ValueAt(u, h, b, at))) == eq then YES else NO
  }

  /** The value of a condition; a missing condition is y. */
  ghost function ConditionAt(u: Setup, h: nat, e: Option<Expr>, at: Option<Sym>): Tri
    requires Valid(u) && OptionBelow(u.g, h, e, at)
    decreases h, 2
  {
    if e.None? then YES else ExprValue(u, h, e.value, at)
  }

  ghost function Condition(u: Setup, s: Sym, e: Option<Expr>): Tri
    requires Valid(u) && OptionDependsOn(u.g, s, e)
    decreases Rank(u.g, s), 3
  {
    DependsBelow(u.g, s, e);
    ConditionAt(u, Rank(u.g, s), e, None)
  }

  /** What the i-th property contributes to the visibility: the condition of a prompt. */
  ghost function PromptValue(u: Setup, s: Sym, i: nat, h: nat, at: Option<Sym>): Tri
    requires Valid(u) && i < |Def(u.g, s).props| && PromptsBelow(u.g, s, h, at)
    decreases h, 3
  {
    if Def(u.g, s).props[i].Prompt? then ConditionAt(u, h, Def(u.g, s).props[i].visible, at) else NO
  }

  /** The strongest condition among the first n prompts. */
  ghost function PromptBound(u: Setup, s: Sym, n: nat, h: nat, at: Option<Sym>): Tri
    requires Valid(u) && n <= |Def(u.g, s).props| && PromptsBelow(u.g, s, h, at)
    decreases h, 4, n
  {
    if n == 0 then NO else Apply(OR, PromptBound(u, s, n - 1, h, at), PromptValue(u, s, n - 1, h, at))
  }

  /** sym->visible, where the choice at is taken to be y */
  ghost function VisibilityAt(u: Setup, s: Sym, h: nat, at: Option<Sym>): Tri
    requires Valid(u) && PromptsBelow(u.g, s, h, at)
    decreases h, 5
  {
    var tri := PromptBound(u, s, |Def(u.g, s).props|, h, at);
    if s.Type() != TristateType || u.modules == NO then Promote(tri) else tri
  }

  ghost function Visibility(u: Setup, s: Sym): Tri
    requires Valid(u)
    decreases Rank(u.g, s), 6
  {
    OwnPromptsBelow(u.g, s);
    VisibilityAt(u, s, Rank(u.g, s), None)
  }

  /** sym->rev_dep.tri; it stays n for a member of a choice */
  ghost function SelectBound(u: Setup, s: Sym): Tri
    requires Valid(u)
    decreases Rank(u.g, s), 5
  {
    if IsMember(u.g, s) then NO
    else
      var rev := Def(u.g, s).revDep;
      RevDepDepends(u.g, s);
      var tri := if rev.None? then NO else Condition(u, s, rev);
      if EffectiveType(s, u.modules) == BooleanType then Promote(tri) else tri
  }

  /** sym_get_default_prop, from the i-th property on: the value of the first visible default */
  ghost function DefaultFrom(u: Setup, s: Sym, i: nat): (r: Option<Expr>)
    requires Valid(u) && i <= |Def(u.g, s).props| && !IsChoice(u.g, s)
    ensures OptionDependsOn(u.g, s, r)
    decreases Rank(u.g, s), 4, |Def(u.g, s).props| - i
  {
    if i == |Def(u.g, s).props| then None
    else
      var p := Def(u.g, s).props[i];
      PropertyDepends(u.g, s, i);
      if p.Default? && Condition(u, s, p.visible) != NO then Some(p.value) else DefaultFrom(u, s, i + 1)
  }

  /** The value of the active default of a boolean or tristate symbol; that of a choice is not used. */
  ghost function DefaultTri(u: Setup, s: Sym): Tri
    requires Valid(u)
    decreases Rank(u.g, s), 5
  {
    if IsChoice(u.g, s) then NO
    else
      var d := DefaultFrom(u, s, 0);
      if d.None? then NO else Condition(u, s, d)
  }

  /** The tristate case of sym_calc_value: the user's value or else the default, clamped between
      select bound and visibility; the bare default if neither is set. */
  function Clamp(vis: Tri, rev: Tri, user: Option<Tri>, dflt: Tri, isBoolean: bool): Tri {
    var raw := if Apply(OR, vis, rev) != NO then
                 Apply(OR, Apply(AND, if user.Some? then user.value else dflt, vis), rev)
               else dflt;
    if isBoolean then Promote(raw) else raw
  }

  function UserTri(u: Setup, s: Sym): Option<Tri> {
    if s in u.user then Some(u.user[s].tri) else None
  }

  /** The tristate value of a boolean or tristate symbol; of a choice, before it has looked for a
      visible member.  A fully visible member is y exactly if it is the pick of its choice. */
  ghost function TriValue(u: Setup, s: Sym): Tri
    requires Valid(u)
    decreases Rank(u.g, s), 7
  {
    if IsMember(u.g, s) && Visibility(u, s) == YES then
      ChoiceOf(u, s);
      MemberFacts(u, Def(u.g, s).memberOf.value, s);
      if SymValue(u, Def(u.g, s).memberOf.value).pick == Some(s) then YES else NO
    else
      Clamp(Visibility(u, s), SelectBound(u, s), UserTri(u, s), DefaultTri(u, s),
            EffectiveType(s, u.modules) == BooleanType)
  }

  /** The string value of an int, hex or string symbol. */
  ghost function StrValue(u: Setup, s: Sym): string
    requires Valid(u) && !IsChoice(u.g, s)
    decreases Rank(u.g, s), 7
  {
    if Visibility(u, s) != NO && s in u.user then u.user[s].str
    else
      var d := DefaultFrom(u, s, 0);
      if d.Some? && d.value.Symbol? then
        assert d.value.sym in ExprSyms(d.value);
        RankDecreases(u.g, s, d.value.sym);
        SymValue(u, d.value.sym).str
      else ""
  }

  // ---- Choices ----

  /** The visibility sym_calc_choice calculates for a member: the choice is y for the moment. */
  ghost function MemberShown(u: Setup, c: Sym, m: Sym): Tri
    requires Valid(u) && m in Def(u.g, c).members
    decreases Rank(u.g, c), 6
  {
    MemberPromptsBelow(u.g, c, m);
    VisibilityAt(u, m, Rank(u.g, c), Some(c))
  }

  /** The i-th property is a default of the choice that applies: with its condition, and with a
      visible member. */
  ghost predicate DefaultApplies(u: Setup, c: Sym, i: nat)
    requires Valid(u) && IsChoice(u.g, c) && i < |Def(u.g, c).props|
    decreases Rank(u.g, c), 7
  {
    var p := Def(u.g, c).props[i];
    p.Default? && (DefaultIsMember(u, c, i); PropertyDepends(u.g, c, i);
                   Condition(u, c, p.visible) != NO && MemberShown(u, c, p.value.sym) != NO)
  }

  /** The member named by the first default, from the i-th property on, that applies. */
  ghost function PickDefault(u: Setup, c: Sym, i: nat): (r: Option<Sym>)
    requires Valid(u) && IsChoice(u.g, c) && i <= |Def(u.g, c).props|
    ensures r.Some? ==> r.value in Def(u.g, c).members
    decreases Rank(u.g, c), 8, |Def(u.g, c).props| - i
  {
    if i == |Def(u.g, c).props| then None
    else if DefaultApplies(u, c, i) then
      DefaultIsMember(u, c, i);
      Some(Def(u.g, c).props[i].value.sym)
    else PickDefault(u, c, i + 1)
  }

  ghost predicate ShownAt(u: Setup, c: Sym, i: nat)
    requires Valid(u) && i < |Def(u.g, c).members|
    decreases Rank(u.g, c), 7
  {
    MemberShown(u, c, Def(u.g, c).members[i]) != NO
  }

  /** The first visible member, from the i-th on. */
  ghost function PickFirst(u: Setup, c: Sym, i: nat): (r: Option<Sym>)
    requires Valid(u) && i <= |Def(u.g, c).members|
    ensures r.Some? ==> r.value in Def(u.g, c).members
    decreases Rank(u.g, c), 8, |Def(u.g, c).members| - i
  {
    if i == |Def(u.g, c).members| then None
    else if ShownAt(u, c, i) then Some(Def(u.g, c).members[i])
    else PickFirst(u, c, i + 1)
  }

  /** The member the user has picked is visible. */
  ghost predicate ByUser(u: Setup, c: Sym)
    requires Valid(u)
    decreases Rank(u.g, c), 7
  {
    c in u.picks && (PickedIsMember(u, c); MemberShown(u, c, u.picks[c]) != NO)
  }

  /** sym_calc_choice: the member the user has picked if it is visible, else that of the first default
      that applies, else the first visible one. */
  ghost function Pick(u: Setup, c: Sym): (r: Option<Sym>)
    requires Valid(u) && IsChoice(u.g, c)
    ensures r.Some? ==> r.value in Def(u.g, c).members
    decreases Rank(u.g, c), 9
  {
    if ByUser(u, c) then
      PickedIsMember(u, c);
      Some(u.picks[c])
    else if PickDefault(u, c, 0).Some? then PickDefault(u, c, 0)
    else PickFirst(u, c, 0)
  }

  ghost function ChoiceValue(u: Setup, c: Sym): Value
    requires Valid(u) && IsChoice(u.g, c)
    decreases Rank(u.g, c), 10
  {
    if TriValue(u, c) == YES then Value(if Pick(u, c).None? then NO else YES, "n", Pick(u, c))
    else Value(TriValue(u, c), "n", None)
  }

  ghost function SymValue(u: Setup, s: Sym): Value
    requires Valid(u)
    decreases Rank(u.g, s), 11
  {
    match s
    case SymYes => Value(YES, "y", None)
    case SymMod => Value(MOD, "m", None)
    case SymNo => Value(NO, "n", None)
    case Const(_) => Value(NO, u.names(s), None)
    case Config(_, typ) =>
      if typ == UnknownType then Value(NO, u.names(s), None)
      else if IsChoice(u.g, s) then ChoiceValue(u, s)
      else if IsTristateLike(s) then Value(TriValue(u, s), "n", None)
      else Value(NO, StrValue(u, s), None)
  }

  // ---- Properties of the values ----

  /** The assignment that the evaluator computes. */
  ghost function EnvOf(u: Setup): Env
    requires Valid(u)
  {
    Env((s: Sym) => SymValue(u, s).tri, (s: Sym) => StringOf(s, SymValue(u, s)))
  }

  /** Distinct constants have distinct names, none of them named like 'y', 'm', 'n'. */
  ghost predicate DistinctNames(u: Setup) {
    && (forall i: nat :: u.names(Const(i)) !in ["y", "m", "n"])
    && (forall i: nat, j: nat :: u.names(Const(i)) == u.names(Const(j)) ==> i == j)
  }

  /** The typing assumptions of the expression engine hold in every calculated state. */
  lemma EnvWellTyped(u: Setup)
    requires Valid(u) && DistinctNames(u)
    ensures WellTyped(EnvOf(u))
  {
    var env := EnvOf(u);
    forall s: Sym, t: Sym | s.IsConst() && t.IsConst() && s != t ensures env.str(s) != env.str(t) {
      assert env.str(s) == SymValue(u, s).str && env.str(t) == SymValue(u, t).str;
    }
    forall s: Sym | s.Type() == BooleanType ensures env.tri(s) != MOD {
      TriValueBounds(u, s);
    }
  }

  /** The evaluator gives an expression the value the engine reasons about, so the rewriters
      preserve what is calculated. */
  lemma {:induction false} ExprValueIsEval(u: Setup, h: nat, e: Expr)
    requires Valid(u) && Below(u.g, h, e, None)
    ensures ExprValue(u, h, e, None) == Eval(e, EnvOf(u))
  {
    match e
    case Symbol(_) =>
    case Not(x) =>
      assert ExprSyms(e) == ExprSyms(x);
      ExprValueIsEval(u, h, x);
    case Bin(op, a, b) =>
      BelowParts(u.g, h, op, a, b, None);
      ExprValueIsEval(u, h, a);
      ExprValueIsEval(u, h, b);
    case Comp(_, _, _) =>
  }

  /** A boolean or tristate symbol is at least its select bound, at most the greater of visibility
      and select bound if one of them is set, and never m when its effective type is boolean; a
      choice that is y without a visible member is reset to n. */
  lemma TriValueBounds(u: Setup, s: Sym)
    requires Valid(u) && IsTristateLike(s)
    ensures SelectBound(u, s) <= TriValue(u, s)
    ensures Apply(OR, Visibility(u, s), SelectBound(u, s)) != NO ==>
              TriValue(u, s) <= Apply(OR, Visibility(u, s), SelectBound(u, s))
    ensures EffectiveType(s, u.modules) == BooleanType ==> TriValue(u, s) != MOD
    ensures SymValue(u, s).tri == if IsChoice(u.g, s) && TriValue(u, s) == YES && Pick(u, s).None? then NO
            else TriValue(u, s)
  {
  }
}
