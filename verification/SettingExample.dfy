/**
 Settings that sym_set_tristate_value of package/config/symbol.c accepts although they do not last, or
 that silently cost a choice its member.
 */
module SettingExample {
  import opened Expressions
  import opened Graphs
  import opened SymbolGraph
  import opened SymbolValues
  import opened SymbolChoice
  import opened SymbolSetting
  import opened SymbolReadBack

  // ---- Symbols with one prompt ----

  predicate OnePrompt(g: Table, s: Sym) {
    && |Def(g, s).props| > 0 && Def(g, s).props[0].Prompt?
    && forall i :: 0 < i < |Def(g, s).props| ==> !Def(g, s).props[i].Prompt?
  }

  lemma {:induction false} OnePromptBound(u: Setup, s: Sym, n: nat, h: nat, at: Option<Sym>)
    requires Valid(u) && OnePrompt(u.g, s) && 0 < n <= |Def(u.g, s).props| && PromptsBelow(u.g, s, h, at)
    ensures PromptBound(u, s, n, h, at) == PromptValue(u, s, 0, h, at)
  {
    if n == 1 {
      assert PromptBound(u, s, 0, h, at) == NO;
    } else {
      OnePromptBound(u, s, n - 1, h, at);
      assert PromptValue(u, s, n - 1, h, at) == NO;
    }
  }

  lemma OnePromptShown(u: Setup, s: Sym, h: nat, at: Option<Sym>)
    requires Valid(u) && OnePrompt(u.g, s) && PromptsBelow(u.g, s, h, at)
    ensures VisibilityAt(u, s, h, at) == NO <==> PromptValue(u, s, 0, h, at) == NO
    ensures PromptValue(u, s, 0, h, at) == YES ==> VisibilityAt(u, s, h, at) == YES
  {
    OnePromptBound(u, s, |Def(u.g, s).props|, h, at);
  }

  /** A member with the choice as its condition is visible while the choice is y, one with another
      condition that is n is not. */
  lemma MemberLooksLike(u: Setup, c: Sym, m: Sym)
    requires Valid(u) && m in Def(u.g, c).members && OnePrompt(u.g, m)
    ensures Def(u.g, m).props[0] == Prompt(Some(Symbol(c))) ==> MemberShown(u, c, m) == YES
    ensures Def(u.g, m).props[0] == Prompt(Some(Never(c))) ==> MemberShown(u, c, m) == NO
  {
    MemberFacts(u, c, m);
    assert Fits(u.g, c);
    MemberPromptsBelow(u.g, c, m);
    var h := Rank(u.g, c);
    OnePromptShown(u, m, h, Some(c));
    if Def(u.g, m).props[0] == Prompt(Some(Symbol(c))) {
      assert c in ExprSyms(Symbol(c));
      assert PromptValue(u, m, 0, h, Some(c)) == ExprValue(u, h, Symbol(c), Some(c)) == YES;
    }
    if Def(u.g, m).props[0] == Prompt(Some(Never(c))) {
      NeverValue(u, h, c);
    }
  }

  /** The condition of a member that is never visible. */
  function Never(c: Sym): Expr {
    Bin(AND, Symbol(c), NoExpr)
  }

  lemma NeverSyms(c: Sym)
    ensures ExprSyms(Never(c)) == [c, SymNo] && BoundBy(Never(c), c) && BoundBy(Symbol(c), c)
  {
    assert ExprSyms(Symbol(c)) == [c] && ExprSyms(NoExpr) == [SymNo];
  }

  lemma NeverValue(u: Setup, h: nat, c: Sym)
    requires Valid(u) && Below(u.g, h, Never(c), Some(c)) && c.Config?
    ensures ExprValue(u, h, Never(c), Some(c)) == NO
  {
    BelowParts(u.g, h, AND, Symbol(c), NoExpr, Some(c));
    assert SymNo in ExprSyms(NoExpr);
    assert SymValue(u, SymNo) == Value(NO, "n", None);
    assert ValueAt(u, h, SymNo, Some(c)) == SymValue(u, SymNo);
    assert ExprValue(u, h, NoExpr, Some(c)) == ValueAt(u, h, SymNo, Some(c)).tri;
    assert ExprValue(u, h, Never(c), Some(c)) == Apply(AND, ExprValue(u, h, Symbol(c), Some(c)), NO);
  }

  /** A choice whose only prompt has no condition is fully visible. */
  lemma AlwaysVisible(u: Setup, s: Sym)
    requires Valid(u) && OnePrompt(u.g, s) && Def(u.g, s).props[0] == Prompt(None)
    ensures Visibility(u, s) == YES
  {
    OwnPromptsBelow(u.g, s);
    OnePromptShown(u, s, Rank(u.g, s), None);
  }

  /** A condition that is a symbol. */
  lemma SymbolCondition(u: Setup, s: Sym, t: Sym)
    requires Valid(u) && OptionDependsOn(u.g, s, Some(Symbol(t)))
    ensures Condition(u, s, Some(Symbol(t))) == SymValue(u, t).tri
  {
    DependsBelow(u.g, s, Some(Symbol(t)));
    assert t in ExprSyms(Symbol(t));
    assert ExprValue(u, Rank(u.g, s), Symbol(t), None) == ValueAt(u, Rank(u.g, s), t, None).tri;
  }

  /** A choice that needs nothing from the table, and members that need nothing but the choice. */
  lemma OrderedByLevels(g: Table, c: Sym)
    requires forall t :: t in EvalDeps(g, c) ==> t !in g
    requires forall m, t :: m in g && m != c && t in EvalDeps(g, m) ==> t == c || t !in g
    ensures Ordered(g)
  {
    var e := EvalGraph(g);
    forall t | t !in g ensures Bounded(e, 0, t) && Bounded(e, 1, t) {
    }
    EvalGraphNext(g, c);
    assert Bounded(e, 1, c);
    forall m | m in g ensures Tame(e, m) {
      EvalGraphNext(g, m);
      assert m != c ==> Bounded(e, 2, m);
    }
    AcyclicFromTable(e);
  }

  // ---- A choice without a visible member ----

  function Choice(typ: SymType): Sym { Config(10, typ) }
  function Hidden(typ: SymType): Sym { Config(11, typ) }

  function Lone(typ: SymType, rev: Option<Expr>): Table {
    map[
      Choice(typ) := SymDef([Prompt(None)], rev, true, [Hidden(typ)], None),
      Hidden(typ) := SymDef([Prompt(Some(Never(Choice(typ))))], None, false, [], Some(Choice(typ)))
    ]
  }

  predicate IsLone(g: Table, typ: SymType, rev: Option<Expr>) {
    && (typ == BooleanType || typ == TristateType) && (rev == None || rev == Some(Symbol(SymMod)))
    && g == Lone(typ, rev)
  }

  lemma LoneDeps(g: Table, typ: SymType, rev: Option<Expr>)
    requires IsLone(g, typ, rev)
    ensures forall t :: t in EvalDeps(g, Choice(typ)) ==> t in {SymMod, SymNo}
    ensures forall t :: t in EvalDeps(g, Hidden(typ)) ==> t in {Choice(typ), SymNo}
  {
    NeverSyms(Choice(typ));
    OnePromptSyms(None);
    OnePromptSyms(Some(Never(Choice(typ))));
    assert MembersSyms(g, Choice(typ), [Hidden(typ)])
        == Without(PromptSyms(Def(g, Hidden(typ)).props), Choice(typ)) + MembersSyms(g, Choice(typ), []);
    assert [Choice(typ), SymNo][1..] == [SymNo] && [SymNo][1..] == [];
    assert Without([Choice(typ), SymNo], Choice(typ)) == [SymNo];
  }

  lemma LoneOrdered(g: Table, typ: SymType, rev: Option<Expr>)
    requires IsLone(g, typ, rev)
    ensures Ordered(g)
  {
    LoneDeps(g, typ, rev);
    assert SymMod !in g && SymNo !in g;
    forall m, t | m in g && m != Choice(typ) && t in EvalDeps(g, m) ensures t == Choice(typ) || t !in g {
      assert m == Hidden(typ);
    }
    OrderedByLevels(g, Choice(typ));
  }

  lemma LoneValid(u: Setup, typ: SymType, rev: Option<Expr>)
    requires IsLone(u.g, typ, rev) && u.picks == map[]
    ensures Valid(u)
  {
    LoneOrdered(u.g, typ, rev);
    forall s ensures Fits(u.g, s) {
      LoneFits(u.g, typ, rev, s);
    }
  }

  lemma LoneFits(g: Table, typ: SymType, rev: Option<Expr>, s: Sym)
    requires IsLone(g, typ, rev)
    ensures Fits(g, s)
  {
    NeverSyms(Choice(typ));
    assert forall m :: m in Def(g, Choice(typ)).members ==> m in g && Def(g, m).memberOf == Some(Choice(typ));
  }

  lemma LoneValues(u: Setup, typ: SymType, rev: Option<Expr>)
    requires IsLone(u.g, typ, rev) && u.picks == map[]
    ensures Valid(u) && Pick(u, Choice(typ)).None? && Visibility(u, Choice(typ)) == YES
    ensures rev == None ==> SelectBound(u, Choice(typ)) == NO
    ensures rev.Some? && EffectiveType(Choice(typ), u.modules) != BooleanType ==> SelectBound(u, Choice(typ)) == MOD
  {
    LoneValid(u, typ, rev);
    var c, m := Choice(typ), Hidden(typ);
    AlwaysVisible(u, c);
    assert m in Def(u.g, c).members;
    MemberLooksLike(u, c, m);
    assert forall x :: x in Def(u.g, c).members ==> x == m;
    PickShown(u, c);
    if rev.Some? {
      RevDepDepends(u.g, c);
      SymbolCondition(u, c, SymMod);
    }
  }

  /** An optional boolean choice without a visible member can be set to y, and reads n. */
  lemma YesLost(u: Setup)
    requires IsLone(u.g, BooleanType, None) && u.picks == map[] && u.user == map[]
    ensures var c := Choice(BooleanType);
      && Valid(u) && Accepts(u, c, YES) && SymValue(u, c).tri == NO && ValueAfter(u, c, YES, c) == NO
  {
    var c := Choice(BooleanType);
    LoneValues(u, BooleanType, None);
    FirstValue(u, c);
    ChoiceFromFirst(u, c);
    var u' := WithUser(u, c, YES);
    WithUserValid(u, c, YES);
    LoneValues(u', BooleanType, None);
    FirstValue(u', c);
    ChoiceFromFirst(u', c);
  }

  /** A tristate choice that is not optional, without a visible member, has been set to y and reads n.
      Setting it to n is accepted without recalculation, which would give m. */
  lemma NoLost(u: Setup)
    requires IsLone(u.g, TristateType, Some(Symbol(SymMod))) && u.picks == map[] && u.modules != NO
    requires u.user == map[Choice(TristateType) := Value(YES, "", None)]
    ensures var c := Choice(TristateType);
      && Valid(u) && SymValue(u, c).tri == NO && Accepts(u, c, NO) && ValueAfter(u, c, NO, c) == MOD
  {
    var c, rev := Choice(TristateType), Some(Symbol(SymMod));
    LoneValues(u, TristateType, rev);
    FirstValue(u, c);
    ChoiceFromFirst(u, c);
    var u' := WithUser(u, c, NO);
    WithUserValid(u, c, NO);
    LoneValues(u', TristateType, rev);
    FirstValue(u', c);
    ChoiceFromFirst(u', c);
  }

  // ---- A hidden member with a default of its own ----

  const CHOICE := Config(20, BooleanType)
  const FIRST := Config(21, BooleanType)
  const SECOND := Config(22, BooleanType)
  const DEFAULTED := Config(23, BooleanType)

  /** A choice that is not optional, with two visible members and a hidden one that its default makes y. */
  const Three: Table := map[
    CHOICE := SymDef([Prompt(None)], Some(Symbol(SymMod)), true, [FIRST, SECOND, DEFAULTED], None),
    FIRST := SymDef([Prompt(Some(Symbol(CHOICE)))], None, false, [], Some(CHOICE)),
    SECOND := SymDef([Prompt(Some(Symbol(CHOICE)))], None, false, [], Some(CHOICE)),
    DEFAULTED := SymDef([Prompt(Some(Never(CHOICE))), Default(None, YesExpr)], None, false, [], Some(CHOICE))
  ]

  lemma ThreeMemberDeps(g: Table, m: Sym)
    requires g == Three && m in {FIRST, SECOND, DEFAULTED}
    ensures PromptSyms(Def(g, m).props) == if m == DEFAULTED then [CHOICE, SymNo] else [CHOICE]
    ensures forall t :: t in EvalDeps(g, m) ==> t in {CHOICE, SymNo, SymYes}
  {
    if m == DEFAULTED {
      DefaultedSyms(g);
    } else {
      OnePromptSyms(Some(Symbol(CHOICE)));
    }
    assert MembersSyms(g, m, Def(g, m).members) == [];
  }

  lemma OneMoreMember(g: Table, c: Sym, m: Sym, ms: seq<Sym>)
    ensures MembersSyms(g, c, [m] + ms) == Without(PromptSyms(Def(g, m).props), c) + MembersSyms(g, c, ms)
  {
    assert ([m] + ms)[1..] == ms;
  }

  lemma WithoutChoice(c: Sym, t: Sym)
    requires c != t
    ensures Without([c, t], c) == [t] && Without([c], c) == []
  {
    assert [c, t][1..] == [t] && [t][1..] == [] && [c][1..] == [];
    assert Without([t], c) == [t] + Without([], c);
    assert Without([c], c) == [] + Without([], c);
  }

  lemma ThreeMembersSyms(g: Table)
    requires g == Three
    ensures MembersSyms(g, CHOICE, [FIRST, SECOND, DEFAULTED]) == [SymNo]
  {
    var none: seq<Sym> := [];
    ThreeMemberDeps(g, FIRST);
    ThreeMemberDeps(g, SECOND);
    ThreeMemberDeps(g, DEFAULTED);
    WithoutChoice(CHOICE, SymNo);
    OneMoreMember(g, CHOICE, DEFAULTED, none);
    assert [DEFAULTED] + none == [DEFAULTED];
    assert MembersSyms(g, CHOICE, [DEFAULTED]) == [SymNo];
    OneMoreMember(g, CHOICE, SECOND, [DEFAULTED]);
    assert [SECOND] + [DEFAULTED] == [SECOND, DEFAULTED];
    OneMoreMember(g, CHOICE, FIRST, [SECOND, DEFAULTED]);
    assert [FIRST] + [SECOND, DEFAULTED] == [FIRST, SECOND, DEFAULTED];
  }

  lemma ThreeChoiceDeps(g: Table)
    requires g == Three
    ensures forall t :: t in EvalDeps(g, CHOICE) ==> t in {SymMod, SymNo}
  {
    ThreeMembersSyms(g);
    OnePromptSyms(None);
    assert Deps(g, CHOICE) == [SymMod];
  }

  lemma DefaultedSyms(g: Table)
    requires g == Three
    ensures PromptSyms(Def(g, DEFAULTED).props) == [CHOICE, SymNo]
    ensures PropsSyms(Def(g, DEFAULTED).props, false) == [CHOICE, SymNo, SymYes]
  {
    NeverSyms(CHOICE);
    var props := Def(g, DEFAULTED).props;
    assert props[1..] == [Default(None, YesExpr)] && props[1..][1..] == [];
    assert PropSyms(props[0], false) == [CHOICE, SymNo] && PropSyms(props[1], false) == [SymYes];
    assert PropsSyms(props[1..], false) == [SymYes];
    assert PromptSyms(props[1..]) == [];
  }

  lemma ThreeFits(g: Table, s: Sym)
    requires g == Three
    ensures Fits(g, s)
  {
    NeverSyms(CHOICE);
    assert forall m :: m in Def(g, CHOICE).members ==> m in g && Def(g, m).memberOf == Some(CHOICE);
  }

  lemma ThreeOrdered(g: Table)
    requires g == Three
    ensures Ordered(g)
  {
    ThreeChoiceDeps(g);
    assert SymMod !in g && SymNo !in g && SymYes !in g;
    forall m, t | m in g && m != CHOICE && t in EvalDeps(g, m) ensures t == CHOICE || t !in g {
      ThreeMemberDeps(g, m);
    }
    OrderedByLevels(g, CHOICE);
  }

  lemma ThreeValid(u: Setup)
    requires u.g == Three && (u.picks == map[CHOICE := SECOND] || u.picks == map[CHOICE := DEFAULTED])
    ensures Valid(u)
  {
    ThreeOrdered(u.g);
    forall s ensures Fits(u.g, s) {
      ThreeFits(u.g, s);
    }
    forall c ensures PickFits(u, c) {
    }
  }

  /** The user prefers the second member: the choice is y and holds it, and the hidden one is y, too. */
  lemma ThreeValues(u: Setup)
    requires u.g == Three && u.user == map[] && u.picks == map[CHOICE := SECOND]
    ensures Valid(u) && SymValue(u, CHOICE) == Value(YES, "n", Some(SECOND)) && ByUser(u, CHOICE)
    ensures MemberShown(u, CHOICE, DEFAULTED) == NO && Fallback(u, CHOICE) == Some(FIRST)
    ensures SymValue(u, DEFAULTED).tri == YES
  {
    ThreeValid(u);
    ThreeShown(u);
    ThreeFirst(u);
    ChoiceFromFirst(u, CHOICE);
    assert ByUser(u, CHOICE) && Pick(u, CHOICE) == Some(SECOND);
    ThreeFallback(u);
    ShownIsVisible(u, CHOICE, DEFAULTED);
    DefaultedYes(u);
  }

  lemma ThreeShown(u: Setup)
    requires u.g == Three && Valid(u)
    ensures MemberShown(u, CHOICE, FIRST) == YES && MemberShown(u, CHOICE, SECOND) == YES
    ensures MemberShown(u, CHOICE, DEFAULTED) == NO
  {
    MemberLooksLike(u, CHOICE, FIRST);
    MemberLooksLike(u, CHOICE, SECOND);
    MemberLooksLike(u, CHOICE, DEFAULTED);
  }

  lemma ThreeFirst(u: Setup)
    requires u.g == Three && Valid(u) && CHOICE !in u.user
    ensures TriValue(u, CHOICE) == YES
  {
    var rev := Some(Symbol(SymMod));
    AlwaysVisible(u, CHOICE);
    RevDepDepends(u.g, CHOICE);
    SymbolCondition(u, CHOICE, SymMod);
    assert Condition(u, CHOICE, rev) == MOD;
    FirstValue(u, CHOICE);
  }

  lemma ThreeFallback(u: Setup)
    requires u.g == Three && Valid(u) && MemberShown(u, CHOICE, FIRST) == YES
    ensures Fallback(u, CHOICE) == Some(FIRST)
  {
    assert !DefaultApplies(u, CHOICE, 0);
    assert PickDefault(u, CHOICE, 1).None?;
    assert PickDefault(u, CHOICE, 0).None?;
    assert ShownAt(u, CHOICE, 0);
  }

  lemma DefaultedYes(u: Setup)
    requires u.g == Three && Valid(u) && Visibility(u, DEFAULTED) == NO
    ensures SymValue(u, DEFAULTED).tri == YES
  {
    var props := Def(u.g, DEFAULTED).props;
    PropertyDepends(u.g, DEFAULTED, 1);
    assert Condition(u, DEFAULTED, None) == YES;
    assert DefaultFrom(u, DEFAULTED, 1) == Some(YesExpr);
    assert DefaultFrom(u, DEFAULTED, 0) == DefaultFrom(u, DEFAULTED, 1);
    SymbolCondition(u, DEFAULTED, SymYes);
    assert DefaultTri(u, DEFAULTED) == YES;
    MemberYesIff(u, CHOICE, DEFAULTED);
  }

  /** Setting the hidden member to y, its value, is accepted without recalculation; with one the choice
      would turn to its first member. */
  lemma PickLost(u: Setup)
    requires u.g == Three && u.user == map[] && u.picks == map[CHOICE := SECOND]
    ensures Valid(u) && Accepts(u, DEFAULTED, YES) && Disturbs(u, DEFAULTED, YES)
    ensures Valid(WithUser(u, DEFAULTED, YES))
    ensures SymValue(u, CHOICE).pick == Some(SECOND)
    ensures SymValue(WithUser(u, DEFAULTED, YES), CHOICE).pick == Some(FIRST)
  {
    ThreeValues(u);
    assert LosesPick(u, CHOICE, DEFAULTED);
    SameFirstValue(u, CHOICE, DEFAULTED);
    PickAfter(u, CHOICE, DEFAULTED);
    ThreeFirst(u);
    ChoiceFromFirst(WithUser(u, DEFAULTED, YES), CHOICE);
  }
}
