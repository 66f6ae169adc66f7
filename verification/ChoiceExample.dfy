/**
 A choice that is circular without sym_check_deps noticing: its values depend on what is calculated first.
 */
module ChoiceExample {
  import opened Expressions
  import opened Graphs
  import opened SymbolGraph
  import opened SymbolValues
  import opened SymbolRun

  const CHOICE := Config(0, BooleanType)
  const FIRST := Config(1, BooleanType)
  const SECOND := Config(2, BooleanType)

  /** A choice that is not optional, with two members of which the first needs the second. */
  const Crossed: Table := map[
    CHOICE := SymDef([Prompt(None)], Some(Symbol(SymMod)), true, [FIRST, SECOND], None),
    FIRST := SymDef([Prompt(Some(Both))], None, false, [], Some(CHOICE)),
    SECOND := SymDef([Prompt(Some(Symbol(CHOICE)))], None, false, [], Some(CHOICE))
  ]

  const Both := Bin(AND, Symbol(CHOICE), Symbol(SECOND))

  /** Nothing has been set by the user. */
  predicate Untouched(u: Setup) {
    u.g == Crossed && u.user == map[] && u.picks == map[]
  }

  // ---- What sym_check_deps sees ----

  lemma CrossedDeps(g: Table)
    requires g == Crossed
    ensures Deps(g, CHOICE) == [SymMod] && Deps(g, SECOND) == [CHOICE] && Deps(g, FIRST) == [CHOICE, SECOND]
  {
    assert ExprSyms(Both.left) == [CHOICE] && ExprSyms(Both.right) == [SECOND];
    assert ExprSyms(Both) == [CHOICE, SECOND];
    OnePromptSyms(Some(Both));
    OnePromptSyms(Some(Symbol(CHOICE)));
    OnePromptSyms(None);
  }

  lemma CrossedFits(g: Table, s: Sym)
    requires g == Crossed
    ensures Fits(g, s)
  {
    assert BoundBy(Both.left, CHOICE) && BoundBy(Both, CHOICE) && BoundBy(Symbol(CHOICE), CHOICE);
    assert forall m :: m in Def(g, CHOICE).members ==> m in g && Def(g, m).memberOf == Some(CHOICE);
  }

  lemma CrossedAcyclic(g: Table)
    requires g == Crossed
    ensures Acyclic(CheckGraph(g))
  {
    var d := CheckGraph(g);
    CrossedDeps(g);
    CheckGraphNext(g, CHOICE);
    CheckGraphNext(g, FIRST);
    CheckGraphNext(g, SECOND);
    BoundedAt(d, 0, SymMod);
    BoundedAt(d, 1, CHOICE);
    BoundedAt(d, 2, SECOND);
    BoundedMonotone(d, 1, 2, CHOICE);
    BoundedAt(d, 3, FIRST);
    AcyclicFromTable(d);
  }

  /** No cycle is found, although the pick of the choice and the value of the second member need each
      other. */
  lemma CycleUnseen(g: Table)
    requires g == Crossed
    ensures (forall s :: Fits(g, s)) && Acyclic(CheckGraph(g)) && !Ordered(g)
  {
    forall s ensures Fits(g, s) {
      CrossedFits(g, s);
    }
    CrossedAcyclic(g);
    CrossedDeps(g);
    MemberPromptDep(g, CHOICE, FIRST, 0, SECOND);
    EvalGraphNext(g, CHOICE);
    EvalGraphNext(g, SECOND);
    LeadsEdge(EvalGraph(g), CHOICE, SECOND);
    LeadsThen(EvalGraph(g), CHOICE, SECOND, CHOICE);
    AcyclicNoCycle(EvalGraph(g));
  }

  // ---- What sym_calc_value makes of it ----

  lemma OnePromptRun(u: Setup, e: Option<Expr>, m: Memory, n: nat)
    ensures RunPrompts(u, [Prompt(e)], NO, m, n) == RunOption(u, e, m, n)
  {
    var props := [Prompt(e)];
    assert props[1..] == [];
    assert RunPrompts(u, props, NO, m, n)
        == RunPrompts(u, [], Apply(OR, NO, RunOption(u, e, m, n).result), RunOption(u, e, m, n).memory, n);
  }

  lemma ChoiceVisibility(u: Setup, m: Memory, n: nat)
    requires Untouched(u)
    ensures RunVisibility(u, CHOICE, m, n) == m.(visible := m.visible[CHOICE := YES], revTri := m.revTri[CHOICE := YES])
  {
    OnePromptRun(u, None, m, n);
    var m1 := m.(visible := m.visible[CHOICE := YES]);
    assert RunExpr(u, Symbol(SymMod), m1, n) == Ran(MOD, m1);
  }

  /** The choice is being calculated, or has been, and is y. */
  predicate ChoiceYes(m: Memory) {
    CHOICE in m.valid && CurrOf(m, CHOICE).tri == YES
  }

  lemma SecondVisibility(u: Setup, m: Memory, n: nat)
    requires Untouched(u) && ChoiceYes(m)
    ensures RunVisibility(u, SECOND, m, n) == m.(visible := m.visible[SECOND := YES])
  {
    OnePromptRun(u, Some(Symbol(CHOICE)), m, n);
    assert RunValue(u, CHOICE, m, n) == m;
  }

  lemma FirstVisibility(u: Setup, m: Memory, n: nat)
    requires Untouched(u) && ChoiceYes(m) && CurrOf(RunValue(u, SECOND, m, n), SECOND).tri == NO
    ensures var m1 := RunValue(u, SECOND, m, n);
      RunVisibility(u, FIRST, m, n) == m1.(visible := m1.visible[FIRST := NO])
  {
    OnePromptRun(u, Some(Both), m, n);
    assert RunValue(u, CHOICE, m, n) == m;
    var m1 := RunValue(u, SECOND, m, n);
    assert RunExpr(u, Symbol(CHOICE), m, n) == Ran(YES, m);
    assert RunExpr(u, Symbol(SECOND), m, n) == Ran(NO, m1);
    assert RunExpr(u, Both, m, n) == Ran(NO, m1);
  }

  /** A member is calculated while its choice looks for one: it is not picked yet. */
  lemma SecondInside(u: Setup, m: Memory, n: nat)
    requires Untouched(u) && ChoiceYes(m) && SECOND !in m.valid && n > 0 && CurrOf(m, CHOICE).pick != Some(SECOND)
    ensures var m1 := RunValue(u, SECOND, m, n);
      ChoiceYes(m1) && SECOND in m1.valid && CurrOf(m1, SECOND).tri == NO && CurrOf(m1, CHOICE) == CurrOf(m, CHOICE)
  {
    var m0 := m.(valid := m.valid + {SECOND});
    SecondVisibility(u, m0, n - 1);
    var m1 := SetCurr(m0.(visible := m0.visible[SECOND := YES]), SECOND, Value(NO, "n", None));
    assert RunTri(u, SECOND, m1, n - 1) == Ran(NO, m1);
  }

  /** The second member, whose own visibility does not depend on the first, is picked. */
  lemma PicksSecond(u: Setup, m: Memory, n: nat)
    requires Untouched(u) && ChoiceYes(m) && CurrOf(RunValue(u, SECOND, m, n), SECOND).tri == NO
    requires ChoiceYes(RunValue(u, SECOND, m, n))
    ensures var m1 := RunValue(u, SECOND, m, n);
      var m2 := RunChoice(u, CHOICE, m, n);
      CurrOf(m2, CHOICE) == Value(YES, "n", Some(SECOND)) && CurrOf(m2, SECOND) == CurrOf(m1, SECOND)
        && m2.valid == m1.valid
  {
    var m1 := RunValue(u, SECOND, m, n);
    var m2 := m1.(visible := m1.visible[FIRST := NO]);
    var m3 := m2.(visible := m2.visible[SECOND := YES]);
    FirstVisibility(u, m, n);
    SecondVisibility(u, m2, n);
    assert [FIRST, SECOND][1..] == [SECOND];
    assert RunFirst(u, [SECOND], m2, n) == Ran(Some(SECOND), m3);
    assert RunFirst(u, [FIRST, SECOND], m, n) == Ran(Some(SECOND), m3);
    NoDefaults(u, m, n);
  }

  lemma NoDefaults(u: Setup, m: Memory, n: nat)
    ensures RunFirst(u, [], m, n) == Ran(None, m) && RunChoiceDefault(u, [Prompt(None)], m, n) == Ran(None, m)
  {
    var props := [Prompt(None)];
    assert props[1..] == [];
  }

  /** The memory when the search for a member begins. */
  function Started(m: Memory): Memory {
    Memory(m.valid + {CHOICE}, m.curr[CHOICE := Value(YES, "n", None)], m.visible[CHOICE := YES],
      m.revTri[CHOICE := YES])
  }

  lemma ChoiceTri(u: Setup, m: Memory, n: nat)
    requires Untouched(u) && TriOf(m.visible, CHOICE) == YES && TriOf(m.revTri, CHOICE) == YES
    ensures RunTri(u, CHOICE, m, n) == Ran(YES, m)
  {
  }

  lemma ChoiceStarts(u: Setup, m: Memory, n: nat)
    requires Untouched(u) && CHOICE !in m.valid && n > 0
    ensures RunValue(u, CHOICE, m, n) == RunChoice(u, CHOICE, Started(m), n - 1)
  {
    var m0 := m.(valid := m.valid + {CHOICE});
    ChoiceVisibility(u, m0, n - 1);
    var m1 := SetCurr(RunVisibility(u, CHOICE, m0, n - 1), CHOICE, Value(NO, "n", None));
    ChoiceTri(u, m1, n - 1);
    assert SetCurr(m1, CHOICE, Value(YES, "n", None)) == Started(m);
  }

  /** Calculated before the second member, the choice is y and holds that member, which is n. */
  lemma ChoiceBeforeSecond(u: Setup, m: Memory, n: nat)
    requires Untouched(u) && n >= 2 && CHOICE !in m.valid && SECOND !in m.valid
    ensures var m1 := RunValue(u, CHOICE, m, n);
      CurrOf(m1, CHOICE) == Value(YES, "n", Some(SECOND)) && SECOND in m1.valid && CurrOf(m1, SECOND).tri == NO
  {
    ChoiceStarts(u, m, n);
    SearchFindsSecond(u, Started(m), n - 1);
  }

  lemma SearchFindsSecond(u: Setup, m: Memory, n: nat)
    requires Untouched(u) && ChoiceYes(m) && SECOND !in m.valid && n > 0 && CurrOf(m, CHOICE).pick != Some(SECOND)
    ensures var m1 := RunChoice(u, CHOICE, m, n);
      CurrOf(m1, CHOICE) == Value(YES, "n", Some(SECOND)) && SECOND in m1.valid && CurrOf(m1, SECOND).tri == NO
  {
    SecondInside(u, m, n);
    PicksSecond(u, m, n);
  }

  /** Calculated first, the choice is y, but no member is. */
  lemma ChoiceFirst(u: Setup, n: nat)
    requires Untouched(u) && n >= 2
    ensures var m := RunValue(u, CHOICE, Blank, n);
      CurrOf(m, CHOICE) == Value(YES, "n", Some(SECOND)) && SECOND in m.valid && CurrOf(m, SECOND).tri == NO
  {
    ChoiceBeforeSecond(u, Blank, n);
  }

  /** When the second member is calculated first, it is y. */
  lemma SecondFirst(u: Setup, n: nat)
    requires Untouched(u) && n >= 3
    ensures CurrOf(RunValue(u, SECOND, Blank, n), SECOND).tri == YES
  {
    var m0 := Memory({SECOND}, map[], map[], map[]);
    var m := Started(m0);
    ChoiceStarts(u, m0, n - 1);
    assert ChoiceYes(m) && RunValue(u, SECOND, m, n - 2) == m;
    PicksSecond(u, m, n - 2);
    SecondOutside(u, m0, RunValue(u, CHOICE, m0, n - 1), n);
  }

  /** The second member, around the calculation of its choice. */
  lemma SecondOutside(u: Setup, m0: Memory, m1: Memory, n: nat)
    requires Untouched(u) && n >= 3 && m0 == Memory({SECOND}, map[], map[], map[])
    requires m1 == RunValue(u, CHOICE, m0, n - 1) && CurrOf(m1, CHOICE) == Value(YES, "n", Some(SECOND))
    ensures CurrOf(RunValue(u, SECOND, Blank, n), SECOND).tri == YES
  {
    OnePromptRun(u, Some(Symbol(CHOICE)), m0, n - 1);
    assert RunExpr(u, Symbol(CHOICE), m0, n - 1) == Ran(YES, m1);
    var m2 := m1.(visible := m1.visible[SECOND := YES]);
    assert RunVisibility(u, SECOND, m0, n - 1) == m2;
    var m3 := SetCurr(m2, SECOND, Value(NO, "n", None));
    assert RunTri(u, SECOND, m3, n - 1) == Ran(YES, m3);
    assert Blank.(valid := Blank.valid + {SECOND}) == m0;
  }
}
