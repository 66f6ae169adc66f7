/**
 The two kinds of assignments the adoption test of package/config/menu.c does not respect: a negated
 symbol that is neither y nor named n, which includes every one that is m, and a symbol that is n
 but not named n, which includes every undefined one.
 */
module AdoptionExample {
  import opened Expressions
  import opened ExprEquality
  import opened ExprTransform
  import opened ExprJoin
  import opened ExprPaths
  import opened ExprDupsLoop
  import opened ExprSettled
  import opened ExprVisibility
  import opened SymbolValues
  import opened SymbolChoice
  import Example = ExprDupsExample

  const FOO := Example.FOO
  const BAR := Example.BAR
  const UNDEFINED := Config(7, UnknownType)

  const NotFoo := Example.NotFoo
  const FooIsNo := Comp(true, FOO, SymNo)

  predicate Other(s: Sym) {
    s.Config? && s != FOO && s.Type() != BooleanType
  }

  lemma PairSettled(first: Expr)
    requires first.Comp? && first.lhs != FOO && first.rhs == SymNo
    ensures EliminateDups(Bin(AND, first, FooIsNo)) == Bin(AND, first, FooIsNo) && EliminateDups(first) == first
  {
    var both := Bin(AND, first, FooIsNo);
    Different(first);
    forall p: Path, q: Path | IsOperand(AND, both, p) && IsOperand(AND, both, q) && p != q
      ensures Join(AND, At(both, p), At(both, q)).None?
    {
      Example.OperandsOfPair(AND, first, FooIsNo, p);
      Example.OperandsOfPair(AND, first, FooIsNo, q);
    }
    forall p: Path | IsOperand(AND, both, p) ensures !At(both, p).Bin? {
      Example.OperandsOfPair(AND, first, FooIsNo, p);
    }
    assert Settled(both);
    EliminateDupsSettled(both);
    assert Settled(first);
    EliminateDupsSettled(first);
  }

  lemma Different(first: Expr)
    requires first.Comp? && first.lhs != FOO && first.rhs == SymNo
    ensures Join(AND, first, FooIsNo).None? && Join(AND, FooIsNo, first).None?
  {
    assert !ExprEq(first, FooIsNo) && !ExprEq(FooIsNo, first);
  }

  lemma Reduced(first: Expr)
    requires first.Comp? && first.lhs != FOO && first.rhs == SymNo
    ensures EliminateEq(Bin(AND, first, FooIsNo), first).snd == YesExpr
  {
    var both := Bin(AND, first, FooIsNo);
    assert ExprEq(first, first);
    assert EliminateEqSpine(AND, first, first) == Pair(YesExpr, YesExpr, 1);
    assert !ExprEq(FooIsNo, YesExpr);
    assert EliminateEqSpine(AND, FooIsNo, YesExpr) == Pair(FooIsNo, YesExpr, 0);
    assert EliminateEqSpine(AND, both, first) == Pair(Bin(AND, YesExpr, FooIsNo), YesExpr, 1);
  }

  // ---- The entry for FOO, shown if s = n, and behind it an entry shown if !s && !FOO ----

  function NegatedDep(s: Sym): Expr {
    Bin(AND, Not(Symbol(s)), NotFoo)
  }

  lemma NegatedVisible(s: Sym)
    requires Other(s)
    ensures Visible(Some(Comp(true, s, SymNo))) == Comp(true, s, SymNo)
    ensures Visible(Some(NegatedDep(s))) == Bin(AND, Comp(true, s, SymNo), FooIsNo)
  {
    var prompt, bare, foo := Comp(true, s, SymNo), Comp(false, s, SymNo), Comp(false, FOO, SymNo);
    assert TransCompare(Not(Symbol(s)), true, SymNo) == bare && TransCompare(NotFoo, true, SymNo) == foo;
    assert TransCompare(NegatedDep(s), false, SymNo) == Not(Bin(OR, bare, foo));
    assert Transform(Not(bare)) == prompt && Transform(Not(foo)) == FooIsNo;
    assert Transform(Not(Bin(OR, bare, foo))) == Bin(AND, prompt, FooIsNo);
    assert TransCompare(prompt, false, SymNo) == prompt && Transform(prompt) == prompt;
    PairSettled(prompt);
  }

  /** It is adopted, and soundly so exactly where NegatedDep is not understated. */
  lemma NegationDecides(s: Sym, env: Env)
    requires WellTyped(env) && Other(s) && env.tri(FOO) == NO
    ensures var prompt, dep := Comp(true, s, SymNo), NegatedDep(s);
      && Adopts(FOO, Some(prompt), Some(dep)) && Normal(prompt) && Normal(dep) && NotOverstated(prompt, env)
      && ((Eval(dep, env) != NO ==> Eval(prompt, env) != NO) <==> NotUnderstated(dep, env))
  {
    var prompt, dep := Comp(true, s, SymNo), NegatedDep(s);
    NegatedVisible(s);
    Reduced(prompt);
    assert ContainsSymbol(dep, FOO);
    NegatedValue(Symbol(s), NotFoo, env);
    FooValue(env);
    assert Normal(Not(Symbol(s))) && Normal(NotFoo);
    assert NotUnderstated(Not(Symbol(s)), env) <==> (env.tri(s) != YES ==> env.str(s) == "n");
  }

  lemma FooValue(env: Env)
    requires WellTyped(env) && env.tri(FOO) == NO
    ensures Eval(NotFoo, env) == YES && NotUnderstated(NotFoo, env) && NegationsDefinite(NotFoo, env)
  {
    ComparedStrings(FOO, env);
    var foo := Symbol(FOO);
    assert Eval(foo, env) == NO;
  }

  lemma NegatedValue(x: Expr, y: Expr, env: Env)
    requires Eval(y, env) == YES
    ensures Eval(Bin(AND, Not(x), y), env) == Negate(Eval(x, env))
  {
    assert Eval(Not(x), env) == Negate(Eval(x, env));
  }

  /** With BAR = m and FOO = n the second entry is shown, although the entry that adopted it is not
      and FOO is n. */
  lemma AdoptionNotSound(env: Env)
    requires WellTyped(env) && env.tri(BAR) == MOD && env.tri(FOO) == NO
    ensures Adopts(FOO, Some(Comp(true, BAR, SymNo)), Some(NegatedDep(BAR)))
    ensures Eval(NegatedDep(BAR), env) != NO && Eval(Comp(true, BAR, SymNo), env) == NO
  {
    NegationDecides(BAR, env);
    ComparedStrings(BAR, env);
    NegatedValue(Symbol(BAR), NotFoo, env);
    FooValue(env);
  }

  // ---- The entry for FOO, shown if s, and behind it an entry shown if s != n && !FOO ----

  function ComparedDep(s: Sym): Expr {
    Bin(AND, Comp(false, s, SymNo), NotFoo)
  }

  lemma ComparedVisible(s: Sym)
    requires Other(s)
    ensures Visible(Some(Symbol(s))) == Comp(false, s, SymNo)
    ensures Visible(Some(ComparedDep(s))) == Bin(AND, Comp(false, s, SymNo), FooIsNo)
  {
    var bare, foo := Comp(false, s, SymNo), Comp(false, FOO, SymNo);
    assert TransCompare(bare, true, SymNo) == Not(bare) && TransCompare(NotFoo, true, SymNo) == foo;
    assert TransCompare(ComparedDep(s), false, SymNo) == Not(Bin(OR, Not(bare), foo));
    assert Transform(Not(Not(bare))) == bare && Transform(Not(foo)) == FooIsNo;
    assert Transform(Not(Bin(OR, Not(bare), foo))) == Bin(AND, bare, FooIsNo);
    assert Transform(bare) == bare;
    PairSettled(bare);
  }

  /** It is adopted, and soundly so exactly where the prompt's condition is not overstated. */
  lemma NameDecides(s: Sym, env: Env)
    requires WellTyped(env) && Other(s) && env.tri(FOO) == NO
    ensures var prompt, dep := Symbol(s), ComparedDep(s);
      && Adopts(FOO, Some(prompt), Some(dep)) && Normal(prompt) && Normal(dep)
      && NotUnderstated(dep, env) && NegationsDefinite(dep, env)
      && ((Eval(dep, env) != NO ==> Eval(prompt, env) != NO) <==> NotOverstated(prompt, env))
  {
    ComparedVisible(s);
    Reduced(Comp(false, s, SymNo));
    assert ContainsSymbol(ComparedDep(s), FOO);
    ComparedValue(s, NotFoo, env);
    FooValue(env);
    assert Normal(NotFoo);
  }

  lemma ComparedValue(s: Sym, y: Expr, env: Env)
    requires WellTyped(env) && Eval(y, env) == YES
    ensures Eval(Bin(AND, Comp(false, s, SymNo), y), env) == if env.str(s) == "n" then NO else YES
  {
  }

  // ---- What the evaluator calculates ----

  /** In a calculated state a symbol that is not boolean or tristate is n; a negated one is read
      rightly if and only if it is named n, and the same holds if it is not negated. */
  lemma CalculatedReads(u: Setup, s: Sym)
    requires Valid(u) && s.Config? && !IsTristateLike(s)
    ensures var env := EnvOf(u);
      && env.tri(s) == NO
      && NotUnderstated(Symbol(s), env) && NotOverstated(Not(Symbol(s)), env)
      && (NotOverstated(Symbol(s), env) <==> env.str(s) == "n")
      && (NotUnderstated(Not(Symbol(s)), env) <==> env.str(s) == "n")
    ensures s.Type() == UnknownType ==> EnvOf(u).str(s) == u.names(s)
  {
    if IsChoice(u.g, s) {
      ChoiceTyped(u, s);
    }
  }

  /** So an entry that needs an undefined symbol adopts one that asks whether this symbol is not n;
      with FOO = n the latter is shown and nothing is m, but neither the parent nor FOO is set. */
  lemma UndefinedNotSound(u: Setup)
    requires Valid(u) && DistinctNames(u) && u.names(UNDEFINED) != "n" && SymValue(u, FOO).tri == NO
    ensures Adopts(FOO, Some(Symbol(UNDEFINED)), Some(ComparedDep(UNDEFINED)))
    ensures NegationsDefinite(ComparedDep(UNDEFINED), EnvOf(u))
    ensures Eval(ComparedDep(UNDEFINED), EnvOf(u)) == YES && Eval(Symbol(UNDEFINED), EnvOf(u)) == NO
    ensures !IsSet(FOO, EnvOf(u))
  {
    var env := EnvOf(u);
    EnvWellTyped(u);
    CalculatedReads(u, UNDEFINED);
    assert env.tri(FOO) == NO;
    NameDecides(UNDEFINED, env);
    FooValue(env);
    ComparedValue(UNDEFINED, NotFoo, env);
  }
}
