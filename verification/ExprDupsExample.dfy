/**
 The loop of expr_eliminate_dups in package/config/expr.c, run on an expression whose value m it does
 not keep.
 */
module ExprDupsExample {
  import opened Expressions
  import opened ExprEquality
  import opened ExprTransform
  import opened ExprPaths
  import opened ExprDups
  import opened ExprDupsLoop
  import opened ExprSettled

  const FOO := Config(0, TristateType)
  const BAR := Config(1, TristateType)
  const FooOrBar := Bin(OR, Symbol(FOO), Symbol(BAR))
  const Neither := Bin(AND, Not(Symbol(FOO)), Not(Symbol(BAR)))
  const Example := Bin(AND, FooOrBar, Neither)

  const NotFoo := Not(Symbol(FOO))
  const NotBar := Not(Symbol(BAR))

  lemma Literals()
    ensures ExprEq(NotFoo, NotFoo) && ExprEq(NotBar, NotBar)
    ensures !ExprEq(NotFoo, NotBar) && !ExprEq(NotBar, NotFoo)
    ensures !ExprEq(NotFoo, YesExpr) && !ExprEq(YesExpr, NotBar) && !ExprEq(NotBar, YesExpr)
    ensures Transform(Not(FooOrBar)) == Neither
  {
    assert ExprEq(Symbol(FOO), Symbol(FOO)) && ExprEq(Symbol(BAR), Symbol(BAR));
    assert !ExprEq(Symbol(FOO), Symbol(BAR)) && !ExprEq(Symbol(BAR), Symbol(FOO));
    assert Transform(NotFoo) == NotFoo && Transform(NotBar) == NotBar;
    assert Transform(FooOrBar) == FooOrBar;
    assert Transform(Neither) == Neither;
  }

  lemma ExtractBoth()
    ensures ExtractEq(AND, None, Neither, Neither).fst == Bin(AND, YesExpr, YesExpr)
    ensures ExtractEq(AND, None, Neither, Neither).acc.Some?
  {
    Literals();
    var some := Some(NotFoo);
    assert ExtractEq(AND, None, NotFoo, NotFoo) == Extract(some, YesExpr, YesExpr);
    assert ExtractEq(AND, some, YesExpr, NotBar) == Extract(some, YesExpr, NotBar);
    assert ExtractEq(AND, None, NotFoo, Neither) == Extract(some, YesExpr, Bin(AND, YesExpr, NotBar));
    assert ExtractEq(AND, some, NotBar, YesExpr) == Extract(some, NotBar, YesExpr);
    assert ExtractEq(AND, some, NotBar, NotBar) == Extract(Some(Bin(AND, NotFoo, NotBar)), YesExpr, YesExpr);
    assert ExtractEq(AND, some, NotBar, Bin(AND, YesExpr, NotBar)).fst == YesExpr;
  }

  lemma ExampleContradiction()
    ensures Contradicts(AND, FooOrBar, Neither)
  {
    Literals();
    ExtractBoth();
    assert EliminateYn(Bin(AND, YesExpr, YesExpr)) == YesExpr;
  }

  lemma NoOtherContradiction()
    ensures !Contradicts(AND, FooOrBar, NotFoo) && !Contradicts(AND, FooOrBar, NotBar)
  {
    Literals();
    var some := Some(NotFoo);
    assert ExtractEq(AND, None, NotFoo, NotFoo) == Extract(some, YesExpr, YesExpr);
    assert ExtractEq(AND, some, NotBar, YesExpr) == Extract(some, NotBar, YesExpr);
    assert ExtractEq(AND, None, Neither, NotFoo).fst == Bin(AND, YesExpr, NotBar);
    assert EliminateYn(Bin(AND, YesExpr, NotBar)) == NotBar;
    assert ExtractEq(AND, None, NotFoo, NotBar) == Extract(None, NotFoo, NotBar);
    assert ExtractEq(AND, None, NotBar, NotBar) == Extract(Some(NotBar), YesExpr, YesExpr);
    assert ExtractEq(AND, None, Neither, NotBar).fst == Bin(AND, NotFoo, YesExpr);
    assert EliminateYn(Bin(AND, NotFoo, YesExpr)) == NotFoo;
  }

  lemma Slots()
    ensures OnSpine(AND, Example, []) && OnSpine(AND, Example, [L]) && OnSpine(AND, Example, [R])
    ensures OnSpine(AND, Example, [R, L]) && OnSpine(AND, Example, [R, R])
    ensures At(Example, [L]) == FooOrBar && At(Example, [R]) == Neither
    ensures At(Example, [R, L]) == NotFoo && At(Example, [R, R]) == NotBar
    ensures OnSpine(OR, FooOrBar, [L]) && At(FooOrBar, [L]) == Symbol(FOO)
    ensures OnSpine(OR, FooOrBar, [R]) && At(FooOrBar, [R]) == Symbol(BAR)
  {
    assert [R, L][1..] == [L] && [R, R][1..] == [R] && [R][1..] == [] && [L][1..] == [];
  }

  lemma OperandsOfPair(op: Conn, a: Expr, b: Expr, p: Path)
    requires !IsOp(op, a) && !IsOp(op, b) && IsOperand(op, Bin(op, a, b), p)
    ensures (p == [L] && At(Bin(op, a, b), p) == a) || (p == [R] && At(Bin(op, a, b), p) == b)
  {
    assert p != [];
    assert OnSpine(op, Child(Bin(op, a, b), p[0]), p[1..]);
    assert p[1..] == [];
    assert p == [p[0]] + p[1..];
  }

  lemma Operands(p: Path)
    ensures IsOperand(AND, Example, p) ==> p == [L] || p == [R, L] || p == [R, R]
    ensures IsOperand(OR, FooOrBar, p) ==> p == [L] || p == [R]
  {
    Slots();
    if IsOperand(OR, FooOrBar, p) {
      OperandsOfPair(OR, Symbol(FOO), Symbol(BAR), p);
    }
    if IsOperand(AND, Example, p) {
      assert p != [];
      assert OnSpine(AND, Child(Example, p[0]), p[1..]);
      assert p == [p[0]] + p[1..];
      if p[0] == L {
        assert p[1..] == [];
      } else {
        assert IsOperand(AND, Neither, p[1..]);
        OperandsOfPair(AND, NotFoo, NotBar, p[1..]);
      }
    }
  }

  lemma InnerQuiet()
    ensures Dups1(OR, FooOrBar, [], []) == Outcome(FooOrBar, 0)
    ensures Dups2(OR, FooOrBar, [], []) == Outcome(FooOrBar, 0)
  {
    Slots();
    forall p: Path, q: Path | IsOperand(OR, FooOrBar, p) && IsOperand(OR, FooOrBar, q) && p != q
      ensures Quiet1(OR, FooOrBar, p, q)
    {
      Operands(p);
      Operands(q);
      assert !ExprEq(Symbol(FOO), Symbol(BAR)) && !ExprEq(Symbol(BAR), Symbol(FOO));
    }
    Dups1Quiet(OR, FooOrBar, [], []);
    Dups1Honest(OR, FooOrBar, [], []);
    forall p: Path, q: Path | IsOperand(OR, FooOrBar, p) && OnSpine(OR, FooOrBar, q) && p != q
      ensures Quiet2(OR, FooOrBar, p, q)
    {
      Operands(p);
    }
    Dups2Quiet(OR, FooOrBar, [], []);
    Dups2Honest(OR, FooOrBar, [], []);
  }

  lemma FirstPassQuiet()
    ensures Dups1(AND, Example, [], []) == Outcome(Example, 0)
  {
    Slots();
    InnerQuiet();
    Literals();
    forall p: Path, q: Path | IsOperand(AND, Example, p) && IsOperand(AND, Example, q) && p != q
      ensures Quiet1(AND, Example, p, q)
    {
      Operands(p);
      Operands(q);
    }
    Dups1Quiet(AND, Example, [], []);
    Dups1Honest(AND, Example, [], []);
  }

  const Fired := Bin(AND, NoExpr, Neither)

  /** FOO || BAR against the single operands. */
  lemma OperandsPass()
    ensures OnSpine(AND, Example, [L]) && OnSpine(AND, Example, [R, L]) && OnSpine(AND, Example, [R, R])
    ensures Dups2(AND, Example, [L], [L]) == Outcome(Example, 0)
    ensures Dups2(AND, Example, [L], [R, L]) == Outcome(Example, 0)
    ensures Dups2(AND, Example, [L], [R, R]) == Outcome(Example, 0)
  {
    Slots();
    InnerQuiet();
    NoOtherContradiction();
    PutAt(Example, [L]);
  }

  /** FOO || BAR against both negations together. */
  lemma PairFires()
    ensures OnSpine(AND, Example, [L]) && OnSpine(AND, Example, [R])
    ensures Dups2Inner(AND, Example, [L], [R]) == Outcome(Fired, 1)
  {
    Slots();
    InnerQuiet();
    ExampleContradiction();
    PutAt(Example, [L]);
    assert Put(Example, [L], NoExpr) == Fired;
  }

  lemma SecondPassFires()
    ensures OnSpine(AND, Example, [L]) && OnSpine(AND, Example, [])
    ensures Dups2(AND, Example, [L], []) == Outcome(Fired, 1)
  {
    Slots();
    OperandsPass();
    PairFires();
    assert [] + [L] == [L] && [] + [R] == [R] && [R] + [L] == [R, L] && [R] + [R] == [R, R];
    assert Dups2(AND, Example, [L], [R]) == Outcome(Fired, 1);
    assert Dups2Inner(AND, Fired, [L], []) == Outcome(Fired, 0);
  }

  /** Nothing more happens in the rest of the second pass: its operands are not spines. */
  lemma RestQuiet()
    ensures OnSpine(AND, Fired, [R]) && OnSpine(AND, Fired, [])
    ensures Dups2(AND, Fired, [R], []) == Outcome(Fired, 0)
  {
    assert [R][1..] == [];
    forall p: Path, q: Path | IsOperand(AND, Fired, p) && OnSpine(AND, Fired, q) && [R] <= p && [] <= q && p != q
      ensures Quiet2(AND, Fired, p, q)
    {
      assert p == [R] + p[1..];
      OperandsOfPair(AND, NotFoo, NotBar, p[1..]);
    }
    Dups2Quiet(AND, Fired, [R], []);
    Dups2Honest(AND, Fired, [R], []);
  }

  lemma ExampleResult()
    ensures EliminateDups(Example) == NoExpr
  {
    FirstPassQuiet();
    SecondPassFires();
    RestQuiet();
    Slots();
    assert [] + [L] == [L] && [] + [R] == [R];
    assert Dups2(AND, Example, [], []) == Outcome(Fired, 1);
    assert Round(Example) == Outcome(Fired, 1);
    assert EliminateYn(Fired) == NoExpr;
    assert EliminateDups(NoExpr) == NoExpr;
  }

  /** (FOO || BAR) && !FOO && !BAR with FOO = m and BAR = n has the value m; expr_eliminate_dups
      turns it into n. */
  lemma EliminateDupsNotExact(env: Env)
    requires WellTyped(env) && env.tri(FOO) == MOD && env.tri(BAR) == NO
    ensures Eval(Example, env) == MOD && Eval(EliminateDups(Example), env) == NO
  {
    ExampleResult();
    ExampleValue(env);
  }

  lemma ExampleValue(env: Env)
    requires env.tri(FOO) == MOD && env.tri(BAR) == NO
    ensures Eval(Example, env) == MOD
  {
    var foo, bar := Symbol(FOO), Symbol(BAR);
    assert Eval(foo, env) == MOD && Eval(bar, env) == NO;
    assert Eval(Not(foo), env) == MOD && Eval(Not(bar), env) == YES;
    assert Eval(Bin(OR, foo, bar), env) == MOD && Eval(Bin(AND, Not(foo), Not(bar)), env) == MOD;
  }
}
