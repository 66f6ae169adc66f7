/**
 expr_join_or and expr_join_and of package/config/expr.c: two operands of a disjunction or
 conjunction that one simpler expression can replace.
 */
module ExprJoin {
  import opened Expressions
  import opened ExprEquality
  import opened ExprTransform

  /** The symbol the join rules look at in the first operand, if it has one of the accepted forms. */
  function JoinSymbol1(e: Expr): Option<Sym> {
    match e
    case Symbol(s) => Some(s)
    case Comp(_, a, _) => Some(a)
    case Not(Symbol(s)) => Some(s)
    case Not(Comp(_, a, _)) => Some(a)
    case _ => None
  }

  /** In the second operand a negation must stand directly above a symbol. */
  function JoinSymbol2(e: Expr): Option<Sym> {
    match e
    case Symbol(s) => Some(s)
    case Comp(_, a, _) => Some(a)
    case Not(Symbol(s)) => Some(s)
    case _ => None
  }

  /** e1 and e2 have the given comparison types and compare with p and q, in either order. */
  predicate CompPair(e1: Expr, e2: Expr, equal: bool, p: Sym, q: Sym) {
    e1.Comp? && e2.Comp? && e1.equal == equal && e2.equal == equal &&
    ((e1.rhs == p && e2.rhs == q) || (e1.rhs == q && e2.rhs == p))
  }

  /** One operand is a bare symbol, the other a comparison of type equal with q. */
  predicate SymbolAndComp(e1: Expr, e2: Expr, equal: bool, q: Sym) {
    || (e1.Symbol? && e2.Comp? && e2.equal == equal && e2.rhs == q)
    || (e2.Symbol? && e1.Comp? && e1.equal == equal && e1.rhs == q)
  }

  /** expr_join_or */
  function JoinOr(e1: Expr, e2: Expr): Option<Expr> {
    if ExprEq(e1, e2) then Some(e1)
    else
      var o1, o2 := JoinSymbol1(e1), JoinSymbol2(e2);
      if o1.None? || o2.None? || o1 != o2 || !IsTristateLike(o1.value) then None
      else
        var sym := o1.value;
        if sym.Type() == TristateType then
          if CompPair(e1, e2, true, SymYes, SymMod) then Some(Comp(false, sym, SymNo))
          else if CompPair(e1, e2, true, SymYes, SymNo) then Some(Comp(false, sym, SymMod))
          else if CompPair(e1, e2, true, SymMod, SymNo) then Some(Comp(false, sym, SymYes))
          else None
        else if (e1 == Not(Symbol(sym)) && e2.Symbol?) || (e2 == Not(Symbol(sym)) && e1.Symbol?) then
          Some(YesExpr)
        else None
  }

  /** expr_join_and */
  function JoinAnd(e1: Expr, e2: Expr): Option<Expr> {
    if ExprEq(e1, e2) then Some(e1)
    else
      var o1, o2 := JoinSymbol1(e1), JoinSymbol2(e2);
      if o1.None? || o2.None? || o1 != o2 || !IsTristateLike(o1.value) then None
      else
        var sym := o1.value;
        if SymbolAndComp(e1, e2, true, SymYes) then Some(Comp(true, sym, SymYes))
        else if SymbolAndComp(e1, e2, false, SymNo) then Some(Symbol(sym))
        else if SymbolAndComp(e1, e2, false, SymMod) then Some(Comp(true, sym, SymYes))
        else if sym.Type() != TristateType then None
        else if e1.Comp? && e2.Comp? && e1.equal && !e2.equal && e1.rhs.IsConst() && e2.rhs.IsConst() then
          Some(if e1.rhs != e2.rhs then Comp(true, sym, e1.rhs) else NoExpr)
        else if e1.Comp? && e2.Comp? && !e1.equal && e2.equal && e1.rhs.IsConst() && e2.rhs.IsConst() then
          Some(if e1.rhs != e2.rhs then Comp(true, sym, e2.rhs) else NoExpr)
        else if CompPair(e1, e2, false, SymYes, SymNo) then Some(Comp(true, sym, SymMod))
        else if CompPair(e1, e2, false, SymYes, SymMod) then Some(Comp(true, sym, SymNo))
        else if CompPair(e1, e2, false, SymMod, SymNo) then Some(Comp(true, sym, SymYes))
        else None
  }

  function Join(op: Conn, e1: Expr, e2: Expr): Option<Expr> {
    if op == AND then JoinAnd(e1, e2) else JoinOr(e1, e2)
  }

  /** String values of the symbols a comparison with 'y', 'm' or 'n' looks at. */
  lemma ComparedStrings(s: Sym, env: Env)
    requires WellTyped(env) && IsTristateLike(s)
    ensures env.str(s) == TriName(env.tri(s))
    ensures env.str(s) == env.str(SymYes) <==> env.tri(s) == YES
    ensures env.str(s) == env.str(SymMod) <==> env.tri(s) == MOD
    ensures env.str(s) == env.str(SymNo) <==> env.tri(s) == NO
    ensures s.Type() == BooleanType ==> env.tri(s) != MOD
  {
  }

  lemma JoinOrValue(e1: Expr, e2: Expr, env: Env)
    requires WellTyped(env)
    ensures var j := JoinOr(e1, e2);
      j.Some? ==> Eval(j.value, env) == Apply(OR, Eval(e1, env), Eval(e2, env))
  {
    if ExprEq(e1, e2) {
      ExprEqSound(e1, e2);
    } else if JoinOr(e1, e2).Some? {
      ComparedStrings(JoinSymbol1(e1).value, env);
    }
  }

  /** The rules for one comparison against constants: (a='b') && (a!='c'). */
  lemma JoinConstants(a: Sym, b: Sym, c: Sym, env: Env)
    requires WellTyped(env) && b.IsConst() && c.IsConst()
    ensures Eval(if b != c then Comp(true, a, b) else NoExpr, env)
         == Apply(AND, Eval(Comp(true, a, b), env), Eval(Comp(false, a, c), env))
  {
  }

  lemma JoinAndValue(e1: Expr, e2: Expr, env: Env)
    requires WellTyped(env)
    ensures var j := JoinAnd(e1, e2);
      j.Some? ==> Eval(j.value, env) == Apply(AND, Eval(e1, env), Eval(e2, env))
  {
    if ExprEq(e1, e2) {
      ExprEqSound(e1, e2);
    } else if JoinAnd(e1, e2).Some? {
      var sym := JoinSymbol1(e1).value;
      ComparedStrings(sym, env);
      if e1.Comp? && e2.Comp? {
        if e1.equal != e2.equal {
          var b, c := if e1.equal then e1.rhs else e2.rhs, if e1.equal then e2.rhs else e1.rhs;
          JoinConstants(sym, b, c, env);
          ApplyCommutative(AND, Eval(e1, env), Eval(e2, env));
        }
      }
    }
  }

  /** A join is exact for all three values of the symbols. */
  lemma JoinValue(op: Conn, e1: Expr, e2: Expr, env: Env)
    requires WellTyped(env)
    ensures var j := Join(op, e1, e2);
      j.Some? ==> Eval(j.value, env) == Apply(op, Eval(e1, env), Eval(e2, env))
  {
    if op == AND {
      JoinAndValue(e1, e2, env);
    } else {
      JoinOrValue(e1, e2, env);
    }
  }

  /** A join has fewer operands than the two expressions it replaces. */
  lemma JoinLeaves(op: Conn, e1: Expr, e2: Expr)
    requires Join(op, e1, e2).Some?
    ensures Leaves(Join(op, e1, e2).value) < Leaves(e1) + Leaves(e2)
  {
  }

  /** Joining operands that are not op expressions does not give one. */
  lemma JoinNotOp(op: Conn, e1: Expr, e2: Expr)
    requires !IsOp(op, e1) && Join(op, e1, e2).Some?
    ensures !IsOp(op, Join(op, e1, e2).value)
  {
  }

  /** Joins of tidy expressions are tidy. */
  lemma JoinTidy(op: Conn, e1: Expr, e2: Expr, typed: bool)
    requires Tidy(e1, typed) && Tidy(e2, typed) && Join(op, e1, e2).Some?
    ensures Tidy(Join(op, e1, e2).value, typed)
  {
  }
}
